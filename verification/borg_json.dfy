/**
  The JSON documents borg prints, reduced to the fields the core reads, and
  the JSON decoder as a record of uninterpreted decoding functions: each
  returns None where JsonUtils.fromJson returns null.
*/
module BorgJson {
  import opened Wrappers

  /** A JSON sub-document the core only copies (cache statistics, limits,
      chunker parameters, encryption, ...). */
  datatype Blob = Blob(text: string)

  /** Progress snapshot: message text, current count and total count. */
  datatype ProgressInfo = ProgressInfo(message: Option<string>, current: int, total: int)

  /** ProgressInfo.incrementCurrent. */
  function IncrementCurrent(p: ProgressInfo): ProgressInfo {
    p.(current := p.current + 1)
  }

  /** One line of `borg list --json-lines`: a file system item. `kind` is
      borg's `type` field ("-" for a regular file, "d" for a directory, ...). */
  datatype FilesystemItem = FilesystemItem(kind: Option<string>, path: Option<string>, size: int, mtime: Option<string>)

  /** The `repository` object borg embeds in its info and list output. */
  datatype RepositoryJson = RepositoryJson(id: Option<string>, location: Option<string>, lastModified: Option<string>)

  /** Output of `borg info --json REPO`. */
  datatype RepoInfoJson = RepoInfoJson(
    repository: RepositoryJson,
    cache: Option<Blob>,
    encryption: Option<Blob>,
    securityDir: Option<string>)

  /** One archive of `borg list --json REPO`. */
  datatype ArchiveJson = ArchiveJson(archive: Option<string>, id: Option<string>, start: Option<string>, time: Option<string>)

  /** Output of `borg list --json REPO`. */
  datatype RepoListJson = RepoListJson(repository: RepositoryJson, archives: Option<seq<ArchiveJson>>)

  /** Archive statistics; `nfiles` is the number of regular files. */
  datatype ArchiveStats = ArchiveStats(nfiles: int, rest: Blob)

  /** One archive of `borg info --json REPO::ARCHIVE`. */
  datatype ArchiveDetailJson = ArchiveDetailJson(
    start: Option<string>,
    chunkerParams: Option<Blob>,
    commandLine: Option<seq<string>>,
    comment: Option<string>,
    stats: Option<ArchiveStats>,
    limits: Option<Blob>,
    hostname: Option<string>,
    username: Option<string>,
    end: Option<string>,
    duration: Option<Blob>)

  /** Output of `borg info --json REPO::ARCHIVE`. */
  datatype ArchiveInfoJson = ArchiveInfoJson(
    repository: RepositoryJson,
    cache: Option<Blob>,
    encryption: Option<Blob>,
    archives: Option<seq<ArchiveDetailJson>>)

  /** JsonUtils.fromJson, one decoding function per target class. */
  datatype Parsers = Parsers(
    progress: string -> Option<ProgressInfo>,
    item: string -> Option<FilesystemItem>,
    repoInfo: string -> Option<RepoInfoJson>,
    repoList: string -> Option<RepoListJson>,
    archiveInfo: string -> Option<ArchiveInfoJson>)
}
