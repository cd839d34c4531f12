/**
  The values the cache hands out: the configuration of one repository, the
  repository's metadata and its archives.
*/
module Data {
  import opened Wrappers
  import opened BorgJson

  /** A configured repository: its borg location (`repo`), display name, the
      id learnt from borg, and its environment variables as "NAME=value". */
  datatype RepoConfig = RepoConfig(repo: string, displayName: Option<string>, id: Option<string>, environment: seq<string>)

  /** An archive: the summary fields `borg list` gives, and the detail
      fields only `borg info REPO::ARCHIVE` gives. */
  datatype Archive = Archive(
    name: Option<string>,
    id: Option<string>,
    start: Option<string>,
    time: Option<string>,
    repoId: Option<string>,
    repoName: Option<string>,
    repoDisplayName: Option<string>,
    cache: Option<Blob>,
    encryption: Option<Blob>,
    chunkerParams: Option<Blob>,
    commandLine: Option<seq<string>>,
    comment: Option<string>,
    stats: Option<ArchiveStats>,
    limits: Option<Blob>,
    hostname: Option<string>,
    username: Option<string>,
    end: Option<string>,
    duration: Option<Blob>)

  /** An archive known only by the summary fields of a listing. */
  function SummaryArchive(name: Option<string>, id: Option<string>, start: Option<string>, time: Option<string>,
                          repoId: Option<string>, repoName: Option<string>, repoDisplayName: Option<string>): Archive {
    Archive(name, id, start, time, repoId, repoName, repoDisplayName,
            None, None, None, None, None, None, None, None, None, None, None)
  }

  /** Archive.hasInfoData: the detail fields of `borg info` have been
      loaded, witnessed by the archive statistics. */
  predicate HasInfoData(a: Archive) {
    a.stats.Some?
  }

  datatype Repository = Repository(
    id: Option<string>,
    name: Option<string>,
    displayName: Option<string>,
    location: Option<string>,
    lastModified: Option<string>,
    lastCacheRefresh: Option<string>,
    cache: Option<Blob>,
    encryption: Option<Blob>,
    securityDir: Option<string>,
    archives: seq<Archive>,
    archivesLoaded: bool)

  /** Repository.add: appends the archive and marks the archive list loaded. */
  function AddArchive(r: Repository, a: Archive): Repository {
    r.(archives := r.archives + [a], archivesLoaded := true)
  }
}
