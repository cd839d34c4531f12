/**
  BorgCommands: the borg invocations the server makes and how it reads
  their results. Each operation builds a BorgCommand, runs it as a BorgJob
  and interprets the job result: the version string, the outcome of
  `init`, the repository of `info`, the archives of `list`, the details of
  `info REPO::ARCHIVE` and the file list of `list --json-lines`.
*/
module BorgCommands {
  import opened Wrappers
  import opened Text
  import opened BorgJson
  import opened Data
  import opened Commands
  import opened CommandLineJob
  import opened BorgJob

  /** Everything outside the core that a borg call depends on: the
      configured borg executable, the server's process environment and user
      name, the executor (command line and environment to output lines and
      completion), the JSON decoders, the current time (already formatted)
      and DateUtils.format. */
  datatype Borg = Borg(
    executable: Option<string>,
    procEnv: map<string, string>,
    userName: string,
    process: (CommandLine, Option<map<string, string>>) -> ProcessRun,
    ps: Parsers,
    now: string,
    format: DateFormat)

  /** Runs a fresh job for the command to its end. */
  function RunJob(borg: Borg, cmd: BorgCommand): (r: (Job, Option<JobResult>))
    ensures Live(r.0)
    ensures r.1.None? <==> BuildCommandLine(Some(cmd), borg.executable).None?
  {
    var job := NewJob(cmd);
    Execute(job, borg.executable, borg.procEnv, borg.userName, borg.process, borg.ps, borg.format)
  }

  /** The private getResult(command): the job's result (the job's buffers
      are released afterwards). */
  function RunCommand(borg: Borg, cmd: BorgCommand): Option<JobResult> {
    RunJob(borg, cmd).1
  }

  predicate Succeeded(jr: Option<JobResult>) {
    jr.Some? && jr.value.status == OK
  }

  // ---------------------------------------------------------------------
  // The commands
  // ---------------------------------------------------------------------

  /** borg --version */
  const VersionCommand: BorgCommand := EmptyCommand.(params := Some([Some("--version")]))

  /** borg init REPO */
  function InitCommand(rc: RepoConfig): BorgCommand {
    EmptyCommand.(repoConfig := Some(rc), command := Some("init"))
  }

  /** borg info --json REPO */
  function InfoCommand(rc: RepoConfig): BorgCommand {
    EmptyCommand.(repoConfig := Some(rc), command := Some("info"), params := Some([Some("--json")]))
  }

  /** borg list --json REPO */
  function ListCommand(rc: RepoConfig): BorgCommand {
    EmptyCommand.(repoConfig := Some(rc), command := Some("list"), params := Some([Some("--json")]))
  }

  /** borg info --json --log-json --progress REPO::ARCHIVE */
  function ArchiveInfoCommand(rc: RepoConfig, archive: Archive): BorgCommand {
    EmptyCommand.(repoConfig := Some(rc), command := Some("info"), archive := archive.name,
                  params := Some([Some("--json"), Some("--log-json"), Some("--progress")]))
  }

  /** borg list --json-lines REPO::ARCHIVE */
  function ListContentCommand(rc: RepoConfig, archive: Archive): BorgCommand {
    EmptyCommand.(repoConfig := Some(rc), command := Some("list"), archive := archive.name,
                  params := Some([Some("--json-lines")]))
  }

  /** The archive details call puts the subcommand first, then the flags,
      then REPO::ARCHIVE. */
  lemma ArchiveInfoCommandLine(rc: RepoConfig, archive: Archive, exe: string)
    requires !IsBlank(exe) && archive.name.Some?
    ensures BuildCommandLine(Some(ArchiveInfoCommand(rc, archive)), Some(exe))
            == Some(CommandLine(exe, ["info", "--json", "--log-json", "--progress", rc.repo + "::" + archive.name.value]))
  {
    var cmd := ArchiveInfoCommand(rc, archive);
    var xs := [Some("--json"), Some("--log-json"), Some("--progress")];
    CompactAllPresent(xs);
    assert Compact(xs) == ["--json", "--log-json", "--progress"];
    assert CompactOpt(cmd.params) == Compact(xs);
    assert RepoArchive(cmd) == Some(rc.repo + "::" + archive.name.value);
    var b := BuildCommandLine(Some(cmd), Some(exe));
    assert b.Some?;
    assert b.value.arguments == ["info"] + ["--json", "--log-json", "--progress"] + [rc.repo + "::" + archive.name.value] + [];
    assert b.value == CommandLine(exe, ["info", "--json", "--log-json", "--progress", rc.repo + "::" + archive.name.value]);
  }

  /** The version call has no repository and no subcommand: only the flag. */
  lemma VersionCommandLine(exe: string)
    requires !IsBlank(exe)
    ensures BuildCommandLine(Some(VersionCommand), Some(exe)) == Some(CommandLine(exe, ["--version"]))
  {
    CompactAllPresent([Some("--version")]);
    assert Compact([Some("--version")]) == ["--version"];
    assert CompactOpt(VersionCommand.params) == ["--version"];
    var b := BuildCommandLine(Some(VersionCommand), Some(exe));
    assert b.Some?;
    assert b.value.arguments == [] + ["--version"] + [] + [];
    assert b.value == CommandLine(exe, ["--version"]);
  }

  // ---------------------------------------------------------------------
  // version()
  // ---------------------------------------------------------------------

  /** How version() reads the result of `borg --version`: no version
      without an OK result or without "borg" (in any case) in the output;
      otherwise the last whitespace-separated token (borg prints the program
      name first, e.g. "borg-macosx64 1.1.8"), accepted only if it starts
      with a digit. */
  function VersionOf(jr: Option<JobResult>): (r: Option<string>)
    ensures !Succeeded(jr) ==> r.None?
    ensures Succeeded(jr) && !ContainsIgnoreCase(jr.value.resultObject, "borg") ==> r.None?
    ensures r.Some? ==> && Succeeded(jr) && ContainsIgnoreCase(jr.value.resultObject, "borg")
                        && IsLastToken(jr.value.resultObject, r.value) && IsDigit(r.value[0])
    ensures Succeeded(jr) && ContainsIgnoreCase(jr.value.resultObject, "borg") ==>
              forall t :: IsLastToken(jr.value.resultObject, t) ==> (r == Some(t) <==> IsDigit(t[0]))
  {
    if jr.None? || jr.value.status != OK then None
    else
      var out := jr.value.resultObject;
      if !ContainsIgnoreCase(out, "borg") then None
      else
        ContainsBorgIsNotBlank(out);
        LastOfTokens(out);
        var strs := Tokens(out);
        var version := strs[|strs| - 1];
        assert forall t :: IsLastToken(out, t) ==> t == version by {
          forall t | IsLastToken(out, t) ensures t == version {
            LastTokenUnique(out, t, version);
          }
        }
        if |version| == 0 || !IsDigit(version[0]) then None else Some(version)
  }

  /** The case the work-around exists for. */
  lemma VersionOfMacOutput()
    ensures VersionOf(Some(JobResult(OK, "borg-macosx64 1.1.8\n", None))) == Some("1.1.8")
  {
    var out := "borg-macosx64 1.1.8\n";
    MacOutputNamesBorg(out);
    MacOutputEndsWithVersion(out);
    assert IsDigit("1.1.8"[0]);
  }

  lemma MacOutputNamesBorg(out: string)
    requires out == "borg-macosx64 1.1.8\n"
    ensures ContainsIgnoreCase(out, "borg")
  {
    assert out[0..4] == "borg";
    assert EqualsIgnoreCase(out[0..4], "borg");
    assert MatchesAtIgnoreCase(out, "borg", 0);
  }

  lemma MacOutputEndsWithVersion(out: string)
    requires out == "borg-macosx64 1.1.8\n"
    ensures IsLastToken(out, "1.1.8")
  {
    var t := "1.1.8";
    assert out[14..19] == t;
    assert IsWhitespace(out[13]);
    assert out[19..] == "\n";
    assert LastTokenAt(out, t, 14);
  }

  /** A tool that does not name itself is not taken for borg, whatever it
      prints. */
  lemma VersionOfForeignOutput()
    ensures VersionOf(Some(JobResult(OK, "1.1.8\n", None))).None?
  {
    var out := "1.1.8\n";
    var borg := "borg";
    forall i | 0 <= i <= |out| - |borg| ensures !MatchesAtIgnoreCase(out, borg, i) {
      assert out[i] == '1' || out[i] == '.';
      assert out[i..i + |borg|][0] == out[i];
      assert ToLower(out[i]) != ToLower(borg[0]);
    }
    assert !ContainsIgnoreCase(out, borg);
  }

  /** BorgCommands.version(). */
  function Version(borg: Borg): (r: Option<string>)
    ensures r.Some? ==> |r.value| > 0 && IsDigit(r.value[0]) && NoWhitespace(r.value)
    ensures r == VersionOf(RunCommand(borg, VersionCommand))
  {
    VersionOf(RunCommand(borg, VersionCommand))
  }

  // ---------------------------------------------------------------------
  // init()
  // ---------------------------------------------------------------------

  /** BorgCommands.init: the job runs, but both the failure path and the
      success path report false. */
  function Init(borg: Borg, rc: RepoConfig): (r: bool)
    ensures !r
  {
    var jr := RunCommand(borg, InitCommand(rc));
    var result := if jr.Some? then Some(jr.value.resultObject) else None;
    if jr.None? || jr.value.status != OK || (result.Some? && !IsBlank(result.value)) then false
    else false
  }

  /** init as its documentation describes it: true exactly when the job
      ended OK and printed nothing but whitespace. */
  function InitCorrected(borg: Borg, rc: RepoConfig): (r: bool)
    ensures var jr := RunCommand(borg, InitCommand(rc));
            r <==> Succeeded(jr) && IsBlank(jr.value.resultObject)
  {
    var jr := RunCommand(borg, InitCommand(rc));
    if jr.None? || jr.value.status != OK || !IsBlank(jr.value.resultObject) then false
    else true
  }

  /** The input that shows it: a repository without environment variables
      and a borg that completes silently. init reports failure although the
      repository was created; the corrected version reports success. */
  lemma InitFailsOnSuccess(borg: Borg, rc: RepoConfig)
    requires borg.executable.Some? && !IsBlank(borg.executable.value)
    requires rc.environment == []
    requires forall cl, env :: borg.process(cl, env) == ProcessRun([], true)
    ensures !Init(borg, rc) && InitCorrected(borg, rc)
  {
    var cmd := InitCommand(rc);
    var b := BuildCommandLine(Some(cmd), borg.executable);
    assert b.Some? by {
      assert CompactOpt(cmd.params) == [];
    }
    var env := GetEnvironment(cmd, borg.procEnv, borg.userName);
    assert env == Variables(borg.procEnv);
    var (job, jr) := RunJob(borg, cmd);
    assert jr.Some?;
    assert StdOutTexts([]) == [];
    assert Lines([]) == "";
    assert jr.value.status == OK && jr.value.resultObject == "";
  }

  // ---------------------------------------------------------------------
  // getResult(result, command) and info(repoConfig)
  // ---------------------------------------------------------------------

  /** BorgCommandResult: the job result and the content read from it. Its
      status is the job result's, and ERROR without one. */
  datatype CommandResult<T> = CommandResult(jobResult: Option<JobResult>, content: Option<T>)

  function Status<T>(cr: CommandResult<T>): ResultStatus {
    if cr.jobResult.Some? then cr.jobResult.value.status else ERROR
  }

  /** The maximum length of the error text attached to a failed result. */
  const ErrorStringLength: int := 2000

  /** getResult(result, command) as written: on ERROR the abbreviated
      stderr text is attached; the guard also lets an absent result through
      and dereferences it (None: the null dereference). */
  function FillErrorStringAsWritten(job: Job, jr: Option<JobResult>): (r: Option<Option<JobResult>>)
    requires job.stderr.Some?
    ensures r.None? <==> jr.None?
    ensures r.Some? ==> r.value == FillErrorString(job, jr)
  {
    if jr.None? then None
    else if jr.value.status == ERROR then Some(Some(jr.value.(errorString := Some(GetErrorString(job, ErrorStringLength)))))
    else Some(jr)
  }

  /** getResult(result, command), corrected: an absent result stays absent
      (its status reads as ERROR); a failed one gets the abbreviated stderr
      text; a successful one is kept as is. */
  function FillErrorString(job: Job, jr: Option<JobResult>): (r: Option<JobResult>)
    requires job.stderr.Some?
    ensures r.None? <==> jr.None?
    ensures r.Some? ==> r.value.status == jr.value.status && r.value.resultObject == jr.value.resultObject
    ensures r.Some? && r.value.status == ERROR ==>
              && r.value.errorString.Some?
              && (|job.stderr.value| <= ErrorStringLength ==> r.value.errorString.value == job.stderr.value)
              && |r.value.errorString.value| <= ErrorStringLength
    ensures r.Some? && r.value.status == OK ==> r == jr
  {
    if jr.None? then None
    else if jr.value.status == ERROR then Some(jr.value.(errorString := Some(GetErrorString(job, ErrorStringLength))))
    else jr
  }

  /** The input that shows it: with a blank borg executable no command line
      can be built, execute returns null, and the guard of getResult
      dereferences it; the corrected version reports an ERROR status. */
  lemma FillErrorStringBlankExecutable(borg: Borg, rc: RepoConfig)
    requires borg.executable.Some? && IsBlank(borg.executable.value)
    ensures var (job, jr) := RunJob(borg, InfoCommand(rc));
            && FillErrorStringAsWritten(job, jr).None?
            && Status(RepositoryInfo(borg, rc)) == ERROR && RepositoryInfo(borg, rc).content.None?
  {
  }

  /** The repository `borg info` describes, named after the configuration. */
  function RepositoryOf(borg: Borg, rc: RepoConfig, info: RepoInfoJson): (r: Repository)
    ensures r.id == info.repository.id && r.location == info.repository.location
    ensures r.name == Some(rc.repo) && r.displayName == rc.displayName
    ensures r.cache == info.cache && r.encryption == info.encryption && r.securityDir == info.securityDir
    ensures r.lastCacheRefresh == Some(borg.now) && r.lastModified == borg.format(info.repository.lastModified)
    ensures r.archives == [] && !r.archivesLoaded
  {
    Repository(info.repository.id, Some(rc.repo), rc.displayName, info.repository.location,
               borg.format(info.repository.lastModified), Some(borg.now),
               info.cache, info.encryption, info.securityDir, [], false)
  }

  /** BorgCommands.info(repoConfig): a failed call returns its result
      without a repository; a successful one decodes the output into a
      repository without archives. */
  function RepositoryInfo(borg: Borg, rc: RepoConfig): (r: CommandResult<Repository>)
    ensures var (job, jr) := RunJob(borg, InfoCommand(rc));
            && r.jobResult == FillErrorString(job, jr)
            && (Status(r) != OK ==> r.content.None?)
            && (r.content.Some? <==> Succeeded(jr) && borg.ps.repoInfo(jr.value.resultObject).Some?)
            && (r.content.Some? ==> r.content.value == RepositoryOf(borg, rc, borg.ps.repoInfo(jr.value.resultObject).value))
  {
    var (job, jr) := RunJob(borg, InfoCommand(rc));
    var result: CommandResult<Repository> := CommandResult(FillErrorString(job, jr), None);
    if Status(result) != OK then result
    else
      match borg.ps.repoInfo(jr.value.resultObject)
      case None => result
      case Some(info) => result.(content := Some(RepositoryOf(borg, rc, info)))
  }

  // ---------------------------------------------------------------------
  // list(repoConfig, repository)
  // ---------------------------------------------------------------------

  /** The archive a listing entry describes, attributed to the repository. */
  function ListedArchive(borg: Borg, rc: RepoConfig, repo: Repository, a: ArchiveJson): Archive {
    SummaryArchive(a.archive, a.id, borg.format(a.start), borg.format(a.time), repo.id, repo.name, rc.displayName)
  }

  /** `a` is the archive added for listing entry `l` of the repository:
      same name and id, start and time as displayed, attributed to the
      repository and its configuration, and no detail fields yet. */
  predicate ListedFrom(a: Archive, l: ArchiveJson, repo: Repository, rc: RepoConfig, format: DateFormat) {
    a == SummaryArchive(l.archive, l.id, format(l.start), format(l.time), repo.id, repo.name, rc.displayName)
  }

  /** Adds the listed archives one after the other. */
  function AddListed(borg: Borg, rc: RepoConfig, repo: Repository, listed: seq<ArchiveJson>): (r: Repository)
    ensures r == repo.(archives := r.archives, archivesLoaded := r.archivesLoaded)
    ensures r.archivesLoaded == (repo.archivesLoaded || listed != [])
    ensures |r.archives| == |repo.archives| + |listed|
    ensures r.archives[..|repo.archives|] == repo.archives
    ensures forall i :: 0 <= i < |listed| ==> ListedFrom(r.archives[|repo.archives| + i], listed[i], repo, rc, borg.format)
    decreases |listed|
  {
    if listed == [] then repo
    else
      var repo1 := AddArchive(repo, ListedArchive(borg, rc, repo, listed[0]));
      var r := AddListed(borg, rc, repo1, listed[1..]);
      var n := |repo.archives|;
      assert r.archives[..n] == r.archives[..n + 1][..n];
      assert r.archives[n] == r.archives[..n + 1][n] == repo1.archives[n];
      forall i | 0 <= i < |listed| ensures ListedFrom(r.archives[n + i], listed[i], repo, rc, borg.format) {
        if i > 0 {
          assert r.archives[n + i] == r.archives[|repo1.archives| + (i - 1)];
          assert listed[i] == listed[1..][i - 1];
          assert ListedFrom(r.archives[|repo1.archives| + (i - 1)], listed[1..][i - 1], repo1, rc, borg.format);
        }
      }
      r
  }

  /** BorgCommands.list: without an OK result, a decodable listing and at
      least one archive the repository is left as it was; otherwise its
      modification and refresh times are updated and one archive is
      appended per listed archive, in borg's order. */
  function ListArchives(borg: Borg, rc: RepoConfig, repo: Repository, jr: Option<JobResult>): (r: Repository)
    ensures var listed := if Succeeded(jr) then borg.ps.repoList(jr.value.resultObject) else None;
            && (listed.None? || listed.value.archives.None? || listed.value.archives.value == [] ==> r == repo)
            && (listed.Some? && listed.value.archives.Some? && listed.value.archives.value != [] ==>
                  var archives := listed.value.archives.value;
                  && r == repo.(lastModified := r.lastModified, lastCacheRefresh := r.lastCacheRefresh,
                                archives := r.archives, archivesLoaded := r.archivesLoaded)
                  && r.archivesLoaded
                  && r.lastModified == borg.format(listed.value.repository.lastModified)
                  && r.lastCacheRefresh == Some(borg.now)
                  && |r.archives| == |repo.archives| + |archives|
                  && r.archives[..|repo.archives|] == repo.archives
                  && forall i :: 0 <= i < |archives| ==>
                       ListedFrom(r.archives[|repo.archives| + i], archives[i], repo, rc, borg.format))
    ensures r.id == repo.id && r.name == repo.name
    ensures |repo.archives| <= |r.archives| && r.archives[..|repo.archives|] == repo.archives
  {
    if jr.None? || jr.value.status != OK then repo
    else
      match borg.ps.repoList(jr.value.resultObject)
      case None => repo
      case Some(rl) =>
        if rl.archives.None? || rl.archives.value == [] then repo
        else
          var repo1 := repo.(lastModified := borg.format(rl.repository.lastModified), lastCacheRefresh := Some(borg.now));
          AddListed(borg, rc, repo1, rl.archives.value)
  }

  /** Listing twice appends the archives twice: list does not replace an
      archive list that is already loaded, which is why the cache calls it
      only for repositories whose archives are not loaded yet. */
  lemma ListAppendsAgain(borg: Borg, rc: RepoConfig, repo: Repository, jr: Option<JobResult>)
    requires Succeeded(jr)
    requires var l := borg.ps.repoList(jr.value.resultObject); l.Some? && l.value.archives.Some? && l.value.archives.value != []
    ensures var once := ListArchives(borg, rc, repo, jr);
            |ListArchives(borg, rc, once, jr).archives| == |repo.archives| + 2 * |borg.ps.repoList(jr.value.resultObject).value.archives.value|
  {
  }

  // ---------------------------------------------------------------------
  // info(repoConfig, archive, repository)
  // ---------------------------------------------------------------------

  /** BorgCommands.info(repoConfig, archive, repository): on an OK,
      decodable result the repository's times and the archive's cache and
      encryption are updated; the detail fields are taken from the first
      archive borg reports, if any, and the others are ignored. */
  function ApplyArchiveInfo(borg: Borg, repo: Repository, archive: Archive, jr: Option<JobResult>): (r: (Repository, Archive))
    ensures var info := if Succeeded(jr) then borg.ps.archiveInfo(jr.value.resultObject) else None;
            && (info.None? ==> r == (repo, archive))
            && (info.Some? ==>
                  && r.0 == repo.(lastModified := borg.format(info.value.repository.lastModified),
                                  lastCacheRefresh := Some(borg.now))
                  && r.1.cache == info.value.cache && r.1.encryption == info.value.encryption
                  && r.1.name == archive.name && r.1.id == archive.id && r.1.time == archive.time
                  && r.1.repoId == archive.repoId && r.1.repoName == archive.repoName
                  && r.1.repoDisplayName == archive.repoDisplayName
                  && (info.value.archives.None? || info.value.archives.value == [] ==>
                        r.1 == archive.(cache := info.value.cache, encryption := info.value.encryption))
                  && (info.value.archives.Some? && info.value.archives.value != [] ==>
                        var d := info.value.archives.value[0];
                        && r.1.stats == d.stats && r.1.commandLine == d.commandLine && r.1.comment == d.comment
                        && r.1.hostname == d.hostname && r.1.username == d.username
                        && r.1.chunkerParams == d.chunkerParams && r.1.limits == d.limits
                        && r.1.duration == d.duration
                        && r.1.start == borg.format(d.start) && r.1.end == borg.format(d.end)))
  {
    if jr.None? || jr.value.status != OK then (repo, archive)
    else
      match borg.ps.archiveInfo(jr.value.resultObject)
      case None => (repo, archive)
      case Some(info) =>
        var repo1 := repo.(lastModified := borg.format(info.repository.lastModified), lastCacheRefresh := Some(borg.now));
        var a1 := archive.(cache := info.cache, encryption := info.encryption);
        if info.archives.None? || info.archives.value == [] then (repo1, a1)
        else
          var d := info.archives.value[0];
          (repo1, a1.(start := borg.format(d.start), chunkerParams := d.chunkerParams, commandLine := d.commandLine,
                      comment := d.comment, stats := d.stats, limits := d.limits, hostname := d.hostname,
                      username := d.username, end := borg.format(d.end), duration := d.duration))
  }

  /** Only the first reported archive matters: two answers that agree on
      the repository, cache, encryption and first archive leave the same
      state behind, however many further archives they list. */
  lemma ArchiveInfoUsesOnlyFirst(borg: Borg, repo: Repository, archive: Archive, jr1: Option<JobResult>, jr2: Option<JobResult>)
    requires Succeeded(jr1) && Succeeded(jr2)
    requires var i1 := borg.ps.archiveInfo(jr1.value.resultObject);
             var i2 := borg.ps.archiveInfo(jr2.value.resultObject);
             && i1.Some? && i2.Some?
             && i1.value.repository == i2.value.repository
             && i1.value.cache == i2.value.cache && i1.value.encryption == i2.value.encryption
             && i1.value.archives.Some? && i2.value.archives.Some?
             && |i1.value.archives.value| > 0 && |i2.value.archives.value| > 0
             && i1.value.archives.value[0] == i2.value.archives.value[0]
    ensures ApplyArchiveInfo(borg, repo, archive, jr1) == ApplyArchiveInfo(borg, repo, archive, jr2)
  {
  }

  /** The archive details for an archive: runs info on REPO::ARCHIVE and
      applies the answer. A failed or undecodable call changes nothing; the
      archive keeps its identity and summary fields, and the repository its
      identity and archive list, whatever borg answers. */
  function ArchiveInfo(borg: Borg, rc: RepoConfig, repo: Repository, archive: Archive): (r: (Repository, Archive))
    ensures var jr := RunCommand(borg, ArchiveInfoCommand(rc, archive));
            && (!Succeeded(jr) || borg.ps.archiveInfo(jr.value.resultObject).None? ==> r == (repo, archive))
            && (Succeeded(jr) && borg.ps.archiveInfo(jr.value.resultObject).Some? ==>
                  r.0.lastCacheRefresh == Some(borg.now) && r.1.cache == borg.ps.archiveInfo(jr.value.resultObject).value.cache)
    ensures r.1.name == archive.name && r.1.id == archive.id && r.1.time == archive.time
    ensures r.1.repoId == archive.repoId && r.1.repoName == archive.repoName && r.1.repoDisplayName == archive.repoDisplayName
    ensures r.0.archives == repo.archives && r.0.archivesLoaded == repo.archivesLoaded
    ensures r.0.id == repo.id && r.0.name == repo.name && r.0.location == repo.location
  {
    ApplyArchiveInfo(borg, repo, archive, RunCommand(borg, ArchiveInfoCommand(rc, archive)))
  }

  // ---------------------------------------------------------------------
  // listArchiveContent(repoConfig, archive)
  // ---------------------------------------------------------------------

  /** The counter a file listing starts with: nothing counted yet, and the
      archive's file count as total when its statistics are known. */
  function FileListProgress(archive: Archive): (r: ProgressInfo)
    ensures r.message == Some("Getting file list...") && r.current == 0
    ensures archive.stats.Some? ==> r.total == archive.stats.value.nfiles
    ensures archive.stats.None? ==> r.total == 0
  {
    ProgressInfo(Some("Getting file list..."), 0, if archive.stats.Some? then archive.stats.value.nfiles else 0)
  }

  /** The file-listing job, with its item list in place before it runs. */
  function FileListJob(rc: RepoConfig, archive: Archive): (r: Job)
    ensures Live(r) && r.payload == Some([])
    ensures r.fileListProgress == Some(FileListProgress(archive)) && r.progress.None?
    ensures r.command == Some(ListContentCommand(rc, archive)) && r.commandLineString.None?
    ensures r.stdout == Some([]) && r.stderr == Some([]) && r.status == Created
  {
    NewJob(ListContentCommand(rc, archive)).(payload := Some([]), fileListProgress := Some(FileListProgress(archive)))
  }

  /** BorgCommands.listArchiveContent: the items of every stdout line that
      decodes, in borg's order, provided the run succeeded; nothing
      otherwise. */
  function ListArchiveContent(borg: Borg, rc: RepoConfig, archive: Archive): (r: Option<seq<FilesystemItem>>)
    ensures var cmd := ListContentCommand(rc, archive);
            var cl := BuildCommandLine(Some(cmd), borg.executable);
            var env := GetEnvironment(cmd, borg.procEnv, borg.userName);
            && (cl.None? || env.Rejected? ==> r.None?)
            && (cl.Some? && env.Variables? ==>
                  var run := borg.process(cl.value, Some(env.vars));
                  && (r.Some? <==> run.completed)
                  && (r.Some? ==> r.value == ParsedItems(run.lines, borg.ps, borg.format)))
  {
    var (job, jr) := Execute(FileListJob(rc, archive), borg.executable, borg.procEnv, borg.userName, borg.process, borg.ps, borg.format);
    if jr.None? || jr.value.status != OK then None
    else Some(job.payload.value)
  }
}
