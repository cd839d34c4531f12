/**
  BorgJob: the command-line job that runs borg. It builds the argument
  vector from a BorgCommand, routes borg's JSON progress messages on stderr
  into a progress snapshot, supplies the repository's environment
  variables, and can be cloned into a light copy for display. The
  file-listing job of BorgCommands.listArchiveContent is the same job with
  its stdout handling replaced; it is modelled here too, recognised by its
  file counter being present.
*/
module BorgJob {
  import opened Wrappers
  import opened Text
  import opened BorgJson
  import opened Commands
  import opened CommandLineJob

  /** new BorgJob(command): empty buffers, working directory and description
      taken from the command. */
  function NewJob(cmd: BorgCommand): (r: Job)
    ensures r.command == Some(cmd) && r.status == Created && !r.executeStarted
    ensures r.stdout == Some([]) && r.stderr == Some([])
    ensures r.workingDirectory == cmd.workingDir && r.description == cmd.description
    ensures r.commandLine.None? && r.commandLineString.None?
    ensures r.progress.None? && r.payload.None? && r.fileListProgress.None?
  {
    Job(Some(cmd), None, None, Some([]), Some([]), Created, false, false, 0, None, None, None, None,
        cmd.workingDir, cmd.description, None, None, None)
  }

  /** The start of every JSON log message borg prints with --log-json. */
  const ProgressPrefix: string := "{\"message"

  /** A stderr line that BorgJob takes as a progress message: it starts with
      the prefix and decodes. */
  predicate IsProgressLine(line: string, ps: Parsers) {
    StartsWith(line, ProgressPrefix) && ps.progress(line).Some?
  }

  /** BorgJob.processStdErrLine: a progress message replaces the progress
      snapshot and is not written to the stderr buffer; every other line
      (including one that starts like a message but does not decode) goes to
      the buffer as in AbstractCommandLineJob. */
  function BorgStdErrLine(job: Job, line: string, ps: Parsers): (r: Job)
    requires job.stderr.Some?
    ensures r.stderr == job.stderr <==> IsProgressLine(line, ps)
    ensures IsProgressLine(line, ps) ==> r == job.(progress := ps.progress(line))
    ensures !IsProgressLine(line, ps) ==>
              r.progress == job.progress && r.stderr.Some? && r.stderr.value == job.stderr.value + line + "\n"
  {
    if StartsWith(line, ProgressPrefix) && ps.progress(line).Some? then
      job.(progress := ps.progress(line))
    else
      var r := ProcessStdErrLine(job, line);
      assert Lines([line]) == line + "\n" by {
        assert [line][1..] == [];
        assert Lines([line]) == line + "\n" + Lines([]);
      }
      assert |r.stderr.value| > |job.stderr.value|;
      r
  }

  /** DateUtils.format: the modification time as the server displays it. */
  type DateFormat = Option<string> -> Option<string>

  /** A decoded item with its modification time reformatted for display. */
  function Displayed(item: FilesystemItem, format: DateFormat): (r: FilesystemItem)
    ensures r.kind == item.kind && r.path == item.path && r.size == item.size
    ensures r.mtime == format(item.mtime)
  {
    item.(mtime := format(item.mtime))
  }

  /** The stdout handler of the file-listing job, corrected: a line that
      does not decode is skipped; a decoded item gets its modification time
      reformatted and is appended to the payload, and a regular file ("-")
      advances the file counter, which becomes the job's progress. Nothing
      is written to the stdout buffer. */
  function FileListStdOutLine(job: Job, line: string, ps: Parsers, format: DateFormat): (r: Job)
    requires job.payload.Some? && job.fileListProgress.Some?
    ensures ps.item(line).None? ==> r == job
    ensures ps.item(line).Some? ==> r.payload == Some(job.payload.value + [Displayed(ps.item(line).value, format)])
    ensures ps.item(line).Some? && ps.item(line).value.kind == Some("-") ==>
              r.fileListProgress == Some(IncrementCurrent(job.fileListProgress.value)) && r.progress == r.fileListProgress
    ensures ps.item(line).Some? && ps.item(line).value.kind != Some("-") ==>
              r.fileListProgress == job.fileListProgress && r.progress == job.progress
    ensures r.stdout == job.stdout && r.stderr == job.stderr && r.payload.Some? && r.fileListProgress.Some?
  {
    match ps.item(line)
    case None => job
    case Some(item) =>
      var j := job.(payload := Some(job.payload.value + [Displayed(item, format)]));
      if item.kind == Some("-") then
        var p := IncrementCurrent(job.fileListProgress.value);
        j.(fileListProgress := Some(p), progress := Some(p))
      else j
  }

  /** The same handler as written: the decoded item is dereferenced without
      a null check, so a line that does not decode raises a
      null dereference inside the stream pump (None here). */
  function FileListStdOutLineAsWritten(job: Job, line: string, ps: Parsers, format: DateFormat): (r: Option<Job>)
    requires job.payload.Some? && job.fileListProgress.Some?
    ensures r.None? <==> ps.item(line).None?
    ensures r.Some? ==> r.value == FileListStdOutLine(job, line, ps, format)
  {
    match ps.item(line)
    case None => None
    case Some(item) => Some(FileListStdOutLine(job, line, ps, format))
  }

  /** The line that the handler as written cannot take: any stdout line the
      decoder rejects, such as an empty one, stops it, where the corrected
      handler leaves the job as it was. */
  lemma FileListAsWrittenFailsOnUndecodable(job: Job, ps: Parsers, format: DateFormat)
    requires job.payload.Some? && job.fileListProgress.Some?
    requires ps.item("").None?
    ensures FileListStdOutLineAsWritten(job, "", ps, format).None?
    ensures FileListStdOutLine(job, "", ps, format) == job
  {
  }

  /** A job that can still take output: both buffers are there, and a
      file-listing job has its payload list. */
  predicate Live(job: Job) {
    && job.stdout.Some? && job.stderr.Some?
    && (job.fileListProgress.Some? ==> job.payload.Some?)
  }

  /** Routes one line of output to the handler of its stream. */
  function HandleLine(job: Job, l: OutputLine, ps: Parsers, format: DateFormat): (r: Job)
    requires Live(job)
    ensures Live(r) && (r.fileListProgress.Some? <==> job.fileListProgress.Some?)
    ensures r == job.(stdout := r.stdout, stderr := r.stderr, progress := r.progress,
                      payload := r.payload, fileListProgress := r.fileListProgress)
    ensures l.StdErr? ==> r == BorgStdErrLine(job, l.text, ps)
    ensures l.StdOut? ==> r.stderr == job.stderr
    ensures l.StdOut? && job.fileListProgress.None? ==> r == ProcessStdOutLine(job, l.text)
    ensures l.StdOut? && job.fileListProgress.Some? ==> r == FileListStdOutLine(job, l.text, ps, format)
  {
    match l
    case StdErr(text) => BorgStdErrLine(job, text, ps)
    case StdOut(text) =>
      if job.fileListProgress.Some? then FileListStdOutLine(job, text, ps, format)
      else ProcessStdOutLine(job, text)
  }

  // Independent descriptions of what a stream of output leaves behind.

  /** The texts of the stdout lines, in order. */
  function StdOutTexts(lines: seq<OutputLine>): seq<string> {
    if lines == [] then []
    else (if lines[0].StdOut? then [lines[0].text] else []) + StdOutTexts(lines[1..])
  }

  /** The texts of the stderr lines that are not progress messages, in order. */
  function ErrorTexts(lines: seq<OutputLine>, ps: Parsers): seq<string> {
    if lines == [] then []
    else (if lines[0].StdErr? && !IsProgressLine(lines[0].text, ps) then [lines[0].text] else [])
         + ErrorTexts(lines[1..], ps)
  }

  /** The file system items the stdout lines decode to, in order, each
      with its modification time reformatted. */
  function ParsedItems(lines: seq<OutputLine>, ps: Parsers, format: DateFormat): seq<FilesystemItem> {
    if lines == [] then []
    else (if lines[0].StdOut? && ps.item(lines[0].text).Some? then [Displayed(ps.item(lines[0].text).value, format)] else [])
         + ParsedItems(lines[1..], ps, format)
  }

  /** The number of regular files among the items. */
  function FileCount(items: seq<FilesystemItem>): nat {
    if items == [] then 0 else (if items[0].kind == Some("-") then 1 else 0) + FileCount(items[1..])
  }

  /** The progress of the last progress message on stderr, or `p` if none. */
  function LatestProgress(lines: seq<OutputLine>, ps: Parsers, p: Option<ProgressInfo>): Option<ProgressInfo> {
    if lines == [] then p
    else LatestProgress(lines[1..], ps,
                        if lines[0].StdErr? && IsProgressLine(lines[0].text, ps) then ps.progress(lines[0].text) else p)
  }

  lemma FileCountSingle(items: seq<FilesystemItem>, rest: seq<FilesystemItem>)
    requires |items| <= 1
    ensures FileCount(items + rest) == FileCount(items) + FileCount(rest)
  {
    if items == [] {
      assert items + rest == rest;
    } else {
      assert (items + rest)[1..] == rest;
    }
  }

  /** The pumps' effect on a job: each line, in arrival order, through its
      stream's handler. The stderr buffer ends with every non-progress error
      line; an ordinary job's stdout buffer ends with every stdout line and
      its progress is the last progress message; a file-listing job's stdout
      buffer is untouched, its payload gains every decodable item in order,
      and its counter advances once per regular file. */
  function ProcessLines(job: Job, lines: seq<OutputLine>, ps: Parsers, format: DateFormat): (r: Job)
    requires Live(job)
    ensures Live(r)
    ensures r == job.(stdout := r.stdout, stderr := r.stderr, progress := r.progress,
                      payload := r.payload, fileListProgress := r.fileListProgress)
    ensures r.stderr.value == job.stderr.value + Lines(ErrorTexts(lines, ps))
    ensures r.fileListProgress.Some? <==> job.fileListProgress.Some?
    ensures job.fileListProgress.None? ==>
              && r.stdout.value == job.stdout.value + Lines(StdOutTexts(lines))
              && r.payload == job.payload
              && r.progress == LatestProgress(lines, ps, job.progress)
    ensures job.fileListProgress.Some? ==>
              && r.stdout == job.stdout
              && r.payload.value == job.payload.value + ParsedItems(lines, ps, format)
              && r.fileListProgress.value
                 == job.fileListProgress.value.(current := job.fileListProgress.value.current
                                                           + FileCount(ParsedItems(lines, ps, format)))
    decreases |lines|
  {
    if lines == [] then
      assert job.stderr.value + Lines([]) == job.stderr.value;
      assert job.stdout.value + Lines([]) == job.stdout.value;
      assert job.payload.Some? ==> job.payload.value + [] == job.payload.value;
      job
    else
      var l := lines[0];
      var j1 := HandleLine(job, l, ps, format);
      var r := ProcessLines(j1, lines[1..], ps, format);
      StepStdErr(job, lines, ps, format);
      if job.fileListProgress.None? then
        StepPlain(job, lines, ps, format);
        r
      else
        StepFileList(job, lines, ps, format);
        r
  }

  /** The first line's contribution to the stderr buffer. */
  lemma StepStdErr(job: Job, lines: seq<OutputLine>, ps: Parsers, format: DateFormat)
    requires Live(job) && lines != []
    ensures var j1 := HandleLine(job, lines[0], ps, format);
            j1.stderr.value + Lines(ErrorTexts(lines[1..], ps)) == job.stderr.value + Lines(ErrorTexts(lines, ps))
  {
    var l := lines[0];
    var rest := ErrorTexts(lines[1..], ps);
    if l.StdErr? && !IsProgressLine(l.text, ps) {
      assert ErrorTexts(lines, ps) == [l.text] + rest;
      LinesAppend([l.text], rest);
      assert [l.text][1..] == [];
      assert Lines([l.text]) == l.text + "\n" + Lines([]);
    } else {
      assert ErrorTexts(lines, ps) == [] + rest == rest;
      var j1 := HandleLine(job, l, ps, format);
      if l.StdErr? {
        assert j1 == BorgStdErrLine(job, l.text, ps);
      }
      assert j1.stderr == job.stderr;
    }
  }

  /** The first line's contribution to an ordinary job. */
  lemma StepPlain(job: Job, lines: seq<OutputLine>, ps: Parsers, format: DateFormat)
    requires Live(job) && lines != [] && job.fileListProgress.None?
    ensures var j1 := HandleLine(job, lines[0], ps, format);
            && j1.fileListProgress.None? && j1.payload == job.payload
            && j1.stdout.value + Lines(StdOutTexts(lines[1..])) == job.stdout.value + Lines(StdOutTexts(lines))
            && LatestProgress(lines[1..], ps, j1.progress) == LatestProgress(lines, ps, job.progress)
  {
    var l := lines[0];
    var j1 := HandleLine(job, l, ps, format);
    var rest := StdOutTexts(lines[1..]);
    if l.StdOut? {
      assert j1 == ProcessStdOutLine(job, l.text);
      assert StdOutTexts(lines) == [l.text] + rest;
      LinesAppend([l.text], rest);
    } else {
      assert j1 == BorgStdErrLine(job, l.text, ps);
      assert StdOutTexts(lines) == [] + rest == rest;
    }
  }

  /** The first line's contribution to a file-listing job. */
  lemma StepFileList(job: Job, lines: seq<OutputLine>, ps: Parsers, format: DateFormat)
    requires Live(job) && lines != [] && job.fileListProgress.Some?
    ensures var j1 := HandleLine(job, lines[0], ps, format);
            && j1.stdout == job.stdout && j1.payload.Some? && j1.fileListProgress.Some?
            && j1.payload.value + ParsedItems(lines[1..], ps, format) == job.payload.value + ParsedItems(lines, ps, format)
            && j1.fileListProgress.value.current + FileCount(ParsedItems(lines[1..], ps, format))
               == job.fileListProgress.value.current + FileCount(ParsedItems(lines, ps, format))
            && j1.fileListProgress.value == job.fileListProgress.value.(current := j1.fileListProgress.value.current)
  {
    if lines[0].StdOut? && ps.item(lines[0].text).Some? {
      assert HandleLine(job, lines[0], ps, format) == FileListStdOutLine(job, lines[0].text, ps, format);
      StepFileListItem(job, lines, ps, format);
    } else {
      StepFileListSkip(job, lines, ps, format);
    }
  }

  /** A decodable stdout line adds its item and counts it if it is a file. */
  lemma StepFileListItem(job: Job, lines: seq<OutputLine>, ps: Parsers, format: DateFormat)
    requires Live(job) && lines != [] && job.fileListProgress.Some?
    requires lines[0].StdOut? && ps.item(lines[0].text).Some?
    ensures var j1 := FileListStdOutLine(job, lines[0].text, ps, format);
            && j1.stdout == job.stdout && j1.payload.Some? && j1.fileListProgress.Some?
            && j1.payload.value + ParsedItems(lines[1..], ps, format) == job.payload.value + ParsedItems(lines, ps, format)
            && j1.fileListProgress.value.current + FileCount(ParsedItems(lines[1..], ps, format))
               == job.fileListProgress.value.current + FileCount(ParsedItems(lines, ps, format))
            && j1.fileListProgress.value == job.fileListProgress.value.(current := j1.fileListProgress.value.current)
  {
    var l := lines[0];
    var j1 := FileListStdOutLine(job, l.text, ps, format);
    var rest := ParsedItems(lines[1..], ps, format);
    var item := Displayed(ps.item(l.text).value, format);
    assert ParsedItems(lines, ps, format) == [item] + rest;
    assert FileCount([item] + rest) == (if item.kind == Some("-") then 1 else 0) + FileCount(rest) by {
      FileCountSingle([item], rest);
      assert [item][1..] == [];
    }
    assert (job.payload.value + [item]) + rest == job.payload.value + ([item] + rest);
  }

  /** Any other line leaves the items and the counter as they were. */
  lemma StepFileListSkip(job: Job, lines: seq<OutputLine>, ps: Parsers, format: DateFormat)
    requires Live(job) && lines != [] && job.fileListProgress.Some?
    requires !(lines[0].StdOut? && ps.item(lines[0].text).Some?)
    ensures var j1 := HandleLine(job, lines[0], ps, format);
            && j1.stdout == job.stdout && j1.payload == job.payload && j1.fileListProgress == job.fileListProgress
            && ParsedItems(lines[1..], ps, format) == ParsedItems(lines, ps, format)
  {
    var l := lines[0];
    var j1 := HandleLine(job, l, ps, format);
    if l.StdErr? {
      assert j1 == BorgStdErrLine(job, l.text, ps);
    } else {
      assert j1 == FileListStdOutLine(job, l.text, ps, format);
    }
  }

  /** Every stdout line decodes to a file system item. */
  predicate StdOutDecodes(lines: seq<OutputLine>, ps: Parsers) {
    forall i :: 0 <= i < |lines| && lines[i].StdOut? ==> ps.item(lines[i].text).Some?
  }

  /** The pumps' effect with the file-listing handler as written: the
      handler's exception on an undecodable stdout line ends the stdout
      pump, which drops every later stdout line (`stopped`); the stderr
      pump runs on. For an ordinary job nothing differs. */
  function ProcessLinesAsWritten(job: Job, lines: seq<OutputLine>, ps: Parsers, format: DateFormat, stopped: bool): (r: Job)
    requires Live(job)
    ensures Live(r) && (r.fileListProgress.Some? <==> job.fileListProgress.Some?)
    ensures r.stderr.value == job.stderr.value + Lines(ErrorTexts(lines, ps))
    ensures !stopped && (job.fileListProgress.None? || StdOutDecodes(lines, ps)) ==> r == ProcessLines(job, lines, ps, format)
    decreases |lines|
  {
    if lines == [] then
      assert job.stderr.value + Lines([]) == job.stderr.value;
      job
    else
      var l := lines[0];
      assert StdOutDecodes(lines, ps) ==> StdOutDecodes(lines[1..], ps) by {
        if StdOutDecodes(lines, ps) {
          forall i | 0 <= i < |lines[1..]| && lines[1..][i].StdOut? ensures ps.item(lines[1..][i].text).Some? {
            assert lines[1..][i] == lines[i + 1];
          }
        }
      }
      StepStdErr(job, lines, ps, format);
      if l.StdOut? && job.fileListProgress.Some? && (stopped || ps.item(l.text).None?) then
        assert ErrorTexts(lines, ps) == [] + ErrorTexts(lines[1..], ps);
        ProcessLinesAsWritten(job, lines[1..], ps, format, true)
      else
        ProcessLinesAsWritten(HandleLine(job, l, ps, format), lines[1..], ps, format, stopped)
  }

  /** An undecodable listing line ends the listing as written: an item on a
      later line is lost, while the corrected handler skips the bad line and
      keeps the item. */
  lemma PumpStopsAtUndecodable(job: Job, bad: string, good: string, ps: Parsers, format: DateFormat)
    requires Live(job) && job.fileListProgress.Some?
    requires ps.item(bad).None? && ps.item(good).Some?
    ensures ProcessLinesAsWritten(job, [StdOut(bad), StdOut(good)], ps, format, false).payload == job.payload
    ensures ProcessLines(job, [StdOut(bad), StdOut(good)], ps, format).payload
            == Some(job.payload.value + [Displayed(ps.item(good).value, format)])
  {
    var lines := [StdOut(bad), StdOut(good)];
    var item := Displayed(ps.item(good).value, format);
    assert lines[1..] == [StdOut(good)] && [StdOut(good)][1..] == [];
    assert ProcessLinesAsWritten(job, lines, ps, format, false) == ProcessLinesAsWritten(job, [StdOut(good)], ps, format, true);
    assert ProcessLinesAsWritten(job, [StdOut(good)], ps, format, true) == ProcessLinesAsWritten(job, [], ps, format, true);
    assert ParsedItems([StdOut(good)], ps, format) == [item] + ParsedItems([], ps, format);
    assert ParsedItems(lines, ps, format) == [] + ParsedItems([StdOut(good)], ps, format);
    var r := ProcessLines(job, lines, ps, format);
    assert r.payload.value == job.payload.value + [item];
  }

  /** What BorgJob.getEnvironment yields: no environment of its own (the
      process inherits the server's), the variables to run with, or the
      variable the environment utility rejects (an exception inside
      execute, which turns the run into an ERROR). */
  datatype Environment = Inherit | Variables(vars: map<string, string>) | Rejected(variable: string)

  /** The placeholder a configured variable may use for the user's name. */
  const UserPlaceholder: string := "$USER"

  /** A configured variable with every "$USER" replaced by the user's name. */
  function SubstituteUser(variable: string, userName: string): string {
    ReplaceAll(variable, UserPlaceholder, userName)
  }

  /** A blank variable holds no placeholder, so substitution keeps it blank. */
  lemma BlankHasNoPlaceholder(variable: string, userName: string)
    ensures IsBlank(variable) ==> SubstituteUser(variable, userName) == variable
  {
    if !IsBlank(variable) { return; }
    forall i ensures !OccursAt(variable, UserPlaceholder, i) {
      if 0 <= i <= |variable| - |UserPlaceholder| {
        assert !IsWhitespace(UserPlaceholder[0]);
        assert variable[i..i + |UserPlaceholder|][0] == variable[i];
      }
    }
    ReplaceAllAbsent(variable, UserPlaceholder, userName);
  }

  /** The configured variables after substitution, in order. */
  function Substituted(variables: seq<string>, userName: string): (r: seq<string>)
    ensures |r| == |variables|
  {
    if variables == [] then [] else [SubstituteUser(variables[0], userName)] + Substituted(variables[1..], userName)
  }

  /** A variable the environment utility takes: blank (skipped) or holding
      an '='. */
  predicate Accepted(variable: string) {
    IsBlank(variable) || '=' in variable
  }

  /** The position of the last variable that sets `name`, if any. */
  function LastSetter(vs: seq<string>, name: string): (r: Option<nat>)
    ensures r.Some? ==> r.value < |vs| && SetsName(vs[r.value], name)
                        && forall j :: r.value < j < |vs| ==> !SetsName(vs[j], name)
    ensures r.None? ==> forall j :: 0 <= j < |vs| ==> !SetsName(vs[j], name)
    decreases |vs|
  {
    if vs == [] then None
    else
      var rest := LastSetter(vs[1..], name);
      assert forall j :: 1 <= j < |vs| ==> vs[j] == vs[1..][j - 1];
      match rest
      case Some(i) => Some(i + 1)
      case None => if SetsName(vs[0], name) then Some(0) else None
  }

  /** `vars` is `env` with the variables `vs` applied in order: every name
      of `env` or set by some variable is there; a name no variable sets
      keeps its value from `env`; a name some variable sets has the value
      the last such variable gives it. */
  ghost predicate Assigns(env: map<string, string>, vs: seq<string>, vars: map<string, string>) {
    && (forall k :: k in env || LastSetter(vs, k).Some? ==> k in vars)
    && (forall k :: k in vars && LastSetter(vs, k).None? ==> k in env && vars[k] == env[k])
    && (forall k :: k in vars && LastSetter(vs, k).Some? ==> k + "=" + vars[k] == vs[LastSetter(vs, k).value])
  }

  /** Applying one more variable in front: what `env'` (the map after the
      first variable) becomes under the rest is what `env` becomes under
      all of them. */
  lemma AssignsStep(env: map<string, string>, v: string, rest: seq<string>, vars: map<string, string>)
    requires Accepted(v)
    requires Assigns(AddEnvironmentVariable(env, v).value, rest, vars)
    ensures Assigns(env, [v] + rest, vars)
  {
    if IsBlank(v) {
      AssignsStepBlank(env, v, rest, vars);
    } else {
      AssignsStepSetter(env, v, rest, vars);
    }
  }

  /** A blank variable sets no name, so it changes nothing. */
  lemma AssignsStepBlank(env: map<string, string>, v: string, rest: seq<string>, vars: map<string, string>)
    requires IsBlank(v)
    requires Assigns(AddEnvironmentVariable(env, v).value, rest, vars)
    ensures Assigns(env, [v] + rest, vars)
  {
    var vs := [v] + rest;
    assert vs[1..] == rest && vs[0] == v;
    forall k ensures !SetsName(v, k) {
      if SetsName(v, k) { SetterIsNotBlank(v, k); }
    }
    assert AddEnvironmentVariable(env, v).value == env;
  }

  /** A variable that sets `name` either is overridden by a later setter or
      is the last setter of `name`. */
  lemma AssignsStepSetter(env: map<string, string>, v: string, rest: seq<string>, vars: map<string, string>)
    requires !IsBlank(v) && '=' in v
    requires Assigns(AddEnvironmentVariable(env, v).value, rest, vars)
    ensures Assigns(env, [v] + rest, vars)
  {
    var env' := AddEnvironmentVariable(env, v).value;
    var name :| SetsName(v, name) && name in env' && name + "=" + env'[name] == v && env' == env[name := env'[name]];
    var vs := [v] + rest;
    forall k | k in env || LastSetter(vs, k).Some? ensures k in vars {
      LastSetterCons(v, rest, k);
      if SetsName(v, k) { SetsNameUnique(v, k, name); }
    }
    forall k | k in vars && LastSetter(vs, k).None? ensures k in env && vars[k] == env[k] {
      LastSetterCons(v, rest, k);
    }
    forall k | k in vars && LastSetter(vs, k).Some? ensures k + "=" + vars[k] == vs[LastSetter(vs, k).value] {
      LastSetterCons(v, rest, k);
      if LastSetter(rest, k).None? { SetsNameUnique(v, k, name); }
    }
  }

  /** The last setter among `[v] + rest`: one in `rest`, or else `v`. */
  lemma LastSetterCons(v: string, rest: seq<string>, k: string)
    ensures LastSetter([v] + rest, k)
            == (if LastSetter(rest, k).Some? then Some(LastSetter(rest, k).value + 1)
                else if SetsName(v, k) then Some(0) else None)
    ensures LastSetter(rest, k).Some? ==> ([v] + rest)[LastSetter(rest, k).value + 1] == rest[LastSetter(rest, k).value]
  {
    assert ([v] + rest)[1..] == rest;
  }

  /** Adds the configured variables one by one, after substitution. */
  function AddVariables(env: map<string, string>, variables: seq<string>, userName: string): (r: Environment)
    ensures !r.Inherit?
    ensures (forall i :: 0 <= i < |variables| ==> IsBlank(variables[i])) ==> r == Variables(env)
    ensures r.Variables? <==> forall i :: 0 <= i < |variables| ==> Accepted(SubstituteUser(variables[i], userName))
    ensures r.Variables? ==> Assigns(env, Substituted(variables, userName), r.vars)
    ensures r.Rejected? ==> FirstRejected(variables, userName, r.variable)
    decreases |variables|
  {
    if variables == [] then
      assert Assigns(env, [], env);
      Variables(env)
    else
      var v := SubstituteUser(variables[0], userName);
      BlankHasNoPlaceholder(variables[0], userName);
      match AddEnvironmentVariable(env, v)
      case None => Rejected(v)
      case Some(env') =>
        var r := AddVariables(env', variables[1..], userName);
        AddVariablesStep(env, variables, userName, r);
        r
  }

  /** The first rejected variable among `variables`, after substitution. */
  ghost predicate FirstRejected(variables: seq<string>, userName: string, variable: string) {
    exists i :: 0 <= i < |variables| && variable == SubstituteUser(variables[i], userName)
                && !Accepted(variable)
                && forall j :: 0 <= j < i ==> Accepted(SubstituteUser(variables[j], userName))
  }

  /** What the rest of the variables make of the map after the first one
      is what all of them make of the map before it. */
  lemma AddVariablesStep(env: map<string, string>, variables: seq<string>, userName: string, r: Environment)
    requires variables != [] && Accepted(SubstituteUser(variables[0], userName))
    requires r.Variables? ==>
               Assigns(AddEnvironmentVariable(env, SubstituteUser(variables[0], userName)).value,
                       Substituted(variables[1..], userName), r.vars)
    requires r.Rejected? ==> FirstRejected(variables[1..], userName, r.variable)
    ensures r.Variables? ==> Assigns(env, Substituted(variables, userName), r.vars)
    ensures r.Rejected? ==> FirstRejected(variables, userName, r.variable)
  {
    var v := SubstituteUser(variables[0], userName);
    if r.Variables? {
      assert Substituted(variables, userName) == [v] + Substituted(variables[1..], userName);
      AssignsStep(env, v, Substituted(variables[1..], userName), r.vars);
    }
    if r.Rejected? {
      var i :| 0 <= i < |variables[1..]| && r.variable == SubstituteUser(variables[1..][i], userName)
               && !Accepted(r.variable)
               && forall j :: 0 <= j < i ==> Accepted(SubstituteUser(variables[1..][j], userName));
      assert r.variable == SubstituteUser(variables[i + 1], userName);
      assert forall j :: 0 <= j < i + 1 ==> Accepted(SubstituteUser(variables[j], userName)) by {
        forall j | 0 <= j < i + 1 ensures Accepted(SubstituteUser(variables[j], userName)) {
          if j > 0 { assert variables[j] == variables[1..][j - 1]; }
        }
      }
    }
  }

  /** BorgJob.getEnvironment: without a repository configuration the
      process inherits the environment; otherwise the process environment
      plus the repository's variables, with "$USER" standing for the user's
      name. */
  function GetEnvironment(cmd: BorgCommand, procEnv: map<string, string>, userName: string): (r: Environment)
    ensures r.Inherit? <==> cmd.repoConfig.None?
    ensures r.Variables? ==> Assigns(procEnv, Substituted(cmd.repoConfig.value.environment, userName), r.vars)
    ensures r.Rejected? ==> FirstRejected(cmd.repoConfig.value.environment, userName, r.variable)
    ensures cmd.repoConfig.Some? &&
            (forall i :: 0 <= i < |cmd.repoConfig.value.environment| ==> IsBlank(cmd.repoConfig.value.environment[i])) ==>
              r == Variables(procEnv)
  {
    match cmd.repoConfig
    case None => Inherit
    case Some(rc) => AddVariables(procEnv, rc.environment, userName)
  }

  lemma {:induction false} AddVariablesIgnoresUser(env: map<string, string>, variables: seq<string>, u1: string, u2: string)
    requires forall i, k :: 0 <= i < |variables| ==> !OccursAt(variables[i], UserPlaceholder, k)
    ensures AddVariables(env, variables, u1) == AddVariables(env, variables, u2)
    decreases |variables|
  {
    if variables != [] {
      assert forall k :: !OccursAt(variables[0], UserPlaceholder, k);
      ReplaceAllAbsent(variables[0], UserPlaceholder, u1);
      ReplaceAllAbsent(variables[0], UserPlaceholder, u2);
      var v := variables[0];
      match AddEnvironmentVariable(env, v)
      case None =>
      case Some(env') =>
        assert forall i, k :: 0 <= i < |variables[1..]| ==> !OccursAt(variables[1..][i], UserPlaceholder, k) by {
          forall i, k | 0 <= i < |variables[1..]| ensures !OccursAt(variables[1..][i], UserPlaceholder, k) {
            assert variables[1..][i] == variables[i + 1];
          }
        }
        AddVariablesIgnoresUser(env', variables[1..], u1, u2);
    }
  }

  /** The user's name matters only to variables that use the placeholder. */
  lemma EnvironmentIgnoresUserWithoutPlaceholder(cmd: BorgCommand, procEnv: map<string, string>, u1: string, u2: string)
    requires cmd.repoConfig.Some?
    requires forall i, k :: 0 <= i < |cmd.repoConfig.value.environment| ==>
               !OccursAt(cmd.repoConfig.value.environment[i], UserPlaceholder, k)
    ensures GetEnvironment(cmd, procEnv, u1) == GetEnvironment(cmd, procEnv, u2)
  {
    AddVariablesIgnoresUser(procEnv, cmd.repoConfig.value.environment, u1, u2);
  }

  /** AbstractCommandLineJob.execute as BorgJob runs it. Without a command
      line there is no result. Otherwise the job is marked started, the
      environment is built, the process runs with its output lines fed to
      the handlers, and the result carries OK exactly when the process
      completed, with the stdout buffer as its text; on ERROR the job is
      marked failed. `process` is the executor; a rejected environment
      variable makes the run fail before the process starts. */
  function Execute(job: Job, borgCommand: Option<string>, procEnv: map<string, string>, userName: string,
                   process: (CommandLine, Option<map<string, string>>) -> ProcessRun, ps: Parsers,
                   format: DateFormat): (r: (Job, Option<JobResult>))
    requires Live(job)
    ensures Live(r.0) && (r.0.fileListProgress.Some? <==> job.fileListProgress.Some?)
    ensures var (j, id) := CommandLineAsString(job, borgCommand);
            && (r.1.None? <==> id.None?)
            && (r.1.None? ==> r.0 == j)
    ensures r.1.Some? ==>
              && r.0.executeStarted && r.0.stdout.Some?
              && r.1.value.resultObject == r.0.stdout.value
              && r.1.value.errorString.None?
              && (r.1.value.status == OK ==> r.0.status == job.status)
              && (r.1.value.status == ERROR ==> r.0.status == Failed)
              && r.0.commandLineString == CommandLineAsString(job, borgCommand).1
    ensures r.1.Some? ==>
              var j := CommandLineAsString(job, borgCommand).0;
              var env := if j.command.Some? then GetEnvironment(j.command.value, procEnv, userName) else Inherit;
              && (env.Rejected? ==> r.1.value.status == ERROR && r.0.stdout == job.stdout && r.0.stderr == job.stderr)
              && (!env.Rejected? ==>
                    var run := process(j.commandLine.value, if env.Variables? then Some(env.vars) else None);
                    && (r.1.value.status == OK <==> run.completed)
                    && r.0.stderr.Some? && r.0.stderr.value == job.stderr.value + Lines(ErrorTexts(run.lines, ps))
                    && (job.fileListProgress.None? ==> r.1.value.resultObject == job.stdout.value + Lines(StdOutTexts(run.lines)))
                    && (job.fileListProgress.Some? ==> r.1.value.resultObject == job.stdout.value
                                                       && r.0.payload.Some? && r.0.payload.value == job.payload.value + ParsedItems(run.lines, ps, format)))
  {
    var (j, id) := CommandLineAsString(job, borgCommand);
    if id.None? then (j, None)
    else
      var j := j.(executeStarted := true);
      var env := if j.command.Some? then GetEnvironment(j.command.value, procEnv, userName) else Inherit;
      if env.Rejected? then
        (j.(status := Failed), Some(JobResult(ERROR, j.stdout.value, None)))
      else
        var run := process(j.commandLine.value, if env.Variables? then Some(env.vars) else None);
        var j := ProcessLines(j, run.lines, ps, format);
        if run.completed then (j, Some(JobResult(OK, j.stdout.value, None)))
        else (j.(status := Failed), Some(JobResult(ERROR, j.stdout.value, None)))
  }

  /** BorgJob.clone: a light copy for display. It keeps the id, the status
      flags, the timestamps and the progress; its command keeps only the
      repository configuration; it has fresh buffers and no payload. Asking
      the original for its id may build and cache its command line. */
  function Clone(job: Job, borgCommand: Option<string>): (r: (Job, Job))
    ensures r.0 == CommandLineAsString(job, borgCommand).0
    ensures r.1.commandLineString == CommandLineAsString(job, borgCommand).1 && r.1.commandLine.None?
    ensures r.1.command.Some? <==> job.command.Some?
    ensures job.command.Some? ==> r.1.command == Some(EmptyCommand.(repoConfig := job.command.value.repoConfig))
    ensures && r.1.status == job.status && r.1.uniqueJobNumber == job.uniqueJobNumber && r.1.title == job.title
            && r.1.executeStarted == job.executeStarted && r.1.cancellationRequested == job.cancellationRequested
            && r.1.workingDirectory == job.workingDirectory && r.1.description == job.description
            && r.1.progress == job.progress && r.1.createTime == job.createTime
            && r.1.startTime == job.startTime && r.1.stopTime == job.stopTime
    ensures Live(r.1) && r.1.stdout == Some([]) && r.1.stderr == Some([]) && r.1.payload.None?
  {
    var (orig, id) := CommandLineAsString(job, borgCommand);
    var cmd := if job.command.Some? then Some(EmptyCommand.(repoConfig := job.command.value.repoConfig)) else None;
    var copy := Job(cmd, None, id, Some([]), Some([]), job.status, job.cancellationRequested, job.executeStarted,
                    job.uniqueJobNumber, job.title, job.createTime, job.startTime, job.stopTime,
                    job.workingDirectory, job.description, job.progress, None, None);
    (orig, copy)
  }

  /** The clone answers with the original's id even though its own command
      would build a different command line: the copied id string is used as
      long as the clone can build some command line at all. */
  lemma CloneKeepsId(job: Job, borgCommand: Option<string>, later: Option<string>)
    requires job.command.Some? && CommandLineAsString(job, borgCommand).1.Some?
    requires later.Some? && !IsBlank(later.value)
    ensures CommandLineAsString(Clone(job, borgCommand).1, later).1 == CommandLineAsString(job, borgCommand).1
  {
    var copy := Clone(job, borgCommand).1;
    assert BuildCommandLine(copy.command, later).Some?;
  }

  /** BorgJob.cleanUp: the buffers and the payload are released; the job
      can take no more output, and its id and progress stay. */
  function CleanUp(job: Job): (r: Job)
    ensures !Live(r) && r.stdout.None? && r.stderr.None? && r.payload.None?
    ensures r.progress == job.progress && r.status == job.status
    ensures forall b :: CommandLineAsString(r, b).1 == CommandLineAsString(job, b).1
  {
    job.(stdout := None, stderr := None, payload := None)
  }
}
