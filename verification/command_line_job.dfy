/**
  AbstractCommandLineJob: a job that runs one external command line. The
  process itself is not modelled; what is modelled is the state the job
  keeps around it (cached command line and id, the stdout and stderr
  buffers) and the pure decisions it takes (error abbreviation, environment
  variables, releasing the buffers).
*/
module CommandLineJob {
  import opened Wrappers
  import opened Text
  import opened BorgJson
  import opened Commands

  /** AbstractJob.Status: the life cycle of a job. */
  datatype JobStatus = Created | Queued | Running | Done | Failed | Cancelled

  datatype ResultStatus = OK | ERROR

  /** JobResult: status, the stdout text, and (set by callers on ERROR) an
      abbreviated error text. */
  datatype JobResult = JobResult(status: ResultStatus, resultObject: string, errorString: Option<string>)

  /** One line the process printed, on stdout or on stderr. */
  datatype OutputLine = StdOut(text: string) | StdErr(text: string)

  /** What running a command line produced: its output lines in arrival
      order, and whether it terminated normally (false for a launch failure
      or a non-zero exit, which the executor reports as an exception). */
  datatype ProcessRun = ProcessRun(lines: seq<OutputLine>, completed: bool)

  /** A job. The first block is AbstractCommandLineJob's and AbstractJob's
      state; `progress`, `payload` and `fileListProgress` belong to BorgJob
      (`fileListProgress` is the counter of a file-listing job and is None
      for every other job). A null buffer is None. */
  datatype Job = Job(
    command: Option<BorgCommand>,
    commandLine: Option<CommandLine>,
    commandLineString: Option<string>,
    stdout: Option<string>,
    stderr: Option<string>,
    status: JobStatus,
    cancellationRequested: bool,
    executeStarted: bool,
    uniqueJobNumber: int,
    title: Option<string>,
    createTime: Option<string>,
    startTime: Option<string>,
    stopTime: Option<string>,
    workingDirectory: Option<string>,
    description: Option<string>,
    progress: Option<ProgressInfo>,
    payload: Option<seq<FilesystemItem>>,
    fileListProgress: Option<ProgressInfo>)

  /** getCommandLineAsString (and getId, which returns it): the command line
      is built on first use, flattened once, and both are kept on the job;
      null when no command line can be built. */
  function CommandLineAsString(job: Job, borgCommand: Option<string>): (r: (Job, Option<string>))
    ensures r.1.None? <==> job.commandLine.None? && BuildCommandLine(job.command, borgCommand).None?
    ensures job.commandLine.None? && job.commandLineString.None? && r.1.Some? ==>
              r.1.value == CommandLineString(BuildCommandLine(job.command, borgCommand).value)
    ensures job.commandLineString.Some? && r.1.Some? ==> r.1 == job.commandLineString
    ensures r.1.Some? ==> r.0.commandLine.Some? && r.0.commandLineString == r.1
    ensures r.0 == job.(commandLine := r.0.commandLine, commandLineString := r.0.commandLineString)
  {
    var cl := if job.commandLine.Some? then job.commandLine else BuildCommandLine(job.command, borgCommand);
    if cl.None? then (job, None)
    else
      var s := if job.commandLineString.Some? then job.commandLineString.value else CommandLineString(cl.value);
      (job.(commandLine := cl, commandLineString := Some(s)), Some(s))
  }

  /** The id is computed once: once a job has one, asking again, even under
      a different borg executable, returns the same id and changes nothing. */
  lemma IdIsStable(job: Job, borgCommand: Option<string>, later: Option<string>)
    requires CommandLineAsString(job, borgCommand).1.Some?
    ensures var (j, id) := CommandLineAsString(job, borgCommand);
            CommandLineAsString(j, later) == (j, id)
  {
  }

  /** Two fresh jobs have the same id exactly when their command lines,
      provided they are well formed, show the same executable and cleaned
      arguments. */
  lemma FreshJobsShareIdIffSameCommandLine(a: Job, b: Job, borgCommand: Option<string>)
    requires a.commandLine.None? && a.commandLineString.None?
    requires b.commandLine.None? && b.commandLineString.None?
    requires BuildCommandLine(a.command, borgCommand).Some? && WellFormed(BuildCommandLine(a.command, borgCommand).value)
    requires BuildCommandLine(b.command, borgCommand).Some? && WellFormed(BuildCommandLine(b.command, borgCommand).value)
    ensures CommandLineAsString(a, borgCommand).1 == CommandLineAsString(b, borgCommand).1
            <==> Normalized(BuildCommandLine(a.command, borgCommand).value) == Normalized(BuildCommandLine(b.command, borgCommand).value)
  {
    SameIdIffSameCommandLine(BuildCommandLine(a.command, borgCommand).value, BuildCommandLine(b.command, borgCommand).value);
  }

  /** Every line followed by a newline, concatenated. */
  function Lines(ls: seq<string>): string {
    if ls == [] then [] else ls[0] + "\n" + Lines(ls[1..])
  }

  lemma {:induction false} LinesAppend(a: seq<string>, b: seq<string>)
    ensures Lines(a + b) == Lines(a) + Lines(b)
    decreases |a|
  {
    if a == [] {
      assert a + b == b;
    } else {
      assert (a + b)[0] == a[0];
      assert (a + b)[1..] == a[1..] + b;
      LinesAppend(a[1..], b);
    }
  }

  /** The buffer text is the lines joined by newlines, with a final one. */
  lemma {:induction false} LinesIsJoin(ls: seq<string>)
    ensures Lines(ls) == Join(ls + [[]], "\n")
    decreases |ls|
  {
    if ls != [] {
      LinesIsJoin(ls[1..]);
      assert (ls + [[]])[1..] == ls[1..] + [[]];
    }
  }

  /** A buffer keeps every line, in order: splitting it at newlines gives
      the lines back, followed by the empty text after the last newline. */
  lemma BufferKeepsLines(ls: seq<string>)
    requires forall i :: 0 <= i < |ls| ==> '\n' !in ls[i]
    ensures Split(Lines(ls), "\n") == ls + [[]]
  {
    LinesIsJoin(ls);
    var parts := ls + [[]];
    assert forall k :: 0 <= k < |parts| ==> "\n"[0] !in parts[k] by {
      forall k | 0 <= k < |parts| ensures "\n"[0] !in parts[k] {
        if k < |ls| { assert parts[k] == ls[k]; }
      }
    }
    SplitOfJoin(parts, "\n");
  }

  /** processStdOutLine: the line and a newline go to the stdout buffer. */
  function ProcessStdOutLine(job: Job, line: string): (r: Job)
    requires job.stdout.Some?
    ensures r == job.(stdout := Some(job.stdout.value + Lines([line])))
  {
    assert Lines([line]) == line + "\n" by {
      assert [line][1..] == [];
      assert Lines([line]) == line + "\n" + Lines([]);
    }
    assert job.stdout.value + line + "\n" == job.stdout.value + (line + "\n");
    job.(stdout := Some(job.stdout.value + line + "\n"))
  }

  /** processStdErrLine: the line and a newline go to the stderr buffer. */
  function ProcessStdErrLine(job: Job, line: string): (r: Job)
    requires job.stderr.Some?
    ensures r == job.(stderr := Some(job.stderr.value + Lines([line])))
  {
    assert Lines([line]) == line + "\n" by {
      assert [line][1..] == [];
      assert Lines([line]) == line + "\n" + Lines([]);
    }
    assert job.stderr.value + line + "\n" == job.stderr.value + (line + "\n");
    job.(stderr := Some(job.stderr.value + line + "\n"))
  }

  /** The marker put in place of the middle of an over-long error text. */
  const ErrorMarker: string := "\n    [... ***** error log abbreviated ***** ...]\n"

  /** getErrorString: the stderr text, abbreviated in the middle to at most
      `maxLength` characters. A text that fits is returned unchanged; a
      longer one keeps a head and a tail of the original around the marker. */
  function GetErrorString(job: Job, maxLength: int): (r: string)
    requires job.stderr.Some?
    ensures |job.stderr.value| <= maxLength ==> r == job.stderr.value
    ensures maxLength < |ErrorMarker| + 2 ==> r == job.stderr.value
    ensures maxLength >= |ErrorMarker| + 2 ==> |r| <= maxLength
    ensures maxLength >= |ErrorMarker| + 2 && |job.stderr.value| > maxLength ==>
              var s := job.stderr.value;
              var tail := (maxLength - |ErrorMarker|) / 2;
              var head := maxLength - |ErrorMarker| - tail;
              && 1 <= tail <= head
              && r == s[..head] + ErrorMarker + s[|s| - tail..]
  {
    var s := job.stderr.value;
    var r := AbbreviateMiddle(s, ErrorMarker, maxLength);
    if maxLength >= |ErrorMarker| + 2 then
      AbbreviateMiddleKeepsEnds(s, ErrorMarker, maxLength);
      if |s| > maxLength then
        var tail := (maxLength - |ErrorMarker|) / 2;
        var head := maxLength - |ErrorMarker| - tail;
        assert r == r[..head] + r[head..head + |ErrorMarker|] + r[head + |ErrorMarker|..];
        r
      else r
    else r
  }

  /** `variable` has the form NAME=value with this `name`: the name holds
      no '=' and the first '=' of the variable follows it. */
  predicate SetsName(variable: string, name: string) {
    '=' !in name && |name| < |variable| && variable[..|name|] == name && variable[|name|] == '='
  }

  /** A variable names at most one variable. */
  lemma SetsNameUnique(variable: string, a: string, b: string)
    requires SetsName(variable, a) && SetsName(variable, b)
    ensures a == b
  {
  }

  /** A variable that sets a name is not blank. */
  lemma SetterIsNotBlank(variable: string, name: string)
    requires SetsName(variable, name)
    ensures !IsBlank(variable) && '=' in variable
  {
    assert variable[|name|] == '=' && !IsWhitespace('=');
  }

  /** addEnvironmentVariable(env, variable): a blank variable is ignored;
      otherwise "NAME=value" is split at its first '=' and NAME is set to
      value. A variable without '=' is rejected (None), as commons-exec
      throws on it. */
  function AddEnvironmentVariable(env: map<string, string>, variable: string): (r: Option<map<string, string>>)
    ensures IsBlank(variable) ==> r == Some(env)
    ensures r.None? <==> !IsBlank(variable) && '=' !in variable
    ensures r.Some? && !IsBlank(variable) ==>
              exists name :: SetsName(variable, name) && name in r.value && name + "=" + r.value[name] == variable
                             && r.value == env[name := r.value[name]]
  {
    if IsBlank(variable) then Some(env)
    else
      var i := IndexOf(variable, '=');
      if i < 0 then None
      else
        var name := variable[..i];
        var value := variable[i + 1..];
        assert name + "=" + value == variable;
        assert SetsName(variable, name);
        Some(env[name := value])
  }

  /** addEnvironmentVariable(env, name, value): a blank value is ignored;
      otherwise `name` is set to `value` (a name holding '=' is itself split
      at its first '=', as the one-argument form does). */
  function AddNamedEnvironmentVariable(env: map<string, string>, name: string, value: string): (r: map<string, string>)
    ensures IsBlank(value) ==> r == env
    ensures !IsBlank(value) && '=' !in name ==> r == env[name := value]
  {
    if IsBlank(value) then env
    else
      var variable := name + "=" + value;
      assert !IsBlank(variable) by {
        var i :| 0 <= i < |value| && !IsWhitespace(value[i]);
        assert variable[|name| + 1 + i] == value[i];
      }
      assert variable[|name|] == '=';
      var i := IndexOf(variable, '=');
      assert variable[..|name|] == name;
      assert '=' !in name ==> i == |name|;
      assert '=' !in name ==> variable[..i] == name && variable[i + 1..] == value;
      AddEnvironmentVariable(env, variable).value
  }
}
