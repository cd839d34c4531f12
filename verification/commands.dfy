/**
  A borg invocation as the core describes it (BorgCommand), the argument
  vector BorgJob.buildCommandLine builds from it, and the flattened
  command-line string that serves as the job's identity.
*/
module Commands {
  import opened Wrappers
  import opened Text
  import opened Data

  /** A borg command: repository, subcommand, flags, archive and trailing
      arguments; every list and every entry of a list may be null. */
  datatype BorgCommand = BorgCommand(
    repoConfig: Option<RepoConfig>,
    command: Option<string>,
    params: Option<seq<Option<string>>>,
    archive: Option<string>,
    args: Option<seq<Option<string>>>,
    workingDir: Option<string>,
    description: Option<string>)

  /** A command with nothing set (`new BorgCommand()`). */
  const EmptyCommand: BorgCommand := BorgCommand(None, None, None, None, None, None, None)

  /** BorgCommand.getRepoArchive: the repository, followed by "::" and the
      archive name when an archive is set; null without a repository. */
  function RepoArchive(c: BorgCommand): Option<string> {
    match c.repoConfig
    case None => None
    case Some(rc) => if c.archive.None? then Some(rc.repo) else Some(rc.repo + "::" + c.archive.value)
  }

  /** An executable and its argument vector (commons-exec CommandLine). */
  datatype CommandLine = CommandLine(executable: string, arguments: seq<string>)

  /** The present entries of a list, in order. */
  function Compact(xs: seq<Option<string>>): (r: seq<string>)
    ensures |r| <= |xs|
    ensures forall i :: 0 <= i < |r| ==> Some(r[i]) in xs
    ensures forall i :: 0 <= i < |xs| && xs[i].Some? ==> xs[i].value in r
  {
    if xs == [] then []
    else
      var rest := Compact(xs[1..]);
      assert forall i :: 1 <= i < |xs| ==> xs[i] == xs[1..][i - 1];
      if xs[0].Some? then [xs[0].value] + rest else rest
  }

  /** Compacting distributes over concatenation, so the present entries keep
      their relative order. */
  lemma {:induction false} CompactAppend(xs: seq<Option<string>>, ys: seq<Option<string>>)
    ensures Compact(xs + ys) == Compact(xs) + Compact(ys)
    decreases |xs|
  {
    if xs != [] {
      assert (xs + ys)[0] == xs[0];
      assert (xs + ys)[1..] == xs[1..] + ys;
      CompactAppend(xs[1..], ys);
      assert Compact(xs + ys) == OptionalArgument(xs[0]) + Compact(xs[1..] + ys);
      assert Compact(xs) == OptionalArgument(xs[0]) + Compact(xs[1..]);
    } else {
      assert xs + ys == ys;
    }
  }

  /** A list without null entries is kept whole. */
  lemma {:induction false} CompactAllPresent(xs: seq<Option<string>>)
    requires forall i :: 0 <= i < |xs| ==> xs[i].Some?
    ensures |Compact(xs)| == |xs|
    ensures forall i :: 0 <= i < |xs| ==> Compact(xs)[i] == xs[i].value
    decreases |xs|
  {
    if xs != [] {
      CompactAllPresent(xs[1..]);
    }
  }

  /** CommandLine.addArgument: a null argument is ignored. */
  function AddArgument(cl: CommandLine, arg: Option<string>): CommandLine {
    if arg.Some? then cl.(arguments := cl.arguments + [arg.value]) else cl
  }

  /** Adds every entry of a possibly null list, skipping null entries. */
  function AddArguments(cl: CommandLine, xs: Option<seq<Option<string>>>): (r: CommandLine)
    ensures r.executable == cl.executable
    ensures r.arguments == cl.arguments + (if xs.Some? then Compact(xs.value) else [])
  {
    if xs.None? then cl else AddEach(cl, xs.value)
  }

  function AddEach(cl: CommandLine, xs: seq<Option<string>>): (r: CommandLine)
    ensures r.executable == cl.executable
    ensures r.arguments == cl.arguments + Compact(xs)
    decreases |xs|
  {
    if xs == [] then cl
    else
      var c1 := AddArgument(cl, xs[0]);
      assert c1.arguments == cl.arguments + OptionalArgument(xs[0]);
      assert Compact(xs) == OptionalArgument(xs[0]) + Compact(xs[1..]);
      AddEach(c1, xs[1..])
  }

  /** The present entries of an optional list. */
  function CompactOpt(xs: Option<seq<Option<string>>>): seq<string> {
    if xs.Some? then Compact(xs.value) else []
  }

  /** The argument at most one present value contributes. */
  function OptionalArgument(x: Option<string>): seq<string> {
    if x.Some? then [x.value] else []
  }

  /** BorgJob.buildCommandLine: no command line without a command or with a
      blank borg executable; otherwise the subcommand, the flags, the
      repository (with archive) and the trailing arguments, in that order,
      null entries left out. */
  function BuildCommandLine(cmd: Option<BorgCommand>, borgCommand: Option<string>): (r: Option<CommandLine>)
    ensures r.None? <==> cmd.None? || borgCommand.None? || IsBlank(borgCommand.value)
    ensures r.Some? ==> r.value.executable == borgCommand.value
    ensures r.Some? ==>
      r.value.arguments == OptionalArgument(cmd.value.command) + CompactOpt(cmd.value.params)
                           + OptionalArgument(RepoArchive(cmd.value)) + CompactOpt(cmd.value.args)
  {
    if cmd.None? then None
    else if borgCommand.None? || IsBlank(borgCommand.value) then None
    else
      var c := cmd.value;
      var cl1 := AddArgument(CommandLine(borgCommand.value, []), c.command);
      assert cl1.arguments == OptionalArgument(c.command);
      var cl2 := AddArguments(cl1, c.params);
      assert cl2.arguments == cl1.arguments + CompactOpt(c.params);
      var cl3 := AddArgument(cl2, RepoArchive(c));
      assert cl3.arguments == cl2.arguments + OptionalArgument(RepoArchive(c));
      var cl4 := AddArguments(cl3, c.args);
      assert cl4.arguments == cl3.arguments + CompactOpt(c.args);
      Some(cl4)
  }

  // ---------------------------------------------------------------------
  // commons-exec's handling of the executable and the arguments
  // ---------------------------------------------------------------------

  /** String.trim, first half: drops the characters up to U+0020 at the
      start. */
  function TrimStart(s: string): (r: string)
    ensures |r| <= |s| && r == s[|s| - |r|..]
    ensures r != [] ==> r[0] > ' '
    decreases |s|
  {
    if s != [] && s[0] <= ' ' then TrimStart(s[1..]) else s
  }

  /** String.trim, second half: drops the characters up to U+0020 at the
      end. */
  function TrimEnd(s: string): (r: string)
    ensures |r| <= |s| && r == s[..|r|]
    ensures r != [] ==> r[|r| - 1] > ' '
    decreases |s|
  {
    if s != [] && s[|s| - 1] <= ' ' then TrimEnd(s[..|s| - 1]) else s
  }

  predicate IsQuote(c: char) {
    c == '"' || c == '\''
  }

  function StripLeadingQuotes(s: string): (r: string)
    ensures |r| <= |s| && r == s[|s| - |r|..]
    ensures r != [] ==> !IsQuote(r[0])
    decreases |s|
  {
    if s != [] && IsQuote(s[0]) then StripLeadingQuotes(s[1..]) else s
  }

  function StripTrailingQuotes(s: string): (r: string)
    ensures |r| <= |s| && r == s[..|r|]
    ensures r != [] ==> !IsQuote(r[|r| - 1])
    decreases |s|
  {
    if s != [] && IsQuote(s[|s| - 1]) then StripTrailingQuotes(s[..|s| - 1]) else s
  }

  /** What the trims and strips drop is exactly blanks and quotes: only
      characters up to U+0020 before and after the trimmed text, only
      quote characters before and after the stripped one. */
  lemma {:induction false} TrimStartDropsBlanks(s: string)
    ensures forall k :: 0 <= k < |s| - |TrimStart(s)| ==> s[k] <= ' '
    decreases |s|
  {
    if s != [] && s[0] <= ' ' {
      TrimStartDropsBlanks(s[1..]);
      forall k | 0 <= k < |s| - |TrimStart(s)| ensures s[k] <= ' ' {
        if k > 0 { assert s[k] == s[1..][k - 1]; }
      }
    }
  }

  lemma {:induction false} TrimEndDropsBlanks(s: string)
    ensures forall k :: |TrimEnd(s)| <= k < |s| ==> s[k] <= ' '
    decreases |s|
  {
    if s != [] && s[|s| - 1] <= ' ' {
      TrimEndDropsBlanks(s[..|s| - 1]);
      forall k | |TrimEnd(s)| <= k < |s| ensures s[k] <= ' ' {
        if k < |s| - 1 { assert s[k] == s[..|s| - 1][k]; }
      }
    }
  }

  lemma {:induction false} StripLeadingDropsQuotes(s: string)
    ensures forall k :: 0 <= k < |s| - |StripLeadingQuotes(s)| ==> IsQuote(s[k])
    decreases |s|
  {
    if s != [] && IsQuote(s[0]) {
      StripLeadingDropsQuotes(s[1..]);
      forall k | 0 <= k < |s| - |StripLeadingQuotes(s)| ensures IsQuote(s[k]) {
        if k > 0 { assert s[k] == s[1..][k - 1]; }
      }
    }
  }

  lemma {:induction false} StripTrailingDropsQuotes(s: string)
    ensures forall k :: |StripTrailingQuotes(s)| <= k < |s| ==> IsQuote(s[k])
    decreases |s|
  {
    if s != [] && IsQuote(s[|s| - 1]) {
      StripTrailingDropsQuotes(s[..|s| - 1]);
      forall k | |StripTrailingQuotes(s)| <= k < |s| ensures IsQuote(s[k]) {
        if k < |s| - 1 { assert s[k] == s[..|s| - 1][k]; }
      }
    }
  }

  /** The text StringUtils.quoteArgument works on: the argument trimmed,
      then stripped of quote characters at the start and then at the end. */
  function CleanArgument(arg: string): (r: string)
    ensures |r| <= |arg|
    ensures r != [] ==> !IsQuote(r[0]) && !IsQuote(r[|r| - 1])
  {
    var s := StripLeadingQuotes(TrimEnd(TrimStart(arg)));
    var r := StripTrailingQuotes(s);
    assert r != [] ==> r[0] == s[0];
    r
  }

  /** An argument commons-exec accepts: addArgument throws an
      IllegalArgumentException for one that, once cleaned, holds both a
      single and a double quote. */
  predicate Quotable(arg: string) {
    var c := CleanArgument(arg);
    !('"' in c && '\'' in c)
  }

  /** StringUtils.quoteArgument on a cleaned argument: one holding a double
      quote is wrapped in single quotes, one holding a single quote or a
      space in double quotes, and any other is left bare. (For an argument
      holding both quote kinds the value is immaterial: it never gets this
      far.) */
  function QuoteCleaned(c: string): string {
    if '"' in c then "'" + c + "'"
    else if '\'' in c || ' ' in c then "\"" + c + "\""
    else c
  }

  function QuoteArgument(arg: string): string {
    QuoteCleaned(CleanArgument(arg))
  }

  /** CommandLine.getArguments: every argument as quoteArgument renders it. */
  function QuotedArguments(args: seq<string>): (r: seq<string>)
    ensures |r| == |args|
  {
    if args == [] then [] else [QuoteArgument(args[0])] + QuotedArguments(args[1..])
  }

  /** CommandLine.getExecutable on a system whose file separator is '/':
      every backslash of the configured executable reads as a slash. */
  function FixSeparators(exe: string): (r: string)
    ensures |r| == |exe| && forall i :: 0 <= i < |exe| ==> r[i] == (if exe[i] == '\\' then '/' else exe[i])
  {
    seq(|exe|, i requires 0 <= i < |exe| => if exe[i] == '\\' then '/' else exe[i])
  }

  /** The flattened command line of AbstractCommandLineJob: the executable
      and the quoted arguments, separated by single spaces. It is the job's
      id. */
  function CommandLineString(cl: CommandLine): string {
    FixSeparators(cl.executable) + " " + Join(QuotedArguments(cl.arguments), " ")
  }

  /** Every argument trimmed and stripped of its outer quotes. */
  function CleanArguments(args: seq<string>): (r: seq<string>)
    ensures |r| == |args|
  {
    if args == [] then [] else [CleanArgument(args[0])] + CleanArguments(args[1..])
  }

  /** The quoted form of an argument depends only on its cleaned form. */
  lemma {:induction false} SameCleanSameQuoted(a: seq<string>, b: seq<string>)
    requires CleanArguments(a) == CleanArguments(b)
    ensures QuotedArguments(a) == QuotedArguments(b)
    decreases |a|
  {
    if a != [] {
      assert CleanArgument(a[0]) == CleanArguments(a)[0] == CleanArgument(b[0]);
      assert CleanArguments(a[1..]) == CleanArguments(a)[1..] == CleanArguments(b[1..]);
      SameCleanSameQuoted(a[1..], b[1..]);
    }
  }

  /** What of a command line its flattened string can show: the executable
      as commons-exec renders it, and the cleaned arguments. */
  function Normalized(cl: CommandLine): CommandLine {
    CommandLine(FixSeparators(cl.executable), CleanArguments(cl.arguments))
  }

  // ---------------------------------------------------------------------
  // Reading a flattened command line back
  // ---------------------------------------------------------------------

  /** Reads one argument off the front of a flattened argument list: a
      quoted one runs to the next occurrence of its quote, a bare one to
      the next space. Gives the argument without its quotes and the text
      after the space that follows it. */
  function NextArgument(s: string): (r: (string, string))
    requires s != []
    ensures |r.1| < |s|
  {
    if IsQuote(s[0]) then
      var j := IndexOf(s[1..], s[0]);
      if j < 0 then (s[1..], [])
      else if j + 3 <= |s| then (s[1..1 + j], s[j + 3..])
      else (s[1..1 + j], [])
    else
      var j := IndexOf(s, ' ');
      if j < 0 then (s, []) else (s[..j], s[j + 1..])
  }

  function ParseArguments(s: string): seq<string>
    decreases |s|
  {
    if s == [] then []
    else
      var (a, rest) := NextArgument(s);
      [a] + ParseArguments(rest)
  }

  /** Reads a flattened command line back: the executable up to the first
      space, then the arguments. */
  function ParseCommandLine(s: string): CommandLine {
    var i := IndexOf(s, ' ');
    if i < 0 then CommandLine(s, []) else CommandLine(s[..i], ParseArguments(s[i + 1..]))
  }

  /** No space in the executable; every argument is accepted by
      commons-exec and is not empty once cleaned. */
  predicate WellFormed(cl: CommandLine) {
    ' ' !in cl.executable && Acceptable(cl.arguments)
  }

  /** The first occurrence of `c` in `a + [c] + b` ends `a` when `a` does
      not hold `c`. */
  lemma IndexOfAfterFree(a: string, c: char, b: string)
    requires c !in a
    ensures IndexOf(a + [c] + b, c) == |a|
  {
    var s := a + [c] + b;
    assert s[|a|] == c && s[..|a|] == a;
  }

  /** A quoted argument is read back as its cleaned text, whatever follows
      the space after it. */
  lemma NextOfQuoted(c: string, tail: string)
    requires c != [] && !('"' in c && '\'' in c)
    ensures NextArgument(QuoteCleaned(c) + " " + tail) == (c, tail)
  {
    var s := QuoteCleaned(c) + " " + tail;
    if '"' in c || '\'' in c || ' ' in c {
      var quote := if '"' in c then '\'' else '"';
      assert QuoteCleaned(c) == [quote] + c + [quote];
      assert quote !in c;
      assert s[1..] == c + [quote] + (" " + tail);
      IndexOfAfterFree(c, quote, " " + tail);
      assert s[1..1 + |c|] == c;
      assert s[|c| + 3..] == tail;
    } else {
      assert s == c + [' '] + tail;
      IndexOfAfterFree(c, ' ', tail);
      assert !IsQuote(s[0]) by { assert s[0] == c[0]; }
      assert s[..|c|] == c;
      assert s[|c| + 1..] == tail;
    }
  }

  /** The last quoted argument is read back as its cleaned text. */
  lemma NextOfLastQuoted(c: string)
    requires c != [] && !('"' in c && '\'' in c)
    ensures NextArgument(QuoteCleaned(c)) == (c, [])
  {
    var s := QuoteCleaned(c);
    if '"' in c || '\'' in c || ' ' in c {
      var quote := if '"' in c then '\'' else '"';
      assert s == [quote] + c + [quote];
      assert quote !in c;
      assert s[1..] == c + [quote] + [];
      IndexOfAfterFree(c, quote, []);
      assert s[1..1 + |c|] == c;
    } else {
      assert !IsQuote(s[0]) by { assert s[0] == c[0]; }
      assert ' ' !in s;
    }
  }

  /** The head of a joined list of quoted arguments reads back as the
      first cleaned argument, followed by the join of the others. */
  lemma NextOfJoin(args: seq<string>)
    requires args != [] && CleanArgument(args[0]) != [] && Quotable(args[0])
    ensures Join(QuotedArguments(args), " ") != []
    ensures NextArgument(Join(QuotedArguments(args), " "))
         == (CleanArgument(args[0]), Join(QuotedArguments(args[1..]), " "))
  {
    var c := CleanArgument(args[0]);
    var s := Join(QuotedArguments(args), " ");
    var t := Join(QuotedArguments(args[1..]), " ");
    if args[1..] == [] {
      assert s == QuoteCleaned(c);
      NextOfLastQuoted(c);
    } else {
      assert s == QuoteCleaned(c) + " " + t;
      NextOfQuoted(c, t);
    }
  }

  /** Every argument is accepted by commons-exec and is not empty once
      cleaned. */
  predicate Acceptable(args: seq<string>) {
    forall i :: 0 <= i < |args| ==> CleanArgument(args[i]) != [] && Quotable(args[i])
  }

  /** Reading back the join of quoted arguments gives the cleaned
      arguments, one for one and in order. */
  lemma {:induction false} ParseOfJoin(args: seq<string>)
    requires Acceptable(args)
    ensures ParseArguments(Join(QuotedArguments(args), " ")) == CleanArguments(args)
    decreases |args|
  {
    if args != [] {
      var s := Join(QuotedArguments(args), " ");
      var t := Join(QuotedArguments(args[1..]), " ");
      NextOfJoin(args);
      assert Acceptable(args[1..]) by {
        forall i | 0 <= i < |args| - 1 ensures CleanArgument(args[1..][i]) != [] && Quotable(args[1..][i]) {
          assert args[1..][i] == args[i + 1];
        }
      }
      ParseOfJoin(args[1..]);
      assert ParseArguments(s) == [CleanArgument(args[0])] + ParseArguments(t);
    }
  }

  /** The executable is read back up to the first space. */
  lemma ParseAfterExecutable(exe: string, tail: string)
    requires ' ' !in exe
    ensures ParseCommandLine(exe + " " + tail) == CommandLine(exe, ParseArguments(tail))
  {
    var s := exe + " " + tail;
    IndexOfAfterFree(exe, ' ', tail);
    assert s[..|exe|] == exe && s[|exe| + 1..] == tail;
  }

  /** Rendering the executable brings in no space. */
  lemma FixSeparatorsAddsNoSpace(exe: string)
    requires ' ' !in exe
    ensures ' ' !in FixSeparators(exe)
  {
    var r := FixSeparators(exe);
    forall i | 0 <= i < |r| ensures r[i] != ' ' {
      assert exe[i] != ' ';
    }
  }

  /** The flattened string of a well-formed command line reads back as the
      command line it shows: the rendered executable and the cleaned
      arguments. */
  lemma CommandLineRoundTrip(cl: CommandLine)
    requires WellFormed(cl)
    ensures ParseCommandLine(CommandLineString(cl)) == Normalized(cl)
  {
    FixSeparatorsAddsNoSpace(cl.executable);
    ParseAfterExecutable(FixSeparators(cl.executable), Join(QuotedArguments(cl.arguments), " "));
    ParseOfJoin(cl.arguments);
  }

  /** Two well-formed command lines have the same id exactly when they show
      the same executable and the same cleaned arguments: duplicate
      detection by id merges command lines that differ only in outer
      quotes or surrounding blanks of an argument, and nothing else. */
  lemma SameIdIffSameCommandLine(a: CommandLine, b: CommandLine)
    requires WellFormed(a) && WellFormed(b)
    ensures CommandLineString(a) == CommandLineString(b) <==> Normalized(a) == Normalized(b)
  {
    if Normalized(a) == Normalized(b) {
      SameCleanSameQuoted(a.arguments, b.arguments);
    }
    if CommandLineString(a) == CommandLineString(b) {
      CommandLineRoundTrip(a);
      CommandLineRoundTrip(b);
    }
  }

  /** A text with no blank at either end is its own trimmed form. */
  lemma TrimOfUnblank(s: string)
    requires s != [] && s[0] > ' ' && s[|s| - 1] > ' '
    ensures TrimEnd(TrimStart(s)) == s
  {
  }

  /** A text with no quote at either end is its own stripped form. */
  lemma StripOfUnquoted(s: string)
    requires s != [] && !IsQuote(s[0]) && !IsQuote(s[|s| - 1])
    ensures StripTrailingQuotes(StripLeadingQuotes(s)) == s
  {
  }

  /** An argument with no blank and no quote at either end is its own
      cleaned form. */
  lemma CleanOfPlain(s: string)
    requires s != [] && s[0] > ' ' && s[|s| - 1] > ' ' && !IsQuote(s[0]) && !IsQuote(s[|s| - 1])
    ensures CleanArgument(s) == s
  {
    TrimOfUnblank(s);
    StripOfUnquoted(s);
  }

  /** One step of each quote strip: a quote at the end is dropped, and a
      text without one there is left alone. */
  lemma StripLeadingStep(s: string)
    requires s != []
    ensures StripLeadingQuotes(s) == if IsQuote(s[0]) then StripLeadingQuotes(s[1..]) else s
  {
  }

  lemma StripTrailingStep(s: string)
    requires s != []
    ensures StripTrailingQuotes(s) == if IsQuote(s[|s| - 1]) then StripTrailingQuotes(s[..|s| - 1]) else s
  {
  }

  /** The quote strips take off one pair of outer double quotes. */
  lemma StripOfQuoted(s: string)
    requires s != [] && !IsQuote(s[0]) && !IsQuote(s[|s| - 1])
    ensures StripTrailingQuotes(StripLeadingQuotes(['"'] + s + ['"'])) == s
  {
    var q := ['"'] + s + ['"'];
    var u := s + ['"'];
    assert q[0] == '"' && q[1..] == u;
    StripLeadingStep(q);
    assert u[0] == s[0];
    StripLeadingStep(u);
    assert u[|u| - 1] == '"' && u[..|u| - 1] == s;
    StripTrailingStep(u);
    StripTrailingStep(s);
  }

  /** Cleaning an already trimmed text only strips its quotes. */
  lemma CleanOfTrimmed(q: string)
    requires TrimEnd(TrimStart(q)) == q
    ensures CleanArgument(q) == StripTrailingQuotes(StripLeadingQuotes(q))
  {
  }

  /** Outer double quotes around such an argument are stripped. */
  lemma CleanOfQuoted(s: string)
    requires s != [] && s[0] > ' ' && s[|s| - 1] > ' ' && !IsQuote(s[0]) && !IsQuote(s[|s| - 1])
    ensures CleanArgument(['"'] + s + ['"']) == s
  {
    var q := ['"'] + s + ['"'];
    TrimOfUnblank(q);
    CleanOfTrimmed(q);
    StripOfQuoted(s);
  }

  /** A single argument is rendered on its own. */
  lemma CommandLineOfOne(exe: string, arg: string)
    ensures CommandLineString(CommandLine(exe, [arg])) == FixSeparators(exe) + " " + QuoteArgument(arg)
  {
    assert QuotedArguments([arg]) == [QuoteArgument(arg)];
  }

  /** An argument in outer quotes and the bare argument give the same id,
      though the command lines differ. */
  lemma OuterQuotesShareId()
    ensures CommandLine("borg", ["\"abc\""]) != CommandLine("borg", ["abc"])
    ensures CommandLineString(CommandLine("borg", ["\"abc\""])) == CommandLineString(CommandLine("borg", ["abc"]))
  {
    CleanOfPlain("abc");
    assert "\"abc\"" == ['"'] + "abc" + ['"'];
    CleanOfQuoted("abc");
    CommandLineOfOne("borg", "\"abc\"");
    CommandLineOfOne("borg", "abc");
  }
}
