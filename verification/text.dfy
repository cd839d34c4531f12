/**
  The string helpers the job layer relies on: whitespace and blankness as
  Java's Character.isWhitespace and commons-lang's StringUtils define them,
  whitespace tokenising (StringUtils.split), joining (StringUtils.join),
  literal replacement (String.replace), case-insensitive search
  (StringUtils.containsIgnoreCase) and middle abbreviation
  (StringUtils.abbreviateMiddle).
*/
module Text {

  /** Character.isWhitespace: the ASCII controls 9-13 and 28-31, and the
      Unicode space, line and paragraph separators except the no-break ones. */
  predicate IsWhitespace(c: char) {
    || c == ' '
    || '\t' <= c <= '\r'
    || '\U{1C}' <= c <= '\U{1F}'
    || c == '\U{1680}'
    || '\U{2000}' <= c <= '\U{2006}'
    || '\U{2008}' <= c <= '\U{200A}'
    || c == '\U{2028}' || c == '\U{2029}' || c == '\U{205F}' || c == '\U{3000}'
  }

  /** StringUtils.isBlank for a non-null string: empty or whitespace only. */
  predicate IsBlank(s: string) {
    forall i :: 0 <= i < |s| ==> IsWhitespace(s[i])
  }

  predicate NoWhitespace(s: string) {
    forall i :: 0 <= i < |s| ==> !IsWhitespace(s[i])
  }

  predicate IsDigit(c: char) {
    '0' <= c <= '9'
  }

  function ToLower(c: char): char {
    if 'A' <= c <= 'Z' then (c as int + 32) as char else c
  }

  predicate EqualsIgnoreCase(a: string, b: string) {
    |a| == |b| && forall i :: 0 <= i < |a| ==> ToLower(a[i]) == ToLower(b[i])
  }

  /** StringUtils.startsWith for non-null arguments. */
  predicate StartsWith(s: string, prefix: string) {
    |prefix| <= |s| && s[..|prefix|] == prefix
  }

  /** `search` occurs in `s` at index `i`, ignoring letter case. */
  predicate MatchesAtIgnoreCase(s: string, search: string, i: int) {
    0 <= i <= |s| - |search| && EqualsIgnoreCase(s[i..i + |search|], search)
  }

  /** StringUtils.containsIgnoreCase for non-null arguments. */
  predicate ContainsIgnoreCase(s: string, search: string) {
    exists i :: 0 <= i <= |s| - |search| && MatchesAtIgnoreCase(s, search, i)
  }

  /** A string that mentions "borg" in any letter case holds a character
      that is not whitespace. */
  lemma ContainsBorgIsNotBlank(s: string)
    requires ContainsIgnoreCase(s, "borg")
    ensures !IsBlank(s)
  {
    var borg := "borg";
    assert |borg| == 4 && borg[0] == 'b';
    var i :| 0 <= i <= |s| - 4 && MatchesAtIgnoreCase(s, borg, i);
    var window := s[i..i + 4];
    assert ToLower(window[0]) == ToLower(borg[0]);
    assert window[0] == s[i];
    assert !IsWhitespace(s[i]);
  }

  /** Index of the first occurrence of `c` in `s`, or -1 (String.indexOf). */
  function IndexOf(s: string, c: char): (i: int)
    ensures -1 <= i < |s|
    ensures i == -1 <==> c !in s
    ensures i >= 0 ==> s[i] == c && c !in s[..i]
  {
    if s == [] then -1
    else if s[0] == c then 0
    else
      var j := IndexOf(s[1..], c);
      assert s == [s[0]] + s[1..];
      if j == -1 then -1 else j + 1
  }

  // ---------------------------------------------------------------------
  // Whitespace tokenising (StringUtils.split(String))
  // ---------------------------------------------------------------------

  /** The longest prefix of `s` that holds no whitespace. */
  function Word(s: string): (w: string)
    ensures w <= s
    ensures NoWhitespace(w)
    ensures |w| < |s| ==> IsWhitespace(s[|w|])
  {
    if s == [] || IsWhitespace(s[0]) then [] else [s[0]] + Word(s[1..])
  }

  /** The maximal runs of non-whitespace characters of `s`, in order;
      adjacent separators yield no empty tokens. */
  function Tokens(s: string): (ts: seq<string>)
    ensures forall k :: 0 <= k < |ts| ==> ts[k] != [] && NoWhitespace(ts[k])
    decreases |s|
  {
    if s == [] then []
    else if IsWhitespace(s[0]) then Tokens(s[1..])
    else
      var w := Word(s);
      [w] + Tokens(s[|w|..])
  }

  lemma {:induction false} TokensEmptyIffBlank(s: string)
    ensures Tokens(s) == [] <==> IsBlank(s)
    decreases |s|
  {
    if s == [] {
    } else if IsWhitespace(s[0]) {
      TokensEmptyIffBlank(s[1..]);
      assert IsBlank(s) <==> IsBlank(s[1..]) by {
        if IsBlank(s[1..]) {
          forall i | 0 <= i < |s| ensures IsWhitespace(s[i]) {
            if i > 0 { assert s[i] == s[1..][i - 1]; }
          }
        }
      }
    } else {
      assert !IsWhitespace(s[0]);
    }
  }

  /** `t` is the last token of `s`: it is a non-empty run without
      whitespace, it starts at the beginning of `s` or right after
      whitespace, and nothing but whitespace follows it. */
  ghost predicate IsLastToken(s: string, t: string) {
    && t != []
    && NoWhitespace(t)
    && exists k :: LastTokenAt(s, t, k)
  }

  /** `t` occurs in `s` at index `k`, after the start or whitespace, and
      only whitespace follows it. */
  ghost predicate LastTokenAt(s: string, t: string, k: int) {
    && 0 <= k <= |s| - |t|
    && s[k..k + |t|] == t
    && (k == 0 || IsWhitespace(s[k - 1]))
    && IsBlank(s[k + |t|..])
  }

  lemma LastTokenAfterSpace(s: string, t: string, k: int)
    requires s != [] && IsWhitespace(s[0])
    requires LastTokenAt(s[1..], t, k)
    ensures LastTokenAt(s, t, k + 1)
  {
    var s' := s[1..];
    assert s[k + 1..k + 1 + |t|] == s'[k..k + |t|];
    assert s[k + 1 + |t|..] == s'[k + |t|..];
    if k > 0 { assert s[k] == s'[k - 1]; }
  }

  lemma LastTokenAfterWord(w: string, rest: string, t: string, k: int)
    requires rest != [] && IsWhitespace(rest[0])
    requires t != [] && !IsWhitespace(t[0])
    requires LastTokenAt(rest, t, k)
    ensures LastTokenAt(w + rest, t, |w| + k)
  {
    var s := w + rest;
    assert k > 0;
    var k' := |w| + k;
    assert s[k'..k' + |t|] == rest[k..k + |t|];
    assert s[k' - 1] == rest[k - 1];
    assert s[k' + |t|..] == rest[k + |t|..];
  }

  /** A string has at most one last token. */
  lemma LastTokenUnique(s: string, t1: string, t2: string)
    requires IsLastToken(s, t1) && IsLastToken(s, t2)
    ensures t1 == t2
  {
    var k1 :| LastTokenAt(s, t1, k1);
    var k2 :| LastTokenAt(s, t2, k2);
    LastTokenEnds(s, t1, k1, t2, k2);
    LastTokenEnds(s, t2, k2, t1, k1);
    LastTokenStarts(s, t1, k1, t2, k2);
    LastTokenStarts(s, t2, k2, t1, k1);
  }

  /** A last token cannot end before another one does. */
  lemma LastTokenEnds(s: string, t1: string, k1: int, t2: string, k2: int)
    requires LastTokenAt(s, t1, k1) && t2 != [] && NoWhitespace(t2) && LastTokenAt(s, t2, k2)
    ensures k2 + |t2| <= k1 + |t1|
  {
    var e1 := k1 + |t1|;
    var e := k2 + |t2| - 1;
    assert s[e] == t2[|t2| - 1];
    assert forall j :: e1 <= j < |s| ==> IsWhitespace(s[j]) by {
      forall j | e1 <= j < |s| ensures IsWhitespace(s[j]) {
        assert s[j] == s[e1..][j - e1];
      }
    }
  }

  /** Of two last tokens with the same end, the one of `t1` starts no
      later. */
  lemma LastTokenStarts(s: string, t1: string, k1: int, t2: string, k2: int)
    requires LastTokenAt(s, t1, k1) && LastTokenAt(s, t2, k2) && NoWhitespace(t2)
    requires k1 + |t1| == k2 + |t2|
    ensures k1 <= k2
  {
    assert forall j :: k2 <= j < k2 + |t2| ==> !IsWhitespace(s[j]) by {
      forall j | k2 <= j < k2 + |t2| ensures !IsWhitespace(s[j]) {
        assert s[j] == t2[j - k2];
      }
    }
    assert k1 == 0 || IsWhitespace(s[k1 - 1]);
  }

  /** The last element of the whitespace split of a non-blank string is its
      last token. */
  lemma {:induction false} LastOfTokens(s: string)
    requires !IsBlank(s)
    ensures Tokens(s) != []
    ensures IsLastToken(s, Tokens(s)[|Tokens(s)| - 1])
    decreases |s|
  {
    TokensEmptyIffBlank(s);
    var ts := Tokens(s);
    var t := ts[|ts| - 1];
    if IsWhitespace(s[0]) {
      var s' := s[1..];
      NotBlankAfterSpace(s);
      LastOfTokens(s');
      var k :| LastTokenAt(s', t, k);
      LastTokenAfterSpace(s, t, k);
    } else {
      var w := Word(s);
      var rest := s[|w|..];
      assert ts == [w] + Tokens(rest);
      if IsBlank(rest) {
        TokensEmptyIffBlank(rest);
        assert t == w;
        SoleWordIsLastToken(s);
      } else {
        LastOfTokens(rest);
        var k :| LastTokenAt(rest, t, k);
        assert s == w + rest;
        LastTokenAfterWord(w, rest, t, k);
      }
    }
  }

  /** Dropping leading whitespace keeps a string non-blank. */
  lemma NotBlankAfterSpace(s: string)
    requires !IsBlank(s) && IsWhitespace(s[0])
    ensures !IsBlank(s[1..])
  {
    var i :| 0 <= i < |s| && !IsWhitespace(s[i]);
    assert s[1..][i - 1] == s[i];
  }

  /** A string that is one word followed by whitespace has that word as its
      last token. */
  lemma SoleWordIsLastToken(s: string)
    requires s != [] && !IsWhitespace(s[0]) && IsBlank(s[|Word(s)|..])
    ensures LastTokenAt(s, Word(s), 0)
  {
    var w := Word(s);
    assert s[0..|w|] == w;
  }

  // ---------------------------------------------------------------------
  // Joining, splitting and literal replacement
  // ---------------------------------------------------------------------

  /** StringUtils.join: the parts with `sep` between consecutive ones. */
  function Join(parts: seq<string>, sep: string): string {
    if |parts| == 0 then []
    else if |parts| == 1 then parts[0]
    else parts[0] + sep + Join(parts[1..], sep)
  }

  /** The pieces of `s` between the non-overlapping occurrences of `sep`,
      found left to right; always at least one piece. */
  function Split(s: string, sep: string): (parts: seq<string>)
    requires sep != []
    ensures |parts| >= 1
    decreases |s|
  {
    if |s| < |sep| then [s]
    else if s[..|sep|] == sep then [[]] + Split(s[|sep|..], sep)
    else
      var rest := Split(s[1..], sep);
      [[s[0]] + rest[0]] + rest[1..]
  }

  /** String.replace(CharSequence, CharSequence) for a non-empty target:
      each non-overlapping occurrence, found left to right, is replaced. */
  function ReplaceAll(s: string, target: string, replacement: string): string
    requires target != []
    decreases |s|
  {
    if |s| < |target| then s
    else if s[..|target|] == target then replacement + ReplaceAll(s[|target|..], target, replacement)
    else [s[0]] + ReplaceAll(s[1..], target, replacement)
  }

  lemma JoinExtendFirst(c: char, parts: seq<string>, sep: string)
    requires |parts| >= 1
    ensures Join([[c] + parts[0]] + parts[1..], sep) == [c] + Join(parts, sep)
  {
    var ps := [[c] + parts[0]] + parts[1..];
    if |parts| > 1 {
      assert ps[1..] == parts[1..];
    }
  }

  /** Replacing every occurrence is the same as splitting at the occurrences
      and joining the pieces with the replacement. */
  lemma {:induction false} ReplaceAllIsJoinOfSplit(s: string, target: string, replacement: string)
    requires target != []
    ensures ReplaceAll(s, target, replacement) == Join(Split(s, target), replacement)
    decreases |s|
  {
    if |s| < |target| {
    } else if s[..|target|] == target {
      var rest := Split(s[|target|..], target);
      ReplaceAllIsJoinOfSplit(s[|target|..], target, replacement);
      assert ([[]] + rest)[1..] == rest;
    } else {
      var rest := Split(s[1..], target);
      ReplaceAllIsJoinOfSplit(s[1..], target, replacement);
      JoinExtendFirst(s[0], rest, replacement);
    }
  }

  /** Replacing a target by itself changes nothing. */
  lemma {:induction false} ReplaceAllBySelf(s: string, target: string)
    requires target != []
    ensures ReplaceAll(s, target, target) == s
    decreases |s|
  {
    if |s| < |target| {
    } else if s[..|target|] == target {
      ReplaceAllBySelf(s[|target|..], target);
      assert s == s[..|target|] + s[|target|..];
    } else {
      ReplaceAllBySelf(s[1..], target);
      assert s == [s[0]] + s[1..];
    }
  }

  /** `target` occurs in `s` at index `i`. */
  predicate OccursAt(s: string, target: string, i: int) {
    0 <= i <= |s| - |target| && s[i..i + |target|] == target
  }

  /** A string without the target is left unchanged by the replacement. */
  lemma {:induction false} ReplaceAllAbsent(s: string, target: string, replacement: string)
    requires target != []
    requires forall i :: !OccursAt(s, target, i)
    ensures ReplaceAll(s, target, replacement) == s
    decreases |s|
  {
    if |s| < |target| {
    } else {
      assert !OccursAt(s, target, 0);
      forall i ensures !OccursAt(s[1..], target, i) {
        assert !OccursAt(s, target, i + 1);
        if 0 <= i <= |s[1..]| - |target| {
          assert s[1..][i..i + |target|] == s[i + 1..i + 1 + |target|];
        }
      }
      ReplaceAllAbsent(s[1..], target, replacement);
      assert s == [s[0]] + s[1..];
    }
  }

  /** Joining the split pieces with the separator restores the string. */
  lemma JoinOfSplit(s: string, sep: string)
    requires sep != []
    ensures Join(Split(s, sep), sep) == s
  {
    ReplaceAllIsJoinOfSplit(s, sep, sep);
    ReplaceAllBySelf(s, sep);
  }

  lemma {:induction false} SplitOfFree(a: string, sep: string)
    requires |sep| == 1 && sep[0] !in a
    ensures Split(a, sep) == [a]
    decreases |a|
  {
    if a != [] {
      assert a[..1] != sep by { assert a[..1][0] == a[0]; }
      SplitOfFree(a[1..], sep);
      assert a == [a[0]] + a[1..];
    }
  }

  lemma {:induction false} SplitAfterFree(a: string, sep: string, b: string)
    requires |sep| == 1 && sep[0] !in a
    ensures Split(a + sep + b, sep) == [a] + Split(b, sep)
    decreases |a|
  {
    var s := a + sep + b;
    if a == [] {
      assert s[..1] == sep;
      assert s[1..] == b;
    } else {
      assert s[..1] != sep by { assert s[..1][0] == a[0]; }
      assert s[1..] == a[1..] + sep + b;
      SplitAfterFree(a[1..], sep, b);
      assert a == [a[0]] + a[1..];
    }
  }

  /** Splitting a join at a one-character separator that no part contains
      restores the parts: nothing is dropped, merged or reordered. */
  lemma {:induction false} SplitOfJoin(parts: seq<string>, sep: string)
    requires |sep| == 1 && |parts| >= 1
    requires forall k :: 0 <= k < |parts| ==> sep[0] !in parts[k]
    ensures Split(Join(parts, sep), sep) == parts
    decreases |parts|
  {
    if |parts| == 1 {
      SplitOfFree(parts[0], sep);
    } else {
      SplitOfJoin(parts[1..], sep);
      SplitAfterFree(parts[0], sep, Join(parts[1..], sep));
    }
  }

  // ---------------------------------------------------------------------
  // Middle abbreviation (StringUtils.abbreviateMiddle)
  // ---------------------------------------------------------------------

  /** Shortens `s` to `length` characters by replacing its middle with
      `middle`, keeping a head that is as long as the tail or one longer.
      Strings that fit, an empty marker and a length too small to keep one
      character at each end leave `s` unchanged. */
  function AbbreviateMiddle(s: string, middle: string, length: int): (r: string)
    ensures s == [] || middle == [] || length >= |s| || length < |middle| + 2 ==> r == s
    ensures s != [] && middle != [] && |middle| + 2 <= length < |s| ==>
      var tail := (length - |middle|) / 2;
      var head := length - |middle| - tail;
      && |r| == length
      && 1 <= tail <= head <= tail + 1
      && r[..head] == s[..head]
      && r[head..head + |middle|] == middle
      && r[head + |middle|..] == s[|s| - tail..]
  {
    if s == [] || middle == [] || length >= |s| || length < |middle| + 2 then s
    else
      var target := length - |middle|;
      var startOffset := target / 2 + target % 2;
      var endOffset := |s| - target / 2;
      s[..startOffset] + middle + s[endOffset..]
  }

  /** A middle abbreviation never exceeds a budget that leaves room for the
      marker and one character at each end, and it keeps the first and the
      last character of the original. */
  lemma AbbreviateMiddleKeepsEnds(s: string, middle: string, length: int)
    requires middle != [] && length >= |middle| + 2
    ensures |AbbreviateMiddle(s, middle, length)| <= length
    ensures s != [] ==> AbbreviateMiddle(s, middle, length)[0] == s[0]
    ensures s != [] ==> var r := AbbreviateMiddle(s, middle, length);
                        r[|r| - 1] == s[|s| - 1]
  {
    if s != [] && length < |s| {
      var r := AbbreviateMiddle(s, middle, length);
      var tail := (length - |middle|) / 2;
      var head := length - |middle| - tail;
      var prefix := r[..head];
      assert prefix == s[..head];
      assert r[0] == prefix[0] == s[0];
      var suffix := r[head + |middle|..];
      assert suffix == s[|s| - tail..];
      assert r[|r| - 1] == suffix[tail - 1] == s[|s| - 1];
    }
  }
}
