/** The Option datatype used for Python's `None`-or-value results. */
module Wrappers {

  datatype Option<+T> = None | Some(value: T) {

    /** `value` when present, `default` otherwise (Python's `dict.get(key, default)`). */
    function GetOr(default: T): T
    {
      match this
      case Some(v) => v
      case None => default
    }
  }
}

/**
 * The few operations on Python `str` values that the bot relies on,
 * with Python's own semantics: `startswith`, `endswith`, `in`, `find`,
 * `strip`, `splitlines`, `join`, `split` and `replace`.
 */
module PyStr {
  import opened Wrappers

  /** The characters for which Python's `str.isspace()` holds: what `str.strip()` removes. */
  const Whitespace: set<char> := {
    '\t', '\n', '\U{B}', '\U{C}', '\r', '\U{1C}', '\U{1D}', '\U{1E}', '\U{1F}', ' ',
    '\U{85}', '\U{A0}', '\U{1680}',
    '\U{2000}', '\U{2001}', '\U{2002}', '\U{2003}', '\U{2004}', '\U{2005}',
    '\U{2006}', '\U{2007}', '\U{2008}', '\U{2009}', '\U{200A}',
    '\U{2028}', '\U{2029}', '\U{202F}', '\U{205F}', '\U{3000}'
  }

  /** The line boundaries of Python's `str.splitlines()` ("\r\n" also counts as one boundary). */
  const LineBreaks: set<char> := {
    '\n', '\r', '\U{B}', '\U{C}', '\U{1C}', '\U{1D}', '\U{1E}', '\U{85}', '\U{2028}', '\U{2029}'
  }

  predicate StartsWith(s: string, prefix: string)
  {
    |prefix| <= |s| && s[..|prefix|] == prefix
  }

  predicate EndsWith(s: string, suffix: string)
  {
    |suffix| <= |s| && s[|s| - |suffix|..] == suffix
  }

  /** `pat` occurs in `s` starting at index `k`. */
  predicate OccursAt(s: string, pat: string, k: nat)
  {
    k + |pat| <= |s| && s[k..k + |pat|] == pat
  }

  /** The first index at or after `from` where `pat` occurs in `s`. */
  function FindFrom(s: string, pat: string, from: nat): (r: Option<nat>)
    decreases |s| - from
    ensures r.Some? ==> from <= r.value && OccursAt(s, pat, r.value)
    ensures r.Some? ==> forall k: nat :: from <= k < r.value ==> !OccursAt(s, pat, k)
    ensures r.None? ==> forall k: nat :: from <= k ==> !OccursAt(s, pat, k)
  {
    if |s| < from + |pat| then None
    else if OccursAt(s, pat, from) then Some(from)
    else FindFrom(s, pat, from + 1)
  }

  /** Python's `s.find(pat)`, with `None` for -1. */
  function Find(s: string, pat: string): (r: Option<nat>)
    ensures r.Some? ==> OccursAt(s, pat, r.value)
    ensures r.Some? ==> forall k: nat :: k < r.value ==> !OccursAt(s, pat, k)
    ensures r.None? ==> forall k: nat :: !OccursAt(s, pat, k)
  {
    FindFrom(s, pat, 0)
  }

  /** Python's `pat in s`. */
  predicate Contains(s: string, pat: string)
  {
    Find(s, pat).Some?
  }

  /** Python's `s.lstrip(chars)`: drop the longest prefix made of `chars`. */
  function StripLeft(s: string, chars: set<char>): string
  {
    if s != [] && s[0] in chars then StripLeft(s[1..], chars) else s
  }

  /** Python's `s.rstrip(chars)`: drop the longest suffix made of `chars`. */
  function StripRight(s: string, chars: set<char>): string
  {
    if s != [] && s[|s| - 1] in chars then StripRight(s[..|s| - 1], chars) else s
  }

  /**
   * Python's `s.strip(chars)`. The characters are a SET: any mix of them is
   * removed at both ends, not a literal prefix or suffix.
   */
  function Strip(s: string, chars: set<char>): string
  {
    StripRight(StripLeft(s, chars), chars)
  }

  /** `lstrip` keeps a suffix, drops only characters to strip, and stops at one to keep. */
  lemma {:induction false} StripLeftFacts(s: string, chars: set<char>, r: string)
    requires r == StripLeft(s, chars)
    ensures |r| <= |s| && r == s[|s| - |r|..]
    ensures forall k :: 0 <= k < |s| - |r| ==> s[k] in chars
    ensures r != [] ==> r[0] !in chars
    decreases |s|
  {
    if s != [] && s[0] in chars {
      var rest := s[1..];
      StripLeftFacts(rest, chars, r);
      assert rest[|rest| - |r|..] == s[|s| - |r|..];
      forall k | 0 <= k < |s| - |r| ensures s[k] in chars {
        if k > 0 { assert s[k] == rest[k - 1]; }
      }
    }
  }

  /** `rstrip` keeps a prefix, drops only characters to strip, and stops at one to keep. */
  lemma {:induction false} StripRightFacts(s: string, chars: set<char>, r: string)
    requires r == StripRight(s, chars)
    ensures |r| <= |s| && r == s[..|r|]
    ensures forall k :: |r| <= k < |s| ==> s[k] in chars
    ensures r != [] ==> r[|r| - 1] !in chars
    decreases |s|
  {
    if s != [] && s[|s| - 1] in chars {
      var init := s[..|s| - 1];
      StripRightFacts(init, chars, r);
      assert init[..|r|] == s[..|r|];
      forall k | |r| <= k < |s| ensures s[k] in chars {
        if k < |s| - 1 { assert s[k] == init[k]; }
      }
    }
  }

  /** What stripping both ends leaves: no character to strip at either end, and nothing only when all are. */
  lemma StripBothEnds(s: string, chars: set<char>, left: string, r: string)
    requires left == StripLeft(s, chars) && r == StripRight(left, chars)
    ensures r != [] ==> r[0] !in chars && r[|r| - 1] !in chars
    ensures r == [] <==> forall k :: 0 <= k < |s| ==> s[k] in chars
  {
    StripLeftFacts(s, chars, left);
    StripRightFacts(left, chars, r);
    if r != [] {
      assert r[0] == left[0];
    }
    if left != [] {
      assert left[0] == s[|s| - |left|];
    }
  }

  /**
   * Stripping leaves no character to strip at either end, and leaves
   * nothing exactly when every character is one to strip.
   */
  lemma StripEnds(s: string, chars: set<char>)
    ensures Strip(s, chars) != [] ==> Strip(s, chars)[0] !in chars && Strip(s, chars)[|Strip(s, chars)| - 1] !in chars
    ensures Strip(s, chars) == [] <==> forall k :: 0 <= k < |s| ==> s[k] in chars
  {
    var left := StripLeft(s, chars);
    StripBothEnds(s, chars, left, StripRight(left, chars));
  }

  /** `s.startswith(prefix)` holds exactly when `s` is `prefix` followed by more text. */
  lemma StartsWithConcat(s: string, prefix: string)
    ensures StartsWith(s, prefix) <==> |prefix| <= |s| && s == prefix + s[|prefix|..]
  {
    if |prefix| <= |s| {
      assert s == s[..|prefix|] + s[|prefix|..];
      assert (prefix + s[|prefix|..])[..|prefix|] == prefix;
    }
  }

  /** `s.endswith(suffix)` holds exactly when `s` is some text followed by `suffix`. */
  lemma EndsWithConcat(s: string, suffix: string)
    ensures EndsWith(s, suffix) <==> |suffix| <= |s| && s == s[..|s| - |suffix|] + suffix
  {
    if |suffix| <= |s| {
      var n := |s| - |suffix|;
      assert s == s[..n] + s[n..];
      assert (s[..n] + suffix)[n..] == suffix;
    }
  }

  /** `pat in s` holds exactly when `pat` occurs in `s` at some index. */
  lemma ContainsOccurs(s: string, pat: string)
    ensures Contains(s, pat) <==> exists k: nat :: OccursAt(s, pat, k)
  {
    if Contains(s, pat) {
      assert OccursAt(s, pat, Find(s, pat).value);
    }
  }

  /** Python's `s.strip()` with no argument. */
  function StripSpace(s: string): string
  {
    Strip(s, Whitespace)
  }

  /** Python's `s.strip() == ""`: the text is empty or whitespace only. */
  predicate IsBlank(s: string)
  {
    StripSpace(s) == []
  }

  /**
   * `s.strip()` leaves no whitespace at either end, and `s.strip() == ""`
   * exactly when every character of `s` is whitespace.
   */
  lemma StripSpaceEnds(s: string)
    ensures StripSpace(s) != [] ==> StripSpace(s)[0] !in Whitespace && StripSpace(s)[|StripSpace(s)| - 1] !in Whitespace
    ensures IsBlank(s) <==> forall k :: 0 <= k < |s| ==> s[k] in Whitespace
  {
    StripEnds(s, Whitespace);
  }

  /** Python's `sep.join(parts)`. */
  function Join(parts: seq<string>, sep: string): string
  {
    if |parts| == 0 then []
    else if |parts| == 1 then parts[0]
    else parts[0] + sep + Join(parts[1..], sep)
  }

  /** The index of the first line boundary in `s`, or `|s|` when there is none. */
  function LineEnd(s: string): (i: nat)
    ensures i <= |s|
    ensures forall k :: 0 <= k < i ==> s[k] !in LineBreaks
    ensures i < |s| ==> s[i] in LineBreaks
  {
    if s == [] || s[0] in LineBreaks then 0 else 1 + LineEnd(s[1..])
  }

  /**
   * Python's `s.splitlines()`: the lines without their terminators; "\r\n"
   * is one terminator and a final terminator does not open an empty line.
   */
  function SplitLines(s: string): (lines: seq<string>)
    decreases |s|
    ensures s != [] <==> lines != []
  {
    if s == [] then []
    else
      var i := LineEnd(s);
      if i == |s| then [s]
      else
        var next := if s[i] == '\r' && i + 1 < |s| && s[i + 1] == '\n' then i + 2 else i + 1;
        [s[..i]] + SplitLines(s[next..])
  }

  /** No line that `splitlines` returns holds a line boundary. */
  lemma {:induction false} SplitLinesNoBreaks(s: string, lines: seq<string>)
    requires lines == SplitLines(s)
    ensures forall n, k :: 0 <= n < |lines| && 0 <= k < |lines[n]| ==> lines[n][k] !in LineBreaks
    decreases |s|
  {
    if s != [] {
      var i := LineEnd(s);
      if i < |s| {
        var next := if s[i] == '\r' && i + 1 < |s| && s[i + 1] == '\n' then i + 2 else i + 1;
        var rest := SplitLines(s[next..]);
        SplitLinesNoBreaks(s[next..], rest);
        ConsNoBreaks(s[..i], rest, lines);
      }
    }
  }

  /** Prepending a line free of line boundaries keeps every line free of them. */
  lemma ConsNoBreaks(head: string, rest: seq<string>, lines: seq<string>)
    requires forall k :: 0 <= k < |head| ==> head[k] !in LineBreaks
    requires forall n, k :: 0 <= n < |rest| && 0 <= k < |rest[n]| ==> rest[n][k] !in LineBreaks
    requires lines == [head] + rest
    ensures forall n, k :: 0 <= n < |lines| && 0 <= k < |lines[n]| ==> lines[n][k] !in LineBreaks
  {
    forall n, k | 0 <= n < |lines| && 0 <= k < |lines[n]| ensures lines[n][k] !in LineBreaks {
      if n > 0 { assert lines[n] == rest[n - 1]; }
    }
  }


  /** Python's `s.split(sep)` for a one-character separator. */
  function Split(s: string, sep: char): (parts: seq<string>)
    ensures |parts| >= 1
    ensures forall n :: 0 <= n < |parts| ==> sep !in parts[n]
  {
    if sep !in s then [s]
    else
      var i := FirstIndexOf(s, sep);
      [s[..i]] + Split(s[i + 1..], sep)
  }

  /** The index of the first `c` in `s`. */
  function FirstIndexOf(s: string, c: char): (i: nat)
    requires c in s
    ensures i < |s| && s[i] == c && c !in s[..i]
  {
    if s[0] == c then 0 else 1 + FirstIndexOf(s[1..], c)
  }

  /**
   * Python's `s.split(sep)` for a non-empty separator: the pieces between
   * the occurrences of `sep` found from left to right, without overlap.
   */
  function SplitOn(s: string, sep: string): (parts: seq<string>)
    requires sep != []
    decreases |s|
    ensures |parts| >= 1
    ensures Find(s, sep).None? <==> |parts| == 1
    ensures Find(s, sep).None? ==> parts[0] == s
    ensures Find(s, sep).Some? ==> parts[0] == s[..Find(s, sep).value]
  {
    match Find(s, sep)
    case None => [s]
    case Some(i) => [s[..i]] + SplitOn(s[i + |sep|..], sep)
  }

  /** `sep.join(s.split(sep)) == s`. */
  lemma {:induction false} SplitOnJoin(s: string, sep: string)
    requires sep != []
    ensures Join(SplitOn(s, sep), sep) == s
    decreases |s|
  {
    match Find(s, sep)
    case None =>
    case Some(i) =>
      var rest := s[i + |sep|..];
      SplitOnJoin(rest, sep);
      JoinCons(s[..i], SplitOn(rest, sep), sep);
      assert s[i..i + |sep|] == sep;
      assert s == s[..i] + s[i..i + |sep|] + rest;
  }

  /** The text before the first occurrence of `pat` does not contain `pat`. */
  lemma BeforeFirst(s: string, pat: string, i: nat)
    requires pat != [] && Find(s, pat) == Some(i)
    ensures Find(s[..i], pat).None?
  {
    forall k: nat | OccursAt(s[..i], pat, k) ensures OccursAt(s, pat, k) && k < i {
      assert s[..i][k..k + |pat|] == s[k..k + |pat|];
    }
  }

  /** `pat` is found at `k` when it occurs there and nowhere before. */
  lemma FindAt(s: string, pat: string, k: nat)
    requires OccursAt(s, pat, k)
    requires forall j: nat :: j < k ==> !OccursAt(s, pat, j)
    ensures Find(s, pat) == Some(k)
  {
  }

  /** A pattern whose first character does not occur in `s` is not found in `s`. */
  lemma FindAbsent(s: string, pat: string)
    requires pat != [] && pat[0] !in s
    ensures Find(s, pat).None?
  {
    forall k: nat | k + |pat| <= |s| ensures !OccursAt(s, pat, k) {
      assert s[k..k + |pat|][0] == s[k];
    }
  }

  /** Stripping leaves a text alone when neither end is a character to strip. */
  lemma StripUnchanged(s: string, chars: set<char>)
    requires s != [] ==> s[0] !in chars && s[|s| - 1] !in chars
    ensures Strip(s, chars) == s
  {
    StripRightStops(s, chars);
  }

  /** `rstrip` stops at once when the last character is not one to strip. */
  lemma StripRightStops(s: string, chars: set<char>)
    requires s != [] ==> s[|s| - 1] !in chars
    ensures StripRight(s, chars) == s
  {
  }

  /** `lstrip` stops at once when the first character is not one to strip. */
  lemma StripLeftStops(s: string, chars: set<char>)
    requires s != [] && s[0] !in chars
    ensures StripLeft(s, chars) == s
  {
  }

  /** `lstrip` drops a first character that is one to strip and goes on. */
  lemma StripLeftStep(s: string, chars: set<char>)
    requires s != [] && s[0] in chars
    ensures StripLeft(s, chars) == StripLeft(s[1..], chars)
  {
  }

  lemma ConcatTail(t: string, s: string)
    requires t != []
    ensures (t + s)[0] == t[0] && (t + s)[1..] == t[1..] + s
  {
  }

  /** `(t + s).lstrip(chars) == s` when `t` is made of `chars` and `s` does not start with one. */
  lemma {:induction false} StripLeftPrefix(t: string, s: string, chars: set<char>)
    requires s != [] && s[0] !in chars
    requires forall k :: 0 <= k < |t| ==> t[k] in chars
    ensures StripLeft(t + s, chars) == s
    decreases |t|
  {
    if t == [] {
      assert t + s == s;
      StripLeftStops(s, chars);
    } else {
      ConcatTail(t, s);
      StripLeftStep(t + s, chars);
      assert forall k :: 0 <= k < |t[1..]| ==> t[1..][k] in chars by {
        forall k | 0 <= k < |t[1..]| ensures t[1..][k] in chars { assert t[1..][k] == t[k + 1]; }
      }
      StripLeftPrefix(t[1..], s, chars);
    }
  }

  /** `(s + t).rstrip(chars) == s` when `t` is made of `chars` and `s` does not end with one. */
  lemma {:induction false} StripRightSuffix(s: string, t: string, chars: set<char>)
    requires s != [] && s[|s| - 1] !in chars
    requires forall k :: 0 <= k < |t| ==> t[k] in chars
    ensures StripRight(s + t, chars) == s
    decreases |t|
  {
    if t == [] {
      assert s + t == s;
      StripRightStops(s, chars);
    } else {
      var u := s + t;
      assert u[|u| - 1] == t[|t| - 1];
      assert u[..|u| - 1] == s + t[..|t| - 1];
      StripRightSuffix(s, t[..|t| - 1], chars);
    }
  }

  /** Python's `s.replace(a, b)` for single characters. */
  function Replace(s: string, a: char, b: char): (r: string)
    ensures |r| == |s|
    ensures forall k :: 0 <= k < |s| ==> r[k] == if s[k] == a then b else s[k]
  {
    if s == [] then [] else [if s[0] == a then b else s[0]] + Replace(s[1..], a, b)
  }

  /** `s` uses "\n" as its only line boundary. */
  predicate OnlyNewlineBreaks(s: string)
  {
    forall k :: 0 <= k < |s| && s[k] in LineBreaks ==> s[k] == '\n'
  }

  /**
   * Joining the lines of `s` back with "\n" gives `s` itself whenever `s`
   * uses "\n" as its only line boundary and does not end with one.
   */
  lemma {:induction false} SplitLinesJoin(s: string)
    requires OnlyNewlineBreaks(s)
    requires s != [] ==> s[|s| - 1] != '\n'
    ensures Join(SplitLines(s), "\n") == s
    decreases |s|
  {
    if s == [] {
    } else if LineEnd(s) == |s| {
      assert SplitLines(s) == [s];
    } else {
      var i := LineEnd(s);
      var rest := s[i + 1..];
      FirstLine(s, i);
      SplitLinesJoin(rest);
      JoinLine(s, i, SplitLines(rest));
    }
  }

  /** When the first boundary of `s` is a "\n" that is not its last character, the first line is cut there. */
  lemma FirstLine(s: string, i: nat)
    requires i == LineEnd(s) < |s|
    requires OnlyNewlineBreaks(s)
    requires s[|s| - 1] != '\n'
    ensures s[i] == '\n' && i + 1 < |s|
    ensures SplitLines(s) == [s[..i]] + SplitLines(s[i + 1..])
    ensures OnlyNewlineBreaks(s[i + 1..]) && s[i + 1..] != []
    ensures s[i + 1..][|s[i + 1..]| - 1] != '\n'
  {
    BreakIsNewline(s, i);
    NewlineTail(s, i + 1);
    LastOfSuffix(s, i + 1);
    SplitAtNewline(s, i);
  }

  /** `splitlines` cuts at a first boundary that is a lone "\n". */
  lemma SplitAtNewline(s: string, i: nat)
    requires i == LineEnd(s) < |s| && s[i] == '\n'
    ensures SplitLines(s) == [s[..i]] + SplitLines(s[i + 1..])
  {
  }

  lemma LastOfSuffix(s: string, j: nat)
    requires j < |s|
    ensures s[j..][|s[j..]| - 1] == s[|s| - 1]
  {
  }

  /** The first boundary of such an `s` is a "\n" with more text behind it. */
  lemma BreakIsNewline(s: string, i: nat)
    requires i < |s| && s[i] in LineBreaks
    requires OnlyNewlineBreaks(s)
    requires s[|s| - 1] != '\n'
    ensures s[i] == '\n' && i + 1 < |s|
  {
  }

  /** A suffix of a text with "\n" boundaries only has "\n" boundaries only. */
  lemma NewlineTail(s: string, j: nat)
    requires j <= |s|
    requires OnlyNewlineBreaks(s)
    ensures OnlyNewlineBreaks(s[j..])
  {
    forall k | 0 <= k < |s| - j && s[j..][k] in LineBreaks ensures s[j..][k] == '\n' {
      assert s[j..][k] == s[j + k];
    }
  }

  /** Joining the line before a "\n" with the lines after it restores the text. */
  lemma JoinLine(s: string, i: nat, tail: seq<string>)
    requires i < |s| && s[i] == '\n'
    requires tail != [] && Join(tail, "\n") == s[i + 1..]
    ensures Join([s[..i]] + tail, "\n") == s
  {
    JoinCons(s[..i], tail, "\n");
    assert s[..i] + "\n" + s[i + 1..] == s;
  }

  lemma JoinCons(head: string, tail: seq<string>, sep: string)
    requires tail != []
    ensures Join([head] + tail, sep) == head + sep + Join(tail, sep)
  {
    assert ([head] + tail)[1..] == tail;
  }

  /**
   * Splitting on `sep` and joining back with `sep` gives the original text:
   * `sep.join(s.split(sep)) == s`.
   */
  lemma {:induction false} SplitJoin(s: string, sep: char)
    ensures Join(Split(s, sep), [sep]) == s
    decreases |s|
  {
    if sep in s {
      var i := FirstIndexOf(s, sep);
      var rest := s[i + 1..];
      SplitJoin(rest, sep);
      assert Split(s, sep) == [s[..i]] + Split(rest, sep);
      assert s == s[..i] + [sep] + rest;
    }
  }

  /**
   * Replacing every `/` by `_` in a path string gives the segments joined
   * by `_`, provided no segment contains a `/` (which a path segment cannot).
   */
  lemma {:induction false} ReplaceSeparator(segments: seq<string>)
    requires forall n :: 0 <= n < |segments| ==> '/' !in segments[n]
    ensures Replace(Join(segments, "/"), '/', '_') == Join(segments, "_")
  {
    if |segments| == 1 {
      ReplaceAbsent(segments[0]);
    } else if |segments| > 1 {
      var head := segments[0];
      var rest := Join(segments[1..], "/");
      ReplaceSeparator(segments[1..]);
      assert Join(segments, "/") == (head + "/") + rest;
      ReplaceConcat(head + "/", rest);
      ReplaceConcat(head, "/");
      ReplaceAbsent(head);
      assert Replace("/", '/', '_') == "_";
      assert Join(segments, "_") == (head + "_") + Join(segments[1..], "_");
    }
  }

  /** Replacing "/" changes nothing in a text without one. */
  lemma ReplaceAbsent(s: string)
    requires '/' !in s
    ensures Replace(s, '/', '_') == s
  {
    assert forall k :: 0 <= k < |s| ==> s[k] != '/';
  }

  lemma ReplaceConcat(s: string, t: string)
    ensures Replace(s + t, '/', '_') == Replace(s, '/', '_') + Replace(t, '/', '_')
  {
    var l, r := Replace(s + t, '/', '_'), Replace(s, '/', '_') + Replace(t, '/', '_');
    assert |l| == |r|;
    forall k | 0 <= k < |l| ensures l[k] == r[k] {
      if k < |s| { assert (s + t)[k] == s[k]; } else { assert (s + t)[k] == t[k - |s|]; }
    }
  }
}
