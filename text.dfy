/** Character-level helpers shared by the three hand-written matchers of
    yify/__init__.py, and the two string operations the pipeline applies to
    a whole text: Python's `str.splitlines()` and `str.replace('\n', '')`. */
module Text {

  datatype Option<T> = None | Some(value: T)

  /** Python's `re` without DOTALL: `.` matches every character but '\n'. */
  predicate NoNewline(s: string, i: nat, j: nat)
    requires i <= j <= |s|
  {
    forall k :: i <= k < j ==> s[k] != '\n'
  }

  /** A stretch without '\n' taken out as a string has none either. */
  lemma NoNewlineSlice(s: string, i: nat, j: nat)
    requires i <= j <= |s| && NoNewline(s, i, j)
    ensures '\n' !in s[i..j]
  {
    forall k | 0 <= k < j - i ensures s[i..j][k] != '\n' {
      assert s[i..j][k] == s[i + k];
    }
  }

  /** The end of the line that position i lies on: the first '\n' at or
      after i, or the end of the text. */
  function LineEnd(s: string, i: nat): (e: nat)
    requires i <= |s|
    ensures i <= e <= |s| && NoNewline(s, i, e)
    ensures e == |s| || s[e] == '\n'
    decreases |s| - i
  {
    if i == |s| || s[i] == '\n' then i else LineEnd(s, i + 1)
  }

  /** A '\n'-free stretch starting at i never runs past LineEnd(s, i). */
  lemma WithinLine(s: string, i: nat, j: nat)
    requires i <= j <= |s| && NoNewline(s, i, j)
    ensures j <= LineEnd(s, i)
  {
  }

  /** The largest index q in [lo, hi) holding ch, if any. */
  function LastIndexOf(s: string, ch: char, lo: nat, hi: nat): (r: Option<nat>)
    requires lo <= hi <= |s|
    ensures r.Some? ==> lo <= r.value < hi && s[r.value] == ch
                        && forall k :: r.value < k < hi ==> s[k] != ch
    ensures r.None? ==> forall k :: lo <= k < hi ==> s[k] != ch
    decreases hi - lo
  {
    if lo == hi then None
    else if s[hi - 1] == ch then Some(hi - 1)
    else LastIndexOf(s, ch, lo, hi - 1)
  }

  /** The smallest index q in [lo, hi) holding ch, if any. */
  function FirstIndexOf(s: string, ch: char, lo: nat, hi: nat): (r: Option<nat>)
    requires lo <= hi <= |s|
    ensures r.Some? ==> lo <= r.value < hi && s[r.value] == ch
                        && forall k :: lo <= k < r.value ==> s[k] != ch
    ensures r.None? ==> forall k :: lo <= k < hi ==> s[k] != ch
    decreases hi - lo
  {
    if lo == hi then None
    else if s[lo] == ch then Some(lo)
    else FirstIndexOf(s, ch, lo + 1, hi)
  }

  // ---------------------------------------------------------------------
  // str.splitlines()

  /** The characters Python's `str.splitlines` treats as line boundaries. */
  predicate IsLineBreak(c: char)
  {
    c == '\n' || c == '\r' || c == '\U{B}' || c == '\U{C}'
    || c == '\U{1C}' || c == '\U{1D}' || c == '\U{1E}'
    || c == '\U{85}' || c == '\U{2028}' || c == '\U{2029}'
  }

  /** The index of the first line boundary at or after i, or |s|. */
  function BreakAt(s: string, i: nat): (k: nat)
    requires i <= |s|
    ensures i <= k <= |s|
    ensures forall j :: i <= j < k ==> !IsLineBreak(s[j])
    ensures k < |s| ==> IsLineBreak(s[k])
    decreases |s| - i
  {
    if i == |s| || IsLineBreak(s[i]) then i else BreakAt(s, i + 1)
  }

  /** `s.splitlines()`: the lines of s without their boundaries; "\r\n" is one
      boundary, and a boundary at the very end does not open an empty line. */
  function SplitLines(s: string): (lines: seq<string>)
    ensures forall n, j :: 0 <= n < |lines| && 0 <= j < |lines[n]| ==> !IsLineBreak(lines[n][j])
    ensures s == [] <==> lines == []
    decreases |s|
  {
    if s == [] then []
    else
      var k := BreakAt(s, 0);
      var line := s[..k];
      if k == |s| then [line]
      else
        var next := if s[k] == '\r' && k + 1 < |s| && s[k + 1] == '\n' then k + 2 else k + 1;
        [line] + SplitLines(s[next..])
  }

  /** The lines written out, each followed by '\n'. */
  function Terminated(lines: seq<string>): string
  {
    if lines == [] then [] else lines[0] + "\n" + Terminated(lines[1..])
  }

  /** A text without boundaries is one line, when it is not empty: a last
      line needs no line ending. */
  lemma SplitLastLine(line: string)
    requires line != []
    requires forall j :: 0 <= j < |line| ==> !IsLineBreak(line[j])
    ensures SplitLines(line) == [line]
  {
    assert BreakAt(line, 0) == |line|;
    assert line[..|line|] == line;
  }

  /** A line without boundaries, then one boundary character (other than a
      '\r' that starts "\r\n"), then the rest: splitlines gives that line
      followed by the lines of the rest. */
  lemma SplitAtBreak(first: string, sep: char, rest: string)
    requires forall j :: 0 <= j < |first| ==> !IsLineBreak(first[j])
    requires IsLineBreak(sep)
    requires sep == '\r' ==> rest == [] || rest[0] != '\n'
    ensures SplitLines(first + [sep] + rest) == [first] + SplitLines(rest)
  {
    var s := first + [sep] + rest;
    assert s[|first|] == sep;
    assert forall j :: 0 <= j < |first| ==> s[j] == first[j];
    assert BreakAt(s, 0) == |first|;
    assert s[..|first|] == first;
    assert s[|first| + 1..] == rest;
  }

  /** "\r\n" is a single boundary: the line before it, then the lines of
      the rest, with no empty line between. */
  lemma SplitAtCrLf(first: string, rest: string)
    requires forall j :: 0 <= j < |first| ==> !IsLineBreak(first[j])
    ensures SplitLines(first + "\r\n" + rest) == [first] + SplitLines(rest)
  {
    var s := first + "\r\n" + rest;
    assert s[|first|] == '\r' && s[|first| + 1] == '\n';
    assert forall j :: 0 <= j < |first| ==> s[j] == first[j];
    assert BreakAt(s, 0) == |first|;
    assert s[..|first|] == first;
    assert s[|first| + 2..] == rest;
  }

  /** splitlines recovers exactly the lines of a text written one per '\n'. */
  lemma {:induction false} SplitTerminated(lines: seq<string>)
    requires forall n, j :: 0 <= n < |lines| && 0 <= j < |lines[n]| ==> !IsLineBreak(lines[n][j])
    ensures SplitLines(Terminated(lines)) == lines
    decreases |lines|
  {
    if lines != [] {
      assert forall j :: 0 <= j < |lines[0]| ==> !IsLineBreak(lines[0][j]);
      SplitAtBreak(lines[0], '\n', Terminated(lines[1..]));
      assert lines[0] + "\n" + Terminated(lines[1..]) == lines[0] + ['\n'] + Terminated(lines[1..]);
      SplitTerminated(lines[1..]);
    }
  }

  // ---------------------------------------------------------------------
  // str.replace('\n', '')

  /** `s.replace('\n', '')`. */
  function RemoveNewlines(s: string): (r: string)
    ensures '\n' !in r
    ensures |r| <= |s|
    decreases |s|
  {
    if s == [] then []
    else if s[0] == '\n' then RemoveNewlines(s[1..])
    else [s[0]] + RemoveNewlines(s[1..])
  }

  /** Removing newlines leaves a newline-free text as it is. */
  lemma {:induction false} RemoveNewlinesKeeps(s: string)
    requires '\n' !in s
    ensures RemoveNewlines(s) == s
    decreases |s|
  {
    if s != [] {
      assert s[0] in s;
      assert forall c :: c in s[1..] ==> c in s;
      RemoveNewlinesKeeps(s[1..]);
    }
  }

  /** Removing newlines works piecewise over a concatenation. */
  lemma {:induction false} RemoveNewlinesAppend(a: string, b: string)
    ensures RemoveNewlines(a + b) == RemoveNewlines(a) + RemoveNewlines(b)
    decreases |a|
  {
    if a != [] {
      assert (a + b)[0] == a[0];
      assert (a + b)[1..] == a[1..] + b;
      RemoveNewlinesAppend(a[1..], b);
    } else {
      assert a + b == b;
    }
  }

  /** Removing the one newline between two newline-free halves joins them. */
  lemma JoinAcrossBreak(a: string, b: string)
    requires '\n' !in a && '\n' !in b
    ensures RemoveNewlines(a + "\n" + b) == a + b
  {
    var nb := "\n" + b;
    assert a + "\n" + b == a + nb;
    RemoveNewlinesAppend(a, nb);
    assert RemoveNewlines(nb) == RemoveNewlines(b) by {
      assert nb[0] == '\n' && nb[1..] == b;
    }
    RemoveNewlinesKeeps(a);
    RemoveNewlinesKeeps(b);
  }
}
