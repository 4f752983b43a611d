/** Stage 2 of yify/__init__.py (`get_subtitles`), one line at a time: the
    first match of `upvote(\d+).+\[(\w+) subtitle.*\((.*?)\)` in a line of
    the movie page, found with Python's `re.search`, and its three groups:
    the upvote count, the language and the subtitle page link. */
module ListingRow {
  import opened Text

  const Upvote: string := "upvote"
  const Subtitle: string := " subtitle"

  /** `\d`, over ASCII. */
  predicate IsDigit(c: char)
  {
    '0' <= c <= '9'
  }

  /** `\w`, over ASCII: letters, digits and the underscore. */
  predicate IsWordChar(c: char)
  {
    ('a' <= c <= 'z') || ('A' <= c <= 'Z') || IsDigit(c) || c == '_'
  }

  /** The part of a match from the '[' on: the word ends at `w` (where
      " subtitle" starts), the '(' is at `o` and the ')' at `c`. */
  datatype TailSpan = TailSpan(w: nat, o: nat, c: nat)

  /** A whole match: "upvote" at `p`, the digits of group 1 end at `d`, the
      '[' is at `b`. The groups are s[p + 6..d], s[b + 1..w] and s[o + 1..c]. */
  datatype RowSpan = RowSpan(p: nat, d: nat, b: nat, tail: TailSpan)

  /** `\[(\w+) subtitle.*\((.*?)\)` matched from b on. */
  ghost predicate IsTail(s: string, b: nat, t: TailSpan)
  {
    && b + 2 <= t.w && t.w + |Subtitle| <= t.o < t.c < |s|
    && s[b] == '['
    && (forall k :: b + 1 <= k < t.w ==> IsWordChar(s[k]))
    && s[t.w..t.w + |Subtitle|] == Subtitle
    && NoNewline(s, t.w + |Subtitle|, t.o)
    && s[t.o] == '('
    && NoNewline(s, t.o + 1, t.c)
    && s[t.c] == ')'
  }

  /** The whole pattern matched from p on. */
  ghost predicate IsRowMatch(s: string, m: RowSpan)
  {
    && m.p + |Upvote| < m.d < m.b < |s|
    && s[m.p..m.p + |Upvote|] == Upvote
    && (forall k :: m.p + |Upvote| <= k < m.d ==> IsDigit(s[k]))
    && NoNewline(s, m.d, m.b)
    && IsTail(s, m.b, m.tail)
  }

  /** Backtracking order after the '[': the greedy `\w+` tries its longest
      word first, the greedy `.*` its furthest '(' and the lazy `.*?` its
      nearest ')'. */
  ghost predicate TailTriedFirst(t: TailSpan, t': TailSpan)
  {
    || t.w > t'.w
    || (t.w == t'.w && t.o > t'.o)
    || (t.w == t'.w && t.o == t'.o && t.c <= t'.c)
  }

  /** Backtracking order of whole matches: leftmost start; then the greedy
      `\d+` tries the most digits first, then the greedy `.+` the furthest
      '['; then the rest as above. */
  ghost predicate RowTriedFirst(m: RowSpan, m': RowSpan)
  {
    || m.p < m'.p
    || (m.p == m'.p && m.d > m'.d)
    || (m.p == m'.p && m.d == m'.d && m.b > m'.b)
    || (m.p == m'.p && m.d == m'.d && m.b == m'.b && TailTriedFirst(m.tail, m'.tail))
  }

  /** The end of the run of digits starting at i. */
  function DigitEnd(s: string, i: nat): (e: nat)
    requires i <= |s|
    ensures i <= e <= |s|
    ensures forall k :: i <= k < e ==> IsDigit(s[k])
    ensures e < |s| ==> !IsDigit(s[e])
    decreases |s| - i
  {
    if i == |s| || !IsDigit(s[i]) then i else DigitEnd(s, i + 1)
  }

  lemma WithinDigits(s: string, i: nat, j: nat)
    requires i <= j <= |s| && forall k :: i <= k < j ==> IsDigit(s[k])
    ensures j <= DigitEnd(s, i)
  {
  }

  /** The end of the run of word characters starting at i. */
  function WordEnd(s: string, i: nat): (e: nat)
    requires i <= |s|
    ensures i <= e <= |s|
    ensures forall k :: i <= k < e ==> IsWordChar(s[k])
    ensures e < |s| ==> !IsWordChar(s[e])
    decreases |s| - i
  {
    if i == |s| || !IsWordChar(s[i]) then i else WordEnd(s, i + 1)
  }

  /** In any match from b, the word group is the whole run of word
      characters after the '[', and the ')' lies on the line of the text
      after " subtitle". */
  lemma TailParts(s: string, b: nat, t: TailSpan)
    requires IsTail(s, b, t)
    ensures t.w == WordEnd(s, b + 1)
    ensures t.c < LineEnd(s, t.w + |Subtitle|)
  {
    var w := WordEnd(s, b + 1);
    assert s[t.w] == ' ';
    var lo := t.w + |Subtitle|;
    assert NoNewline(s, lo, t.c) by {
      forall k | lo <= k < t.c ensures s[k] != '\n' {
        if k == t.o { assert s[k] == '('; }
      }
    }
    WithinLine(s, lo, t.c);
  }

  /** The parts TailAfterWord picks do form a match. */
  lemma TailFromParts(s: string, b: nat, w: nat, o: nat, c: nat)
    requires b < |s| && s[b] == '[' && w == WordEnd(s, b + 1) && b + 2 <= w
    requires w + |Subtitle| <= |s| && s[w..w + |Subtitle|] == Subtitle
    requires w + |Subtitle| <= o < c < LineEnd(s, w + |Subtitle|) && s[o] == '(' && s[c] == ')'
    ensures IsTail(s, b, TailSpan(w, o, c))
  {
    var lo := w + |Subtitle|;
    var e := LineEnd(s, lo);
    assert NoNewline(s, lo, o) by {
      forall k | lo <= k < o ensures s[k] != '\n' {
        assert lo <= k < e;
      }
    }
    assert NoNewline(s, o + 1, c) by {
      forall k | o + 1 <= k < c ensures s[k] != '\n' {
        assert lo <= k < e;
      }
    }
  }

  /** No match from b when no '(' on the line after " subtitle" has a ')'
      after it. */
  lemma NoTailAfterWord(s: string, b: nat, w: nat)
    requires b < |s| && w == WordEnd(s, b + 1)
    requires w + |Subtitle| <= |s|
    requires var lo := w + |Subtitle|;
             var e := LineEnd(s, lo);
             forall o, c :: lo <= o < c < e && s[o] == '(' ==> s[c] != ')'
    ensures forall t :: !IsTail(s, b, t)
  {
    forall t | IsTail(s, b, t) ensures false {
      TailParts(s, b, t);
    }
  }

  /** With `last` the line's last ')', `o` the last '(' before it and `c`
      the first ')' after `o`, the span (w, o, c) is the match tried first. */
  lemma TailAfterWordFirst(s: string, b: nat, w: nat, o: nat, last: nat, c: nat)
    requires b < |s| && s[b] == '[' && w == WordEnd(s, b + 1) && b + 2 <= w
    requires w + |Subtitle| <= |s| && s[w..w + |Subtitle|] == Subtitle
    requires var lo := w + |Subtitle|;
             var e := LineEnd(s, lo);
             && lo <= o < c <= last < e
             && s[o] == '(' && s[c] == ')' && s[last] == ')'
             && (forall k :: o < k < last ==> s[k] != '(')
             && (forall k :: last < k < e ==> s[k] != ')')
             && (forall k :: o < k < c ==> s[k] != ')')
    ensures IsTail(s, b, TailSpan(w, o, c))
    ensures forall t :: IsTail(s, b, t) ==> TailTriedFirst(TailSpan(w, o, c), t)
  {
    TailFromParts(s, b, w, o, c);
    forall t | IsTail(s, b, t) ensures TailTriedFirst(TailSpan(w, o, c), t) {
      TailParts(s, b, t);
    }
  }

  /** TailAt once the word and " subtitle" have matched. The greedy `.*`
      takes the last '(' that still has a ')' after it on the line, which is
      the last '(' before the line's last ')'; the lazy `(.*?)` then stops
      at the first ')' after that '('. */
  function TailAfterWord(s: string, b: nat, w: nat): (r: Option<TailSpan>)
    requires b < |s| && s[b] == '[' && w == WordEnd(s, b + 1) && b + 2 <= w
    requires w + |Subtitle| <= |s| && s[w..w + |Subtitle|] == Subtitle
    ensures r.Some? ==> IsTail(s, b, r.value)
    ensures r.Some? ==> forall t :: IsTail(s, b, t) ==> TailTriedFirst(r.value, t)
    ensures r.None? ==> forall t :: !IsTail(s, b, t)
  {
    var lo := w + |Subtitle|;
    var e := LineEnd(s, lo);
    match LastIndexOf(s, ')', lo, e)
    case None =>
      NoTailAfterWord(s, b, w);
      None
    case Some(last) =>
      match LastIndexOf(s, '(', lo, last)
      case None =>
        NoTailAfterWord(s, b, w);
        None
      case Some(o) =>
        var close := FirstIndexOf(s, ')', o + 1, e);
        assert s[last] == ')' && o + 1 <= last < e;
        var c := close.value;
        TailAfterWordFirst(s, b, w, o, last, c);
        Some(TailSpan(w, o, c))
  }

  /** The match of `\[(\w+) subtitle.*\((.*?)\)` that backtracking settles on
      from a '[' at b, if any. */
  function TailAt(s: string, b: nat): (r: Option<TailSpan>)
    requires b < |s|
    ensures r.Some? ==> IsTail(s, b, r.value)
    ensures r.Some? ==> forall t :: IsTail(s, b, t) ==> TailTriedFirst(r.value, t)
    ensures r.None? ==> forall t :: !IsTail(s, b, t)
  {
    if s[b] != '[' then None
    else
      var w := WordEnd(s, b + 1);
      if b + 2 <= w && w + |Subtitle| <= |s| && s[w..w + |Subtitle|] == Subtitle then
        TailAfterWord(s, b, w)
      else
        assert forall t :: !IsTail(s, b, t) by {
          forall t | IsTail(s, b, t) ensures false {
            TailParts(s, b, t);
          }
        }
        None
  }

  /** The rest of the pattern matches from b. */
  ghost predicate HasTail(s: string, b: nat)
  {
    exists t :: IsTail(s, b, t)
  }

  /** TailAt finds a match exactly when there is one. */
  lemma TailAtDecides(s: string, b: nat)
    requires b < |s|
    ensures TailAt(s, b).Some? <==> HasTail(s, b)
  {
    if TailAt(s, b).Some? {
      assert IsTail(s, b, TailAt(s, b).value);
    }
  }

  /** The last '[' in [lo, hi) from which the rest of the pattern matches. */
  function LastBracket(s: string, lo: nat, hi: nat): (r: Option<nat>)
    requires lo <= hi <= |s|
    ensures r.Some? ==> lo <= r.value < hi && HasTail(s, r.value)
                        && forall b :: r.value < b < hi ==> !HasTail(s, b)
    ensures r.None? ==> forall b :: lo <= b < hi ==> !HasTail(s, b)
    decreases hi - lo
  {
    if lo == hi then None
    else
      var found := TailAt(s, hi - 1).Some?;
      TailAtDecides(s, hi - 1);
      var rest := if found then None else LastBracket(s, lo, hi - 1);
      LastBracketStep(s, lo, hi, found, rest);
      if found then Some(hi - 1) else rest
  }

  lemma LastBracketStep(s: string, lo: nat, hi: nat, found: bool, rest: Option<nat>)
    requires lo < hi <= |s| && (found <==> HasTail(s, hi - 1))
    requires !found && rest.Some? ==> lo <= rest.value < hi - 1 && HasTail(s, rest.value)
                                      && forall b :: rest.value < b < hi - 1 ==> !HasTail(s, b)
    requires !found && rest.None? ==> forall b :: lo <= b < hi - 1 ==> !HasTail(s, b)
    ensures var r := if found then Some(hi - 1) else rest;
            && (r.Some? ==> lo <= r.value < hi && HasTail(s, r.value)
                            && forall b :: r.value < b < hi ==> !HasTail(s, b))
            && (r.None? ==> forall b :: lo <= b < hi ==> !HasTail(s, b))
  {
  }

  /** "upvote" holds no line break. */
  lemma UpvoteOnOneLine(s: string, p: nat)
    requires p + |Upvote| <= |s| && s[p..p + |Upvote|] == Upvote
    ensures NoNewline(s, p, p + |Upvote|)
  {
    forall k | p <= k < p + |Upvote| ensures s[k] != '\n' {
      assert s[k] == s[p..p + |Upvote|][k - p];
    }
  }

  /** In any match from p, the digit group ends within the run of digits
      after "upvote", and the '[' lies on p's line, at least two characters
      after the digits start, with the rest of the pattern matching from it. */
  lemma RowParts(s: string, m: RowSpan)
    requires IsRowMatch(s, m)
    ensures m.d <= DigitEnd(s, m.p + |Upvote|)
    ensures m.p + |Upvote| + 2 <= m.b < LineEnd(s, m.p) && HasTail(s, m.b)
  {
    var digits := m.p + |Upvote|;
    var dEnd := DigitEnd(s, digits);
    WithinDigits(s, digits, m.d);
    UpvoteOnOneLine(s, m.p);
    assert NoNewline(s, m.p, m.b) by {
      forall k | m.p <= k < m.b ensures s[k] != '\n' {
        if m.d <= k { assert NoNewline(s, m.d, m.b); }
        else if digits <= k { assert IsDigit(s[k]); }
      }
    }
    WithinLine(s, m.p, m.b);
    assert s[m.b] == '[';
  }

  /** The parts RowAt picks do form a match. */
  lemma RowFromParts(s: string, p: nat, b: nat, t: TailSpan)
    requires p + |Upvote| <= |s| && s[p..p + |Upvote|] == Upvote
    requires p + |Upvote| < DigitEnd(s, p + |Upvote|)
    requires p + |Upvote| + 2 <= b < LineEnd(s, p) && IsTail(s, b, t)
    ensures var dEnd := DigitEnd(s, p + |Upvote|);
            IsRowMatch(s, RowSpan(p, if dEnd < b then dEnd else b - 1, b, t))
  {
    var dEnd := DigitEnd(s, p + |Upvote|);
    var d := if dEnd < b then dEnd else b - 1;
    var e := LineEnd(s, p);
    assert forall k :: p + |Upvote| <= k < d ==> IsDigit(s[k]);
    assert NoNewline(s, d, b) by {
      forall k | d <= k < b ensures s[k] != '\n' {
        assert p <= k < e;
      }
    }
  }

  /** The parts RowAt picks come before any other match from p in the
      backtracking order. */
  lemma RowAtFirst(s: string, p: nat, b: nat, t: TailSpan, m: RowSpan)
    requires p + |Upvote| + 2 <= b && p <= |s| && b < LineEnd(s, p)
    requires forall b' :: b < b' < LineEnd(s, p) ==> !HasTail(s, b')
    requires forall t' :: IsTail(s, b, t') ==> TailTriedFirst(t, t')
    requires IsRowMatch(s, m) && m.p == p
    ensures var dEnd := DigitEnd(s, p + |Upvote|);
            RowTriedFirst(RowSpan(p, if dEnd < b then dEnd else b - 1, b, t), m)
  {
    RowParts(s, m);
  }

  /** With b the last '[' on p's line that the rest of the pattern matches
      from, the parts RowAt picks form the first match tried from p. */
  lemma RowAtPicks(s: string, p: nat, b: nat)
    requires p + |Upvote| <= |s| && s[p..p + |Upvote|] == Upvote
    requires p + |Upvote| < DigitEnd(s, p + |Upvote|)
    requires p + |Upvote| + 2 <= b < LineEnd(s, p) && HasTail(s, b)
    requires forall b' :: b < b' < LineEnd(s, p) ==> !HasTail(s, b')
    ensures TailAt(s, b).Some?
    ensures var dEnd := DigitEnd(s, p + |Upvote|);
            var m := RowSpan(p, if dEnd < b then dEnd else b - 1, b, TailAt(s, b).value);
            IsRowMatch(s, m) && forall m' :: IsRowMatch(s, m') && m'.p == p ==> RowTriedFirst(m, m')
  {
    TailAtDecides(s, b);
    var t := TailAt(s, b).value;
    RowFromParts(s, p, b, t);
    var dEnd := DigitEnd(s, p + |Upvote|);
    var m := RowSpan(p, if dEnd < b then dEnd else b - 1, b, t);
    forall m' | IsRowMatch(s, m') && m'.p == p ensures RowTriedFirst(m, m') {
      RowAtFirst(s, p, b, t, m');
    }
  }

  /** No match starts at p when "upvote" is not followed by a digit, or
      when no '[' far enough along p's line has the rest of the pattern
      after it. */
  lemma NoRowAt(s: string, p: nat)
    requires p + |Upvote| <= |s|
    requires var digits := p + |Upvote|;
             var e := LineEnd(s, p);
             || DigitEnd(s, digits) <= digits
             || e < digits + 2
             || forall b :: digits + 2 <= b < e ==> !HasTail(s, b)
    ensures forall m :: IsRowMatch(s, m) ==> m.p != p
  {
    forall m | IsRowMatch(s, m) && m.p == p ensures false {
      RowParts(s, m);
    }
  }

  /** The match backtracking settles on when it starts at p, if any. The '['
      is the last one on the line that the rest of the pattern matches from;
      the digit group keeps every digit unless the '[' follows it at once,
      in which case `.+` takes back the last digit. */
  function RowAt(s: string, p: nat): (r: Option<RowSpan>)
    requires p <= |s|
    ensures r.Some? ==> IsRowMatch(s, r.value) && r.value.p == p
    ensures r.Some? ==> forall m :: IsRowMatch(s, m) && m.p == p ==> RowTriedFirst(r.value, m)
    ensures r.None? ==> forall m :: IsRowMatch(s, m) ==> m.p != p
  {
    var digits := p + |Upvote|;
    if digits <= |s| && s[p..digits] == Upvote then
      var dEnd := DigitEnd(s, digits);
      var e := LineEnd(s, p);
      if digits + 1 <= dEnd && digits + 2 <= e then
        match LastBracket(s, digits + 2, e)
        case Some(b) =>
          RowAtPicks(s, p, b);
          Some(RowSpan(p, if dEnd < b then dEnd else b - 1, b, TailAt(s, b).value))
        case None =>
          NoRowAt(s, p);
          None
      else
        NoRowAt(s, p);
        None
    else
      None
  }

  /** `re.search` started at p: the first match tried at or after p. */
  function RowFrom(s: string, p: nat): (r: Option<RowSpan>)
    requires p <= |s|
    ensures r.Some? ==> IsRowMatch(s, r.value) && p <= r.value.p
    ensures r.Some? ==> forall m :: IsRowMatch(s, m) && p <= m.p ==> RowTriedFirst(r.value, m)
    ensures r.None? ==> forall m :: IsRowMatch(s, m) ==> m.p < p
    decreases |s| - p
  {
    if p == |s| then None
    else if RowAt(s, p).Some? then RowAt(s, p)
    else RowFrom(s, p + 1)
  }

  /** The three groups of a listing-row match. */
  datatype Row = Row(up: string, lang: string, link: string)

  /** Groups 1 to 3 of a match. Without DOTALL no group crosses a line. */
  function Groups(s: string, m: RowSpan): (g: Row)
    requires IsRowMatch(s, m)
    ensures '\n' !in g.up && '\n' !in g.lang && '\n' !in g.link
  {
    var g := Row(s[m.p + |Upvote|..m.d], s[m.b + 1..m.tail.w], s[m.tail.o + 1..m.tail.c]);
    assert forall k :: 0 <= k < |g.up| ==> g.up[k] == s[m.p + |Upvote| + k];
    assert forall k :: 0 <= k < |g.lang| ==> g.lang[k] == s[m.b + 1 + k];
    NoNewlineSlice(s, m.tail.o + 1, m.tail.c);
    g
  }

  /** The match `re.search` returns: no other match is tried before it. */
  ghost predicate IsFirstRowMatch(s: string, m: RowSpan)
  {
    IsRowMatch(s, m) && forall m' :: IsRowMatch(s, m') ==> RowTriedFirst(m, m')
  }

  /** The upvote group is a non-empty run of digits and the language group a
      non-empty word. */
  lemma GroupsShape(s: string, m: RowSpan)
    requires IsRowMatch(s, m)
    ensures var g := Groups(s, m);
            && |g.up| > 0 && (forall k :: 0 <= k < |g.up| ==> IsDigit(g.up[k]))
            && |g.lang| > 0 && (forall k :: 0 <= k < |g.lang| ==> IsWordChar(g.lang[k]))
  {
    var g := Groups(s, m);
    assert forall k :: 0 <= k < |g.up| ==> g.up[k] == s[m.p + |Upvote| + k];
    assert forall k :: 0 <= k < |g.lang| ==> g.lang[k] == s[m.b + 1 + k];
  }

  /** `re.search(r'upvote(\d+).+\[(\w+) subtitle.*\((.*?)\)', line)` and its
      groups, or None when the line does not match. The upvote is a non-empty
      run of digits and the language a non-empty word; MatchRowIsFirstMatch
      says which match the groups come from. */
  function MatchRow(line: string): (r: Option<Row>)
    ensures r.Some? ==> |r.value.up| > 0 && forall k :: 0 <= k < |r.value.up| ==> IsDigit(r.value.up[k])
    ensures r.Some? ==> |r.value.lang| > 0 && forall k :: 0 <= k < |r.value.lang| ==> IsWordChar(r.value.lang[k])
  {
    match RowFrom(line, 0)
    case Some(m) =>
      GroupsShape(line, m);
      Some(Groups(line, m))
    case None => None
  }

  /** A line yields no row exactly when the pattern matches nowhere in it;
      otherwise the row holds the groups of the match backtracking finds
      first. */
  lemma MatchRowIsFirstMatch(line: string)
    ensures MatchRow(line).None? <==> forall m :: !IsRowMatch(line, m)
    ensures MatchRow(line).Some? ==>
      exists m :: IsFirstRowMatch(line, m) && MatchRow(line).value == Groups(line, m)
  {
    match RowFrom(line, 0)
    case Some(m) =>
      assert IsFirstRowMatch(line, m);
    case None =>
  }
}
