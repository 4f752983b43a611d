/** Stage 2 of yify/__init__.py (`get_subtitles`), over the whole page: keep
    the English rows in listing order; they are then sorted by upvote count,
    highest first, with Python's stable `list.sort` (module StableSort), and
    the first is taken. */
module Ranking {
  import opened Text
  import opened ListingRow
  import opened StableSort

  /** The one language kept, compared case-sensitively. */
  const English: string := "English"

  /** The record `{'up': upvote, 'link': link}` appended for a kept row. */
  datatype Sub = Sub(up: string, link: string)

  predicate AllDigits(s: string)
  {
    forall k :: 0 <= k < |s| ==> IsDigit(s[k])
  }

  // ---------------------------------------------------------------------
  // int(upvote)

  /** `int(s)` for a string of ASCII digits: the last digit is the value's
      remainder by ten, and the digits before it give the rest. */
  function Decimal(s: string): (n: int)
    ensures AllDigits(s) ==> n >= 0
    ensures AllDigits(s) && s != [] ==>
              && n % 10 == s[|s| - 1] as int - '0' as int
              && n / 10 == Decimal(s[..|s| - 1])
  {
    if s == [] then 0
    else
      var init := s[..|s| - 1];
      assert AllDigits(s) ==> AllDigits(init) by {
        if AllDigits(s) {
          forall k | 0 <= k < |init| ensures IsDigit(init[k]) { assert init[k] == s[k]; }
        }
      }
      Decimal(init) * 10 + (s[|s| - 1] as int - '0' as int)
  }

  function Pow10(n: nat): nat
  {
    if n == 0 then 1 else 10 * Pow10(n - 1)
  }

  /** A string of n digits has a value in [0, 10^n), and at least 10^(n-1)
      when it does not start with '0'. */
  lemma {:induction false} DecimalBounds(s: string)
    requires AllDigits(s)
    ensures 0 <= Decimal(s) < Pow10(|s|)
    ensures |s| > 0 && s[0] != '0' ==> Pow10(|s| - 1) <= Decimal(s)
    decreases |s|
  {
    if s != [] {
      var init := s[..|s| - 1];
      assert AllDigits(init) by {
        forall k | 0 <= k < |init| ensures IsDigit(init[k]) { assert init[k] == s[k]; }
      }
      DecimalBounds(init);
      assert IsDigit(s[|s| - 1]);
      if |s| > 1 && s[0] != '0' {
        assert init[0] == s[0];
      }
    }
  }

  /** The comparison is numeric, not lexical: an upvote count with more
      digits and no leading zero is the larger one ("10" outranks "9"). */
  lemma LongerCountIsLarger(a: string, b: string)
    requires AllDigits(a) && AllDigits(b)
    requires |a| > |b| && a[0] != '0'
    ensures Decimal(a) > Decimal(b)
  {
    DecimalBounds(a);
    DecimalBounds(b);
    Pow10Monotone(|b|, |a| - 1);
  }

  lemma {:induction false} Pow10Monotone(m: nat, n: nat)
    requires m <= n
    ensures Pow10(m) <= Pow10(n)
    decreases n
  {
    if m < n { Pow10Monotone(m, n - 1); }
  }

  /** The sort key, `int(x['up'])`: for an upvote of n digits, a number in
      [0, 10^n). */
  function Key(x: Sub): (k: int)
    ensures AllDigits(x.up) ==> 0 <= k < Pow10(|x.up|)
  {
    assert AllDigits(x.up) ==> 0 <= Decimal(x.up) < Pow10(|x.up|) by {
      if AllDigits(x.up) { DecimalBounds(x.up); }
    }
    Decimal(x.up)
  }

  // ---------------------------------------------------------------------
  // The kept rows

  /** `re.search` of the row pattern on each line, in order. */
  function MatchAll(lines: seq<string>): (rows: seq<Option<Row>>)
    ensures |rows| == |lines|
  {
    seq(|lines|, i requires 0 <= i < |lines| => MatchRow(lines[i]))
  }

  /** A row is kept when the line matched and its language is exactly
      "English". */
  predicate IsEnglish(m: Option<Row>)
  {
    m.Some? && m.value.lang == English
  }

  /** What one line adds to `subs`. */
  function Kept(m: Option<Row>): seq<Sub>
  {
    if IsEnglish(m) then [Sub(m.value.up, m.value.link)] else []
  }

  /** `subs` after the loop, given each line's match. */
  function EnglishSubs(rows: seq<Option<Row>>): (r: seq<Sub>)
    ensures |r| <= |rows|
  {
    if rows == [] then []
    else EnglishSubs(rows[..|rows| - 1]) + Kept(rows[|rows| - 1])
  }

  /** No record is kept exactly when no line is English; then `subs[0]`
      raises IndexError. */
  lemma {:induction false} EnglishSubsEmpty(rows: seq<Option<Row>>)
    ensures EnglishSubs(rows) == [] <==> forall i :: 0 <= i < |rows| ==> !IsEnglish(rows[i])
    decreases |rows|
  {
    if rows != [] {
      var init := rows[..|rows| - 1];
      EnglishSubsEmpty(init);
      assert forall i :: 0 <= i < |init| ==> init[i] == rows[i];
    }
  }

  /** The kept rows of two stretches of lines are those of the first followed
      by those of the second: the listing order is kept. */
  lemma {:induction false} EnglishSubsAppend(a: seq<Option<Row>>, b: seq<Option<Row>>)
    ensures EnglishSubs(a + b) == EnglishSubs(a) + EnglishSubs(b)
    decreases |b|
  {
    if b == [] {
      assert a + b == a;
    } else {
      var init := b[..|b| - 1];
      assert (a + b)[..|a + b| - 1] == a + init;
      EnglishSubsAppend(a, init);
    }
  }

  /** A line that does not match, or whose language is not "English", is
      skipped: it changes nothing wherever it stands. */
  lemma OtherLineSkipped(a: seq<Option<Row>>, m: Option<Row>, b: seq<Option<Row>>)
    requires !IsEnglish(m)
    ensures EnglishSubs(a + [m] + b) == EnglishSubs(a + b)
  {
    EnglishSubsAppend(a + [m], b);
    EnglishSubsAppend(a, b);
    assert (a + [m])[..|a|] == a;
  }

  /** The kept records are exactly the English rows: each comes from some
      English line, and every English line gives one. */
  lemma {:induction false} EnglishSubsMembers(rows: seq<Option<Row>>, x: Sub)
    ensures x in EnglishSubs(rows) <==>
            exists i :: 0 <= i < |rows| && IsEnglish(rows[i]) && x == Sub(rows[i].value.up, rows[i].value.link)
    decreases |rows|
  {
    if rows != [] {
      var init := rows[..|rows| - 1];
      EnglishSubsMembers(init, x);
      assert forall i :: 0 <= i < |init| ==> init[i] == rows[i];
    }
  }

  /** Every kept upvote count is a non-empty run of digits, so `int` accepts
      it and its value is at least 0. */
  lemma {:induction false} KeptCountsAreNumbers(lines: seq<string>)
    ensures forall x :: x in EnglishSubs(MatchAll(lines)) ==> |x.up| > 0 && AllDigits(x.up) && Key(x) >= 0
    decreases |lines|
  {
    if lines != [] {
      var init := lines[..|lines| - 1];
      KeptCountsAreNumbers(init);
      assert MatchAll(lines)[..|lines| - 1] == MatchAll(init);
      var row := MatchRow(lines[|lines| - 1]);
      if row.Some? { DecimalBounds(row.value.up); }
    }
  }

  /** One more line adds what it keeps at the end. */
  lemma EnglishSubsStep(rows: seq<Option<Row>>, i: nat)
    requires i < |rows|
    ensures EnglishSubs(rows[..i + 1]) == EnglishSubs(rows[..i]) + Kept(rows[i])
  {
    assert rows[..i + 1][..i] == rows[..i];
  }

  /** The body of the loop for one line's match: append the record when the
      line matched with language "English". */
  method KeepRow(subs: seq<Sub>, m: Option<Row>) returns (subs': seq<Sub>)
    ensures subs' == subs + Kept(m)
    ensures IsEnglish(m) <==> |subs'| == |subs| + 1
  {
    subs' := subs;
    if m.Some? {
      var row := m.value;
      if row.lang == English {
        subs' := subs + [Sub(row.up, row.link)];
      }
    }
  }

  /** The loop of `get_subtitles` that builds `subs`. */
  method CollectEnglish(lines: seq<string>) returns (subs: seq<Sub>)
    ensures subs == EnglishSubs(MatchAll(lines))
  {
    ghost var rows := MatchAll(lines);
    subs := [];
    var i := 0;
    while i < |lines|
      invariant 0 <= i <= |lines|
      invariant subs == EnglishSubs(rows[..i])
    {
      var m := MatchRow(lines[i]);
      assert m == rows[i];
      subs := KeepRow(subs, m);
      EnglishSubsStep(rows, i);
      i := i + 1;
    }
    assert rows[..i] == rows;
  }
}
