/** Stage 3 of yify/__init__.py (`get_subtitle`): the download link is the
    first match of `\[Download subtitle\]\((.*\n.*)\)` in the whole detail
    page (so exactly one line break falls inside the captured link), with
    that line break removed; the archive is saved under the link's last
    `/`-segment. */
module Download {
  import opened Text

  /** The marker, with the site's exact casing, and the opening parenthesis. */
  const Marker: string := "[Download subtitle]("

  /** A match of the download pattern: the marker at `start`, then a run of
      non-newline characters, the '\n' at `brk`, another such run, and the ')'
      at `close`. Group 1 is s[start + |Marker|..close]. */
  datatype DownloadSpan = DownloadSpan(start: nat, brk: nat, close: nat)

  ghost predicate IsDownloadMatch(s: string, m: DownloadSpan)
  {
    && m.start + |Marker| <= m.brk < m.close < |s|
    && s[m.start..m.start + |Marker|] == Marker
    && NoNewline(s, m.start + |Marker|, m.brk)
    && s[m.brk] == '\n'
    && NoNewline(s, m.brk + 1, m.close)
    && s[m.close] == ')'
  }

  /** Backtracking order: leftmost start; then the first greedy `.*` tries
      the furthest line break; then the second one tries the furthest ')'. */
  ghost predicate TriedFirst(m: DownloadSpan, m': DownloadSpan)
  {
    || m.start < m'.start
    || (m.start == m'.start && m.brk > m'.brk)
    || (m.start == m'.start && m.brk == m'.brk && m.close >= m'.close)
  }

  /** In any match from p, the line break is the first '\n' after the
      marker and the ')' lies on the line after it. */
  lemma DownloadParts(s: string, m: DownloadSpan)
    requires IsDownloadMatch(s, m)
    ensures m.brk == LineEnd(s, m.start + |Marker|)
    ensures m.close < LineEnd(s, m.brk + 1)
  {
    WithinLine(s, m.start + |Marker|, m.brk);
    WithinLine(s, m.brk + 1, m.close);
  }

  /** The match `re.search` settles on when it starts at p, if any: the
      line break is the first one after the marker and the ')' the last one
      on the following line. */
  function DownloadAt(s: string, p: nat): (r: Option<DownloadSpan>)
    requires p <= |s|
    ensures r.Some? ==> IsDownloadMatch(s, r.value) && r.value.start == p
    ensures r.Some? ==> forall m :: IsDownloadMatch(s, m) && m.start == p ==> TriedFirst(r.value, m)
    ensures r.None? ==> forall m :: IsDownloadMatch(s, m) ==> m.start != p
  {
    var body := p + |Marker|;
    if body <= |s| && s[p..body] == Marker then
      var n := LineEnd(s, body);
      if n < |s| then
        var e := LineEnd(s, n + 1);
        assert forall m :: IsDownloadMatch(s, m) && m.start == p ==> m.brk == n && m.close < e by {
          forall m | IsDownloadMatch(s, m) && m.start == p ensures m.brk == n && m.close < e {
            DownloadParts(s, m);
          }
        }
        match LastIndexOf(s, ')', n + 1, e)
        case Some(c) => Some(DownloadSpan(p, n, c))
        case None => None
      else
        assert forall m :: IsDownloadMatch(s, m) && m.start == p ==> false by {
          forall m | IsDownloadMatch(s, m) && m.start == p ensures false {
            DownloadParts(s, m);
          }
        }
        None
    else
      None
  }

  /** `re.search` started at p: the first match tried at or after p. */
  function DownloadFrom(s: string, p: nat): (r: Option<DownloadSpan>)
    requires p <= |s|
    ensures r.Some? ==> IsDownloadMatch(s, r.value) && p <= r.value.start
    ensures r.Some? ==> forall m :: IsDownloadMatch(s, m) && p <= m.start ==> TriedFirst(r.value, m)
    ensures r.None? ==> forall m :: IsDownloadMatch(s, m) ==> m.start < p
    decreases |s| - p
  {
    if p == |s| then None
    else if DownloadAt(s, p).Some? then DownloadAt(s, p)
    else DownloadFrom(s, p + 1)
  }

  /** `m.group(1).replace('\n', '')` for the first match, or None when the
      page has no match (and nothing is downloaded). The link is the text
      before the line break followed by the text after it, and holds no
      newline. */
  function DownloadLink(text: string): (r: Option<string>)
    ensures r.None? <==> forall m :: !IsDownloadMatch(text, m)
    ensures r.Some? ==> '\n' !in r.value
    ensures r.Some? ==> exists m :: IsDownloadMatch(text, m)
                                   && (forall m' :: IsDownloadMatch(text, m') ==> TriedFirst(m, m'))
                                   && r.value == text[m.start + |Marker|..m.brk] + text[m.brk + 1..m.close]
  {
    match DownloadFrom(text, 0)
    case Some(m) =>
      var before, after := text[m.start + |Marker|..m.brk], text[m.brk + 1..m.close];
      assert text[m.brk..m.brk + 1] == "\n";
      assert text[m.start + |Marker|..m.close]
          == text[m.start + |Marker|..m.brk] + text[m.brk..m.brk + 1] + text[m.brk + 1..m.close];
      NoNewlineSlice(text, m.start + |Marker|, m.brk);
      NoNewlineSlice(text, m.brk + 1, m.close);
      JoinAcrossBreak(before, after);
      Some(RemoveNewlines(text[m.start + |Marker|..m.close]))
    case None => None
  }

  /** The page `Marker + a + "\n" + b + ")"` with newline-free halves
      matches, the marker at 0, the break after a and the ')' last, and its
      two halves are a and b. */
  lemma WrappedMatches(a: string, b: string)
    requires '\n' !in a && '\n' !in b
    ensures var s := Marker + a + "\n" + b + ")";
            var w := DownloadSpan(0, |Marker| + |a|, |s| - 1);
            && IsDownloadMatch(s, w)
            && s[w.start + |Marker|..w.brk] == a && s[w.brk + 1..w.close] == b
  {
    var s := Marker + a + "\n" + b + ")";
    var w := DownloadSpan(0, |Marker| + |a|, |s| - 1);
    assert s[..|Marker|] == Marker;
    assert s[|Marker|..|Marker| + |a|] == a;
    assert s[|Marker| + |a| + 1..|s| - 1] == b;
    assert NoNewline(s, |Marker|, w.brk) by {
      forall k | |Marker| <= k < w.brk ensures s[k] != '\n' { assert s[k] == a[k - |Marker|]; }
    }
    assert NoNewline(s, w.brk + 1, w.close) by {
      forall k | w.brk + 1 <= k < w.close ensures s[k] != '\n' { assert s[k] == b[k - w.brk - 1]; }
    }
  }

  /** A match tried no later than the wrapped one is the wrapped one: it
      starts at 0, breaks at the first '\n' and cannot close later than the
      last character. */
  lemma OnlyFirstMatch(s: string, w: DownloadSpan, m: DownloadSpan)
    requires IsDownloadMatch(s, w) && w.start == 0 && w.close == |s| - 1
    requires IsDownloadMatch(s, m) && TriedFirst(m, w)
    ensures m == w
  {
    DownloadParts(s, w);
    DownloadParts(s, m);
  }

  /** A page whose marker link was wrapped once, after the marker, yields the
      link unwrapped. */
  lemma WrappedLinkRecovered(a: string, b: string)
    requires '\n' !in a && '\n' !in b
    ensures DownloadLink(Marker + a + "\n" + b + ")") == Some(a + b)
  {
    var s := Marker + a + "\n" + b + ")";
    var w := DownloadSpan(0, |Marker| + |a|, |s| - 1);
    WrappedMatches(a, b);
    var r := DownloadLink(s);
    var m :| IsDownloadMatch(s, m) && (forall m' :: IsDownloadMatch(s, m') ==> TriedFirst(m, m'))
             && r.value == s[m.start + |Marker|..m.brk] + s[m.brk + 1..m.close];
    OnlyFirstMatch(s, w, m);
  }

  /** `link.split('/')[-1]`: the text after the last '/', or the whole link
      when it has none. It is a suffix of the link, holds no '/', and is
      either the whole link or preceded by a '/'. */
  function FileName(link: string): (name: string)
    ensures '/' !in name
    ensures |name| <= |link| && name == link[|link| - |name|..]
    ensures |name| < |link| ==> link[|link| - |name| - 1] == '/'
  {
    match LastIndexOf(link, '/', 0, |link|)
    case Some(i) =>
      var name := link[i + 1..];
      assert forall k :: 0 <= k < |name| ==> name[k] == link[i + 1 + k];
      name
    case None => link
  }

  /** The file name of "dir/name" is name, whatever dir holds. */
  lemma FileNameOfPath(dir: string, name: string)
    requires '/' !in name
    ensures FileName(dir + "/" + name) == name
  {
    var link := dir + "/" + name;
    var r := FileName(link);
    assert link[|dir|] == '/';
    assert forall k :: |dir| < k < |link| ==> link[k] != '/' by {
      forall k | |dir| < k < |link| ensures link[k] != '/' { assert link[k] == name[k - |dir| - 1]; }
    }
    assert forall k :: |link| - |r| <= k < |link| ==> link[k] != '/' by {
      forall k | |link| - |r| <= k < |link| ensures link[k] != '/' { assert link[k] == r[k - (|link| - |r|)]; }
    }
    assert |r| == |name|;
    assert link[|dir| + 1..] == name;
  }
}
