/** Stage 1 of yify/__init__.py (`search_subtitle`): the movie page link is
    the first match of `(\/movie-imdb\/.+)\)` in the normalised search page,
    found with Python's `re.search`. */
module SearchLink {
  import opened Text

  const MovieImdb: string := "/movie-imdb/"

  /** A match of the search pattern: "/movie-imdb/" at `start`, then a
      non-empty run of non-newline characters, then the ')' at `close`.
      Group 1 is s[start..close]. */
  datatype LinkSpan = LinkSpan(start: nat, close: nat)

  ghost predicate IsLinkMatch(s: string, m: LinkSpan)
  {
    && m.start + |MovieImdb| < m.close < |s|
    && s[m.start..m.start + |MovieImdb|] == MovieImdb
    && NoNewline(s, m.start + |MovieImdb|, m.close)
    && s[m.close] == ')'
  }

  /** The order in which backtracking tries matches: leftmost start first, and
      for one start the greedy `.+` tries the furthest ')' first. */
  ghost predicate TriedFirst(m: LinkSpan, m': LinkSpan)
  {
    m.start < m'.start || (m.start == m'.start && m.close >= m'.close)
  }

  /** The match `re.search` settles on when it starts at p, if any. */
  function LinkAt(s: string, p: nat): (r: Option<nat>)
    requires p <= |s|
    ensures r.Some? ==> IsLinkMatch(s, LinkSpan(p, r.value))
    ensures r.Some? ==> forall q: nat :: IsLinkMatch(s, LinkSpan(p, q)) ==> q <= r.value
    ensures r.None? ==> forall q: nat :: !IsLinkMatch(s, LinkSpan(p, q))
  {
    var body := p + |MovieImdb|;
    if body <= |s| && s[p..body] == MovieImdb then
      var e := LineEnd(s, body);
      if body + 1 <= e then
        var r := LastIndexOf(s, ')', body + 1, e);
        assert forall q: nat :: IsLinkMatch(s, LinkSpan(p, q)) ==> q < e by {
          forall q: nat | IsLinkMatch(s, LinkSpan(p, q)) ensures q < e {
            WithinLine(s, body, q);
            assert s[q] != '\n';
          }
        }
        r
      else
        assert forall q: nat :: IsLinkMatch(s, LinkSpan(p, q)) ==> s[body] != '\n';
        None
    else
      None
  }

  /** `re.search` started at p: the first match tried at or after p. */
  function LinkFrom(s: string, p: nat): (r: Option<LinkSpan>)
    requires p <= |s|
    ensures r.Some? ==> IsLinkMatch(s, r.value) && p <= r.value.start
    ensures r.Some? ==> forall m :: IsLinkMatch(s, m) && p <= m.start ==> TriedFirst(r.value, m)
    ensures r.None? ==> forall m :: IsLinkMatch(s, m) ==> m.start < p
    decreases |s| - p
  {
    if p == |s| then None
    else
      match LinkAt(s, p)
      case Some(q) => Some(LinkSpan(p, q))
      case None => LinkFrom(s, p + 1)
  }

  /** `m = re.search(r'(\/movie-imdb\/.+)\)', text)` followed by `m.group(1)`:
      the capture of the first match, or None when the page has no match (and
      the pipeline stops there). */
  function MovieLink(text: string): (r: Option<string>)
    ensures r.None? <==> forall m :: !IsLinkMatch(text, m)
    ensures r.Some? ==> exists m :: IsLinkMatch(text, m) && r.value == text[m.start..m.close]
                                   && forall m' :: IsLinkMatch(text, m') ==> TriedFirst(m, m')
  {
    match LinkFrom(text, 0)
    case Some(m) => Some(text[m.start..m.close])
    case None => None
  }

  /** The capture of any match starts with "/movie-imdb/", continues with
      at least one character, and lies on one line. */
  lemma CaptureShape(s: string, m: LinkSpan)
    requires IsLinkMatch(s, m)
    ensures var link := s[m.start..m.close];
            |link| > |MovieImdb| && link[..|MovieImdb|] == MovieImdb && '\n' !in link
  {
    var link := s[m.start..m.close];
    var n := |MovieImdb|;
    assert link[..n] == MovieImdb by {
      assert forall k :: 0 <= k < n ==> link[..n][k] == s[m.start..m.start + n][k];
    }
    forall k | 0 <= k < |link| ensures link[k] != '\n' {
      if k < n { assert link[k] == MovieImdb[k]; }
      else { assert link[k] == s[m.start + k]; }
    }
  }

  /** The captured link starts with "/movie-imdb/", continues with at least
      one character, and lies on one line. */
  lemma MovieLinkShape(text: string)
    requires MovieLink(text).Some?
    ensures var link := MovieLink(text).value;
            |link| > |MovieImdb| && link[..|MovieImdb|] == MovieImdb && '\n' !in link
  {
    var m :| IsLinkMatch(text, m) && MovieLink(text).value == text[m.start..m.close];
    CaptureShape(text, m);
  }
}
