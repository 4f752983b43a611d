/** The command of yify/__init__.py end to end: search the site for the
    movie, open the movie page, pick the English subtitle with the most
    upvotes, open its page and find the archive link.

    The site is a parameter: `site(url)` is the text `get(url)` returns
    (the page after html2text). Each stage records the URLs it requests, in
    order; the last one, when there is one, is the archive that would be
    saved under `fileName`, unpacked and removed. */
module Pipeline {
  import opened Text
  import opened SearchLink
  import opened ListingRow
  import opened Ranking
  import opened StableSort
  import opened Download

  const BaseUrl: string := "http://www.yifysubtitles.com"

  /** How a run ends. NoMovieLink and NoDownloadLink are the two silent
      returns; Usage is the usage message, reached through IndexError;
      Downloaded names the archive link and the file it is saved as. */
  datatype Outcome =
    | NoMovieLink
    | NoDownloadLink
    | Usage
    | Downloaded(link: string, fileName: string)

  /** A run's record: the URLs requested, in order, and how it ended. */
  datatype Trace = Trace(fetched: seq<string>, outcome: Outcome)

  /** What `get_subtitle(url)` does: fetch the subtitle page; when it has a
      download link, fetch the archive at that link (not prefixed with the
      base URL) and save it under the link's last segment. */
  function SubtitleTrace(url: string, site: string -> string): (t: Trace)
    ensures |t.fetched| >= 1 && t.fetched[0] == BaseUrl + url
    ensures DownloadLink(site(BaseUrl + url)).None? <==> t.outcome == NoDownloadLink
    ensures t.outcome == NoDownloadLink ==> t.fetched == [BaseUrl + url]
    ensures t.outcome != NoDownloadLink ==>
              var link := DownloadLink(site(BaseUrl + url)).value;
              && t.outcome == Downloaded(link, FileName(link))
              && t.fetched == [BaseUrl + url, link]
    ensures t.outcome.Downloaded? ==> '\n' !in t.outcome.link && '/' !in t.outcome.fileName
                                      && t.outcome.link[|t.outcome.link| - |t.outcome.fileName|..] == t.outcome.fileName
  {
    var page := BaseUrl + url;
    match DownloadLink(site(page))
    case Some(link) =>
      var name := FileName(link);
      assert '\n' !in link && '/' !in name && link[|link| - |name|..] == name;
      Trace([page, link], Downloaded(link, name))
    case None => Trace([page], NoDownloadLink)
  }

  /** `get_subtitle(url)`. */
  method GetSubtitle(url: string, site: string -> string) returns (fetched: seq<string>, outcome: Outcome)
    ensures Trace(fetched, outcome) == SubtitleTrace(url, site)
  {
    var page := BaseUrl + url;
    var text := site(page);
    var m := DownloadLink(text);
    if m.Some? {
      var link := m.value;
      var fileName := FileName(link);
      fetched := [page, link];
      outcome := Downloaded(link, fileName);
    } else {
      fetched := [page];
      outcome := NoDownloadLink;
    }
  }

  /** The English rows of a movie page, in listing order. */
  function PageSubs(text: string): seq<Sub>
  {
    EnglishSubs(MatchAll(SplitLines(text)))
  }

  /** After the sort, `subs[0]` is the first record, in listing order,
      with the highest count, and no record has a higher one. */
  lemma SortedHeadIsBest(subs: seq<Sub>)
    requires subs != []
    ensures var best := subs[FirstMax(subs, Key)];
            && SortDesc(subs, Key)[0] == best
            && forall x :: x in subs ==> Key(x) <= Key(best)
  {
    SortDescHead(subs, Key);
  }

  /** What `get_subtitles(url)` does: collect the English rows, sort them
      by upvote count, highest first, and go on as `get_subtitle` on the
      first one; with no English row, `subs[0]` raises IndexError and the
      run ends with the usage message. The subtitle followed is the first
      English row, in listing order, with the highest count. */
  function SubtitlesTrace(url: string, site: string -> string): (t: Trace)
    ensures |t.fetched| >= 1 && t.fetched[0] == url
    ensures t.outcome != NoMovieLink
    ensures PageSubs(site(url)) == [] <==> t.outcome == Usage
    ensures t.outcome == Usage ==> t.fetched == [url]
    ensures t.outcome != Usage ==>
              var subs := PageSubs(site(url));
              var best := subs[FirstMax(subs, Key)];
              var rest := SubtitleTrace(best.link, site);
              && t == Trace([url] + rest.fetched, rest.outcome)
              && (forall x :: x in subs ==> Key(x) <= Key(best))
  {
    var subs := PageSubs(site(url));
    if subs == [] then Trace([url], Usage)
    else
      SortedHeadIsBest(subs);
      var rest := SubtitleTrace(SortDesc(subs, Key)[0].link, site);
      Trace([url] + rest.fetched, rest.outcome)
  }

  /** `get_subtitles(url)`: the rows are copied into an array, sorted in
      place, and the first is followed. */
  method GetSubtitles(url: string, site: string -> string) returns (fetched: seq<string>, outcome: Outcome)
    ensures Trace(fetched, outcome) == SubtitlesTrace(url, site)
  {
    var text := site(url);
    var subs := CollectEnglish(SplitLines(text));
    var a := new Sub[|subs|](i requires 0 <= i < |subs| => subs[i]);
    assert a[..] == subs;
    SortInPlace(a, Key);
    if a.Length == 0 {
      fetched, outcome := [url], Usage;
    } else {
      assert a[0] == SortDesc(subs, Key)[0];
      var rest;
      rest, outcome := GetSubtitle(a[0].link, site);
      fetched := [url] + rest;
    }
  }

  /** What `search_subtitle(query)` does: fetch the search page for the
      query (put into the URL as it is) and go on as `get_subtitles` on the
      first movie link. */
  function SearchTrace(query: string, site: string -> string): (t: Trace)
    ensures var search := BaseUrl + "/search?q=" + query;
            var movie := MovieLink(site(search));
            && |t.fetched| >= 1 && t.fetched[0] == search
            && (movie.None? <==> t.outcome == NoMovieLink)
            && (movie.None? ==> t.fetched == [search])
            && (movie.Some? ==>
                  var rest := SubtitlesTrace(BaseUrl + movie.value, site);
                  t == Trace([search] + rest.fetched, rest.outcome))
  {
    var search := BaseUrl + "/search?q=" + query;
    match MovieLink(site(search))
    case Some(link) =>
      var rest := SubtitlesTrace(BaseUrl + link, site);
      Trace([search] + rest.fetched, rest.outcome)
    case None => Trace([search], NoMovieLink)
  }

  /** `search_subtitle(query)`. */
  method SearchSubtitle(query: string, site: string -> string) returns (fetched: seq<string>, outcome: Outcome)
    ensures Trace(fetched, outcome) == SearchTrace(query, site)
  {
    var search := BaseUrl + "/search?q=" + query;
    var text := site(search);
    var m := MovieLink(text);
    if m.Some? {
      var rest;
      rest, outcome := GetSubtitles(BaseUrl + m.value, site);
      fetched := [search] + rest;
    } else {
      fetched, outcome := [search], NoMovieLink;
    }
  }

  /** What `main()` does with the command line `argv`: without a first
      argument, `sys.argv[1]` raises IndexError and the run ends with the
      usage message before anything is fetched. */
  function RunTrace(argv: seq<string>, site: string -> string): (t: Trace)
    ensures |argv| < 2 <==> t.fetched == []
    ensures |argv| < 2 ==> t.outcome == Usage
    ensures |argv| >= 2 ==> t == SearchTrace(argv[1], site)
  {
    if |argv| < 2 then Trace([], Usage) else SearchTrace(argv[1], site)
  }

  /** `main()`. */
  method Run(argv: seq<string>, site: string -> string) returns (fetched: seq<string>, outcome: Outcome)
    ensures Trace(fetched, outcome) == RunTrace(argv, site)
  {
    if |argv| < 2 {
      fetched, outcome := [], Usage;
    } else {
      fetched, outcome := SearchSubtitle(argv[1], site);
    }
  }

  // Requests of a later stage follow those of an earlier one.

  lemma PrependToOne<T>(a: T, b: T)
    ensures [a] + [b] == [a, b]
  {
  }

  lemma PrependToTwo<T>(a: T, b: T, c: T)
    ensures [a] + [b, c] == [a, b, c]
  {
  }

  lemma PrependToThree<T>(a: T, b: T, c: T, d: T)
    ensures [a] + [b, c, d] == [a, b, c, d]
  {
  }

  /** `get_subtitles` when the movie page has an English row but the
      chosen subtitle page has no download link: two pages are requested
      and the run ends there. */
  lemma SubtitlesWithoutLink(url: string, site: string -> string)
    requires PageSubs(site(url)) != []
    requires var subs := PageSubs(site(url));
             DownloadLink(site(BaseUrl + subs[FirstMax(subs, Key)].link)).None?
    ensures var subs := PageSubs(site(url));
            SubtitlesTrace(url, site)
              == Trace([url, BaseUrl + subs[FirstMax(subs, Key)].link], NoDownloadLink)
  {
    var subs := PageSubs(site(url));
    var last := SubtitleTrace(subs[FirstMax(subs, Key)].link, site);
    PrependToOne(url, last.fetched[0]);
  }

  /** `get_subtitles` when the chosen subtitle page has a download link:
      the movie page, the subtitle page and the archive are requested, and
      the archive is saved under the link's last segment. */
  lemma SubtitlesWithLink(url: string, site: string -> string)
    requires PageSubs(site(url)) != []
    requires var subs := PageSubs(site(url));
             DownloadLink(site(BaseUrl + subs[FirstMax(subs, Key)].link)).Some?
    ensures var subs := PageSubs(site(url));
            var page := BaseUrl + subs[FirstMax(subs, Key)].link;
            var link := DownloadLink(site(page)).value;
            SubtitlesTrace(url, site) == Trace([url, page, link], Downloaded(link, FileName(link)))
  {
    var subs := PageSubs(site(url));
    var last := SubtitleTrace(subs[FirstMax(subs, Key)].link, site);
    PrependToTwo(url, last.fetched[0], last.fetched[1]);
  }

  /** `search_subtitle` followed by `get_subtitles`, once a movie link is
      found: the search page comes first, then whatever the movie stage
      requests. */
  lemma SearchThenSubtitles(query: string, site: string -> string)
    requires MovieLink(site(BaseUrl + "/search?q=" + query)).Some?
    ensures var search := BaseUrl + "/search?q=" + query;
            var rest := SubtitlesTrace(BaseUrl + MovieLink(site(search)).value, site);
            SearchTrace(query, site) == Trace([search] + rest.fetched, rest.outcome)
  {
  }

  // ---------------------------------------------------------------------
  // A whole run, case by case, in terms of the pages the site serves. The
  // cases cover every command line and every site, and end in different
  // outcomes.

  /** Without a query the run ends with the usage message and requests
      nothing. */
  lemma RunWithoutQuery(argv: seq<string>, site: string -> string)
    requires |argv| < 2
    ensures RunTrace(argv, site) == Trace([], Usage)
  {
  }

  /** A search page without a movie link ends the run after that one
      request. */
  lemma RunWithoutMovie(argv: seq<string>, site: string -> string)
    requires |argv| >= 2 && MovieLink(site(BaseUrl + "/search?q=" + argv[1])).None?
    ensures RunTrace(argv, site) == Trace([BaseUrl + "/search?q=" + argv[1]], NoMovieLink)
  {
  }

  /** A movie page without an English row gives the usage message; no
      subtitle page is requested. */
  lemma RunWithoutEnglishRow(argv: seq<string>, site: string -> string)
    requires |argv| >= 2
    requires var movie := MovieLink(site(BaseUrl + "/search?q=" + argv[1]));
             movie.Some? && PageSubs(site(BaseUrl + movie.value)) == []
    ensures var search := BaseUrl + "/search?q=" + argv[1];
            var moviePage := BaseUrl + MovieLink(site(search)).value;
            RunTrace(argv, site) == Trace([search, moviePage], Usage)
  {
    var search := BaseUrl + "/search?q=" + argv[1];
    var moviePage := BaseUrl + MovieLink(site(search)).value;
    SearchThenSubtitles(argv[1], site);
    PrependToOne(search, moviePage);
  }

  /** With an English row but no download link on the chosen subtitle
      page, the run requests three pages and saves nothing. */
  lemma RunWithoutDownload(argv: seq<string>, site: string -> string)
    requires |argv| >= 2
    requires var movie := MovieLink(site(BaseUrl + "/search?q=" + argv[1]));
             && movie.Some?
             && var subs := PageSubs(site(BaseUrl + movie.value));
                && subs != []
                && DownloadLink(site(BaseUrl + subs[FirstMax(subs, Key)].link)).None?
    ensures var search := BaseUrl + "/search?q=" + argv[1];
            var moviePage := BaseUrl + MovieLink(site(search)).value;
            var subs := PageSubs(site(moviePage));
            var page := BaseUrl + subs[FirstMax(subs, Key)].link;
            RunTrace(argv, site) == Trace([search, moviePage, page], NoDownloadLink)
  {
    var search := BaseUrl + "/search?q=" + argv[1];
    var moviePage := BaseUrl + MovieLink(site(search)).value;
    var subs := PageSubs(site(moviePage));
    var page := BaseUrl + subs[FirstMax(subs, Key)].link;
    SearchThenSubtitles(argv[1], site);
    SubtitlesWithoutLink(moviePage, site);
    PrependToTwo(search, moviePage, page);
  }

  /** The full run: the search page, the movie page, the subtitle page of
      the first English row with the highest count, and the archive at that
      page's download link, saved under the link's last segment. */
  lemma RunDownloads(argv: seq<string>, site: string -> string)
    requires |argv| >= 2
    requires var movie := MovieLink(site(BaseUrl + "/search?q=" + argv[1]));
             && movie.Some?
             && var subs := PageSubs(site(BaseUrl + movie.value));
                && subs != []
                && DownloadLink(site(BaseUrl + subs[FirstMax(subs, Key)].link)).Some?
    ensures var search := BaseUrl + "/search?q=" + argv[1];
            var moviePage := BaseUrl + MovieLink(site(search)).value;
            var subs := PageSubs(site(moviePage));
            var page := BaseUrl + subs[FirstMax(subs, Key)].link;
            var link := DownloadLink(site(page)).value;
            RunTrace(argv, site) == Trace([search, moviePage, page, link], Downloaded(link, FileName(link)))
  {
    var search := BaseUrl + "/search?q=" + argv[1];
    var moviePage := BaseUrl + MovieLink(site(search)).value;
    var subs := PageSubs(site(moviePage));
    var page := BaseUrl + subs[FirstMax(subs, Key)].link;
    var link := DownloadLink(site(page)).value;
    var mid := SubtitlesTrace(moviePage, site);
    SubtitlesWithLink(moviePage, site);
    assert mid.fetched == [moviePage, page, link];
    SearchThenSubtitles(argv[1], site);
    assert RunTrace(argv, site) == Trace([search] + mid.fetched, mid.outcome);
    PrependToThree(search, moviePage, page, link);
  }
}
