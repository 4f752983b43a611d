# yify subtitle fetcher — a Dafny model of its extraction pipeline

`yify` is a command-line tool. Given a movie query, it does the following:

1. It fetches the yifysubtitles.com search page for the query, as text produced by html2text.
2. It takes the first movie link (`/movie-imdb/...`) from that page.
3. It fetches the movie page and reads the subtitle listing line by line.
4. It keeps the rows whose language is exactly `English`.
5. It sorts the kept rows by upvote count, highest first, with Python's stable sort, and follows the first one.
6. On that subtitle's page it finds the `[Download subtitle](...)` link. In the text this link is wrapped across one line break, which the tool removes.
7. It saves the archive under the link's last `/`-segment, then unpacks and deletes it.

The model covers everything from the page texts to the chosen archive link and file name.

- **Regex matches**: every one of the three regular expressions is modelled as a hand-written matcher that follows Python's `re.search`:
  - the leftmost start wins;
  - a greedy group prefers its longest extent and a lazy group its shortest;
  - `.` stops at `\n`.
  
  Each matcher has two pieces:
  - a ghost predicate saying which spans match;
  - a predicate giving the order in which backtracking tries them.
  
  The matcher's contract says that it returns the first match in that order, or nothing exactly when no span matches.
- **Sort**: the ranking sort is an in-place insertion sort on an array. It is proved equal to a functional stable sort, and the sort's properties are proved about that function.
- **Network**: the site is a parameter `site(url)`, which stands for `get(url)`. Each pipeline method returns the URLs it fetches, in order, and how the run ended.

Modules:

| module | file | models |
|---|---|---|
| `Text` | text.dfy | `str.splitlines()`, `str.replace('\n', '')`, line and character search helpers |
| `SearchLink` | search_link.dfy | `search_subtitle`'s pattern `(\/movie-imdb\/.+)\)` |
| `ListingRow` | listing_row.dfy | `get_subtitles`' row pattern `upvote(\d+).+\[(\w+) subtitle.*\((.*?)\)` and its groups |
| `Ranking` | ranking.dfy | the loop that keeps English rows, and `int(x['up'])` |
| `StableSort` | sorting.dfy | `subs.sort(key=..., reverse=True)` and `subs[0]` |
| `Download` | download.dfy | `get_subtitle`'s pattern `\[Download subtitle\]\((.*\n.*)\)`, the newline removal and the file name |
| `Pipeline` | pipeline.dfy | `search_subtitle`, `get_subtitles`, `get_subtitle` and `main` end to end |

## Behaviour worth knowing

These follow from the source as written; the contracts capture them.

- **Row regex backtracking.** In the row pattern, `.+` must consume at least one character before the `[`. Take a row whose `[` comes directly after the digits, such as `upvote12[English subtitle(x)`. There `\d+` gives back its last digit, and the upvote group is `1`. `ListingRow.RowAt` states this: the digit group ends at the end of the digit run, or one before the chosen `[`, whichever is earlier.
- **The `[` is the last one on the line** from which the rest of the pattern matches. This is because the greedy `.+` is tried furthest first. The link group is the text up to the first `)` after the last `(` that has a `)` after it.
- **The download pattern takes exactly one line break.** It is the first `\n` after the marker. The link ends at the last `)` on the following line.
- **Search hits are not deduplicated.** The first match of the search pattern on the search page is followed. A second movie on the same page is never looked at.
- **The download marker is case-sensitive.** It must read exactly `[Download subtitle]`; a page that writes the marker in another casing gives no download link, and the run stops. `Download.WrappedLinkRecovered` proves recovery for this casing.
- **No English subtitle.** When no row is English, `subs[0]` raises IndexError, and `main` turns it into the usage message. The model reports this as `Outcome.Usage`, and `Pipeline.RunWithoutEnglishRow` shows that no subtitle page is requested then.

## Model

| member | source | states |
|---|---|---|
| Text.SplitLines | yify/__init__.py:47 | no line holds a line boundary (Python's full set); the text is empty exactly when there are no lines |
| Text.SplitTerminated | yify/__init__.py:47 | splitting a text written one line per `\n` gives back exactly those lines |
| Text.SplitLastLine | yify/__init__.py:47 | a last line without a line ending is still a line of its own |
| Text.SplitAtBreak | yify/__init__.py:47 | a boundary-free line, any one boundary character (`\n`, `\r` not followed by `\n`, `\v`, `\f`, `\x1c`-`\x1e`, `\x85`, `\u2028`, `\u2029`) and a rest split into that line, then the lines of the rest |
| Text.SplitAtCrLf | yify/__init__.py:47 | `\r\n` ends one line, not two: a line, `\r\n` and a rest split into that line, then the lines of the rest |
| Text.RemoveNewlines | yify/__init__.py:74 | the result holds no `\n` and is no longer than the input |
| Text.RemoveNewlinesKeeps | yify/__init__.py:74 | a text without `\n` is left unchanged |
| Text.RemoveNewlinesAppend | yify/__init__.py:74 | removing newlines distributes over concatenation |
| Text.JoinAcrossBreak | yify/__init__.py:74 | removing the one `\n` between two newline-free halves joins them |
| SearchLink.LinkAt | yify/__init__.py:33 | from a start p, the match uses the furthest `)` on the line (greedy `.+`), or there is no match from p |
| SearchLink.LinkFrom | yify/__init__.py:33 | the result is a match at or after p that precedes every other such match in backtracking order; None exactly when none exists |
| SearchLink.MovieLink | yify/__init__.py:33-34 | None exactly when the page has no match; otherwise group 1 of the first match tried |
| SearchLink.CaptureShape | yify/__init__.py:33-34 | the group of any match starts with `/movie-imdb/`, has at least one more character and holds no `\n` |
| SearchLink.MovieLinkShape | yify/__init__.py:33-36 | the followed link starts with `/movie-imdb/`, has at least one more character and lies on one line |
| ListingRow.TailAt | yify/__init__.py:49 | from a `[`, the match of `\[(\w+) subtitle.*\((.*?)\)` that is tried first: longest word, last `(`, nearest `)`; None exactly when none exists |
| ListingRow.TailAfterWord | yify/__init__.py:49 | once `[`, the word and ` subtitle` have matched: the last `(` before the line's last `)`, then the first `)` after it; None exactly when no `(` on the line has a `)` after it |
| ListingRow.TailAtDecides | yify/__init__.py:49 | TailAt finds a tail exactly when the rest of the pattern matches from that `[` |
| ListingRow.LastBracket | yify/__init__.py:49 | the last position in a range from which the rest of the pattern matches, or None when there is none |
| ListingRow.RowParts | yify/__init__.py:49 | in any match, the digit group ends within the digit run after `upvote`, and the `[` lies on the same line with the rest of the pattern matching from it |
| ListingRow.RowAt | yify/__init__.py:49 | from a start p, the match tried first (most digits, then furthest `[`, then the tail's order), or no match from p |
| ListingRow.RowFrom | yify/__init__.py:49 | the first match tried at or after p; None exactly when none exists |
| ListingRow.Groups | yify/__init__.py:49-53 | none of the three groups of a match holds `\n` |
| ListingRow.GroupsShape | yify/__init__.py:49-53 | in any match the upvote group is a non-empty run of digits and the language group a non-empty word |
| ListingRow.MatchRow | yify/__init__.py:49-53 | a matched row's upvote is non-empty digits and its language a non-empty word |
| ListingRow.MatchRowIsFirstMatch | yify/__init__.py:49-53 | a line gives no row exactly when the pattern matches nowhere in it; otherwise the row holds the groups of the first match backtracking tries |
| Ranking.Decimal | yify/__init__.py:61 | `int` of a digit string is at least 0; its last digit is the value's remainder mod 10, and the rest of the string gives the quotient |
| Ranking.Key | yify/__init__.py:61 | the sort key of a record with an n-digit upvote lies in [0, 10^n) |
| Ranking.DecimalBounds | yify/__init__.py:61 | `int` of n digits lies in [0, 10^n), and is at least 10^(n-1) without a leading zero |
| Ranking.LongerCountIsLarger | yify/__init__.py:61 | the key is numeric, not lexical: more digits without a leading zero is a larger count |
| Ranking.EnglishSubs | yify/__init__.py:45-59 | at most one record is kept per line |
| Ranking.EnglishSubsEmpty | yify/__init__.py:45-64 | no record is kept exactly when no line matched with language `English`, the case in which `subs[0]` raises IndexError |
| Ranking.EnglishSubsAppend | yify/__init__.py:45-59 | the rows kept from two stretches of lines are those of the first, then those of the second |
| Ranking.OtherLineSkipped | yify/__init__.py:50-55 | a line that does not match, or is not `English`, changes nothing wherever it stands |
| Ranking.EnglishSubsStep | yify/__init__.py:50-55 | one more line adds its record at the end when it is English, and nothing otherwise |
| Ranking.EnglishSubsMembers | yify/__init__.py:47-59 | a record is kept exactly when some line matched with language `English` and gave that upvote and link |
| Ranking.KeptCountsAreNumbers | yify/__init__.py:49-61 | every kept upvote is a non-empty digit string, so `int` accepts it and the key is at least 0 |
| Ranking.KeepRow | yify/__init__.py:50-55 | one iteration appends exactly the record of an English match; the list grows exactly when the line is English |
| Ranking.CollectEnglish | yify/__init__.py:45-59 | the loop builds exactly the kept records of the lines' matches, in listing order |
| StableSort.InsertPermutes | yify/__init__.py:61 | inserting adds the element and loses nothing |
| StableSort.InsertSorted | yify/__init__.py:61 | insertion keeps the order; the head changes only when the new element outranks it |
| StableSort.SortDesc | yify/__init__.py:61 | the result is ordered by key, highest first, and as long as the input |
| StableSort.SortDescPermutes | yify/__init__.py:61 | the result is a permutation of the input |
| StableSort.SortDescStable | yify/__init__.py:61 | elements with equal keys keep their input order |
| StableSort.SortedByKeyUnique | yify/__init__.py:61 | two sequences ordered by key whose elements agree key by key, in order, are equal, so any stable descending sort gives the same list as SortDesc |
| StableSort.FirstMax | yify/__init__.py:61-64 | the first index holding the highest key |
| StableSort.SortDescHead | yify/__init__.py:61-64 | `subs[0]` after the sort is the first element, in input order, with the highest key |
| StableSort.InsertAt | yify/__init__.py:61 | insertion places x after the last element whose key is at least x's |
| StableSort.InsertInPlace | yify/__init__.py:61 | one pass on the array leaves the prefix with `a[i]` inserted and the rest unchanged |
| StableSort.SortInPlace | yify/__init__.py:61 | the array ends up holding SortDesc of its old contents |
| Download.DownloadAt | yify/__init__.py:71 | from a start p, the match uses the first `\n` after the marker and the last `)` on the next line, or there is no match from p |
| Download.DownloadParts | yify/__init__.py:71 | in any match the line break is the first `\n` after the marker and the `)` lies on the following line |
| Download.DownloadFrom | yify/__init__.py:71 | the first match tried at or after p; None exactly when none exists |
| Download.DownloadLink | yify/__init__.py:71-74 | None exactly when the page has no match; otherwise the text before the break followed by the text after it, with no `\n` |
| Download.WrappedMatches | yify/__init__.py:71 | a marker, a newline-free half, `\n`, another half and `)` form a match whose halves are those two |
| Download.OnlyFirstMatch | yify/__init__.py:71 | a match tried no later than the one closing at the page's last character and starting at 0 is that match |
| Download.WrappedLinkRecovered | yify/__init__.py:71-74 | a link wrapped once after the marker comes back unwrapped |
| Download.FileName | yify/__init__.py:78 | a suffix of the link without `/`, which is the whole link or follows a `/` |
| Download.FileNameOfPath | yify/__init__.py:78 | the file name of `dir/name` is `name` |
| Pipeline.SubtitleTrace | yify/__init__.py:67-82 | `get_subtitle` requests the subtitle page; with no download link it stops there; otherwise it requests the link itself (no newline in it) and saves under its last segment (no `/` in it) |
| Pipeline.GetSubtitle | yify/__init__.py:67-82 | the requests made and the outcome are SubtitleTrace's |
| Pipeline.SortedHeadIsBest | yify/__init__.py:61-64 | after the sort, `subs[0]` is the first record with the highest count and no record has a higher one |
| Pipeline.SubtitlesTrace | yify/__init__.py:39-64 | `get_subtitles` requests the movie page; with no English row it ends in the usage exit and requests nothing more; otherwise it goes on as `get_subtitle` on the first English row with the highest count, and no row has a higher one |
| Pipeline.GetSubtitles | yify/__init__.py:39-64 | the requests made and the outcome are SubtitlesTrace's |
| Pipeline.SearchTrace | yify/__init__.py:28-36 | `search_subtitle` requests `/search?q=<query>`; it stops when no movie link is found (the only way to end with NoMovieLink), otherwise it goes on as `get_subtitles` on the base URL plus that link |
| Pipeline.SearchSubtitle | yify/__init__.py:28-36 | the requests made and the outcome are SearchTrace's |
| Pipeline.RunTrace | yify/__init__.py:92-96 | without a first argument the run ends in the usage exit and requests nothing, and only then; otherwise it is the search for `argv[1]` |
| Pipeline.Run | yify/__init__.py:92-96 | the requests made and the outcome are RunTrace's |
| Pipeline.SubtitlesWithoutLink | yify/__init__.py:39-72 | when the chosen subtitle page has no download link, `get_subtitles` requests exactly the movie page and that page |
| Pipeline.SubtitlesWithLink | yify/__init__.py:39-82 | when it has one, `get_subtitles` requests the movie page, that page and the archive link, and saves under the link's last segment |
| Pipeline.SearchThenSubtitles | yify/__init__.py:28-36 | once a movie link is found, the search page is requested first, then whatever `get_subtitles` requests |
| Pipeline.RunWithoutQuery | yify/__init__.py:92-96 | no query: usage exit, nothing requested |
| Pipeline.RunWithoutMovie | yify/__init__.py:28-36 | no movie link: only the search page is requested |
| Pipeline.RunWithoutEnglishRow | yify/__init__.py:39-64 | no English row: the search and movie pages are requested, then the usage exit; no subtitle page is requested |
| Pipeline.RunWithoutDownload | yify/__init__.py:28-72 | no download link: the search, movie and chosen subtitle pages are requested, and nothing is saved |
| Pipeline.RunDownloads | yify/__init__.py:28-82 | a full run requests the search page, the movie page, the page of the first English row with the highest count and that page's download link, and saves under the link's last segment |

## Left out

- HTTP and html2text: `get(url)` is the parameter `site`. HTTP errors from `raise_for_status`, and other transport failures, are not modelled.
- The progress `print`, the archive write, the zip extraction and `os.remove` are not modelled. These are file-system effects. The model stops at the archive link and the file name it would be saved under.
- `\d` and `\w` are modelled as ASCII digits and ASCII letters, digits and `_`. Python's `re` on `str` also accepts other Unicode digits and letters, and `int()` also accepts non-ASCII digits.
- `sys.exit` and process status are left out. The usage exit is the outcome `Usage`.
- Exceptions other than the IndexError that `main` catches are not modelled. An example is an unreadable archive.
- The sort is an insertion sort, not CPython's Timsort. `StableSort.SortedByKeyUnique` shows that every stable descending sort gives the same list, so the result is the same.
- The query is placed into the search URL unescaped, as the source does. URL encoding by the HTTP library is not modelled.
