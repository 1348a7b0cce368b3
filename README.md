# tomatopy in Dafny

A model of the deterministic core of tomatopy, a scraper for Rotten Tomatoes
movie pages and Wikipedia's "year in film" lists. The model covers the logic
that sits between the network fetches and the regular-expression matches:

- **Settings** (`gl.dfy`, module `Globals`). `LibGlobalsContainer` is a class
  with the two fields the library updates in place: the custom crawl rate and
  the verbose flag. The rate setter rejects a rate that is not positive. The
  rate getter falls back to the default rate of 1 while no custom rate is set.
- **URL helpers** (`util.dfy`, module `Util`):
  - `_format_name` is a method whose loop deletes the punctuation `'-:,` one
    character at a time. It is proved equal to a specification function, and
    lemmas about that function give the slug shape, idempotence and the test
    vectors.
  - `_build_url` and `_is_page_404` are functions.
  - The module-level crawl-rate wrappers act on a container passed in.
- **Critic reviews** (`reviews.dfy`, module `Reviews`):
  - One page's review blocks become seven parallel columns. A block enters
    the columns only when its review text matched.
  - Scores of the form `n/1` become `n/10`.
  - The page count is read from the `Page 1 of N` marker.
  - Pages 1..N are fetched in ascending order and their columns
    concatenated.
  - Both loops are methods proved against specification functions.
- **Main page** (`main_info.dfy`, module `MainInfo`). Each of the eleven
  fields of the info dict is post-processed from the first match of its
  pattern:
  - Linked names are split on tag boundaries, filtered and joined with `|`.
  - The two release dates are set together or not at all.
  - The box-office figure is split into currency and amount.
  - An empty fetch gives `None`.
- **Wikipedia** (`wikipedia.dfy`, module `Wikipedia`):
  - The year-range check and URL of `_build_wiki_url`.
  - The in-place title-cleanup loop of `scrape_movie_names`.
  - Python's `list.remove('')`.
- **Support modules.** `text.dfy` (module `Text`) defines the Python string
  operations the code uses as plain sequence functions, with their lemmas:
  `in`, `replace`, `split`, `join`, `strip`, `lower`, `str(int)` and
  `int(str)`. `wrappers.dfy` defines `Option` and `Result`.

Conventions used throughout:

- A raised exception is a `Failure` value of a `Result`.
- A fetched page is the text `fetch(url)`, where `fetch` is a function
  parameter. The empty string stands for a fetch that failed on too many
  redirects.
- Each `re.findall` is a function parameter from text to its list of matches
  (or to a record of match lists). Each `re.sub` is a function parameter from
  text to text.
- The current year is a parameter.
- Python floats are `real`.

Where the documentation and the code disagree, the model follows the code:

- The docstring of `get_main_page_info` lists nine keys. The code fills
  eleven (`theater_date` and `dvd_date` are the extra two). The model has
  eleven.
- The exception message of `_build_wiki_url` says the year must be later
  than 1960. The code accepts 1960 itself, and so does the model.

## Model

| member | source | states |
|---|---|---|
| Globals.LibGlobalsContainer.constructor | tomatopy/gl.py:48-62 | a new container has no custom rate, verbose off, and reports the default rate 1 |
| Globals.LibGlobalsContainer.SetCrawlRate | tomatopy/gl.py:64-83 | fails exactly for a rate <= 0 and then keeps the old rate; otherwise the rate in effect becomes `rate`; verbose never changes; the stored rate stays 0 or positive |
| Globals.LibGlobalsContainer.GetCrawlRate | tomatopy/gl.py:85-101 | returns the custom rate once set, else the default; always positive |
| Globals.LibGlobalsContainer.SetVerboseMode | tomatopy/gl.py:103-116 | verbose becomes `v`; the crawl rate is unchanged |
| Globals.LibGlobalsContainer.GetVerboseSetting | tomatopy/gl.py:118-131 | returns the verbose flag |
| Globals.SettingsScenario | tomatopy/gl.py:61-131 | fresh container gives the default rate; after setting 10 the rate is 10; a rejected 0 leaves it at 10; verbose set independently |
| Util.IsPage404 | tomatopy/util.py:159-179 | true exactly when the not-found heading occurs at some position of the page |
| Util.CleanedName | tomatopy/util.py:197-205 | before spaces are replaced, the name has no upper-case letter, none of `'-:,`, and no `"` at either end |
| Util.RemoveItemsSet | tomatopy/util.py:201 | the removal string holds exactly the four characters `'`, `-`, `:`, `,` |
| Util.FormatName | tomatopy/util.py:181-206 | the deletion loop and the stages after it compute the formatted name (every removal character deleted, edge quotes stripped, spaces replaced by `sep`) |
| Util.RemoveStep | tomatopy/util.py:202-204 | each turn of the loop, whether or not the character occurs, deletes every occurrence of one more removal character |
| Util.FormattedNameWords | tomatopy/util.py:206 | the result is the cleaned name's space-separated words joined with `sep` |
| Util.FormattedNameIsSlug | tomatopy/util.py:197-206 | with `_`, the result has no upper case, no `'-:,`, no space, no edge quote |
| Util.SlugUnchanged | tomatopy/util.py:197-206 | a name already in that shape is returned unchanged |
| Util.FormatNameIdempotent | tomatopy/util.py:197-206 | formatting twice with `_` equals formatting once |
| Util.FormatNameX2 | tomatopy/tests/test_util.py:18-21 | `x2: X-men united` formats to `x2_xmen_united` |
| Util.FormatNameDarkKnight | tomatopy/tests/test_util.py:27-29 | `The Dark Knight` formats to `the_dark_knight` |
| Util.BuildUrl | tomatopy/util.py:208-232 | fails exactly for a media type other than `Movie`; otherwise the URL is the base, `m/`, the formatted name and `/`, and the name can be read back from it |
| Util.BuildUrlX2 | tomatopy/tests/test_util.py:23-26 | the movie URL of `x2: X-men united` |
| Util.BuildUrlDarkKnight | tomatopy/tests/test_util.py:27-29 | the movie URL of `The Dark Knight` |
| Util.GetCrawlRate | tomatopy/util.py:56-72 | reading the container field directly agrees with the container's getter and is positive |
| Util.SetCrawlRate | tomatopy/util.py:35-54 | fails exactly for a rate <= 0 and leaves the container's rate alone; otherwise the rate in effect becomes `rate`; verbose untouched |
| Reviews.Columns.Append | tomatopy/reviews.py:86-136 | appending one review to the seven aligned columns keeps them aligned and adds exactly that row at the end |
| Reviews.Columns.Concat | tomatopy/reviews.py:208-209 | column-wise concatenation of aligned columns is aligned and its rows are the first's rows then the second's |
| Reviews.FromReviews | tomatopy/reviews.py:65-71 | columns built from a list of rows are aligned and give those rows back |
| Reviews.RowsDetermineColumns | tomatopy/reviews.py:65-71 | aligned columns are determined by their rows |
| Reviews.NormalizeScore | tomatopy/reviews.py:91-97 | score normalisation appends `0` exactly when the score ends in `/1`, and keeps every other score |
| Reviews.ScoreEndingInOne | tomatopy/reviews.py:91-97 | for a score ending in `/1` the test `'/1' in m` holds, the last `/`-piece is `1`, and rejoining with `10` in its place gives the score followed by `0` |
| Reviews.ScoreNotEndingInOne | tomatopy/reviews.py:91-97 | for any other score, even one containing `/1`, the last `/`-piece is not `1` and rejoining the pieces gives the score back |
| Reviews.ScoreExamples | tomatopy/reviews.py:91-97 | `9/1` becomes `9/10`; `8/10` and `B+` are unchanged |
| Reviews.ReviewText | tomatopy/reviews.py:84-86 | the review text has no `"` at either end |
| Reviews.ReviewOfMatch | tomatopy/reviews.py:84-86 | for the matched shape (opening tag, text without `<`, closing tag) the review is that text with its end quotes stripped |
| Reviews.PublisherOfMatch | tomatopy/reviews.py:124-127 | for the matched shape (label markup, name without `<` or `"`, closing tag) the publisher is the bare name |
| Reviews.BlockReview | tomatopy/reviews.py:81-136 | a block yields a row exactly when its review text matched; the top-critic flag is 1 iff the label occurs in the block; each optional field is set iff its pattern matched |
| Reviews.PageReviewsAppend | tomatopy/reviews.py:78-136 | the rows of a block list are the rows of its two halves, in order |
| Reviews.GatedBlockAddsNothing | tomatopy/reviews.py:81-82 | a block whose review text did not match adds nothing, wherever it stands |
| Reviews.ReviewBlocks | tomatopy/reviews.py:73-75 | the blocks exist exactly when the page contains the review-table marker |
| Reviews.NoRowNoBlocks | tomatopy/reviews.py:74-75 | the segment before the first row marker is discarded, so a table without a row marker has no blocks |
| Reviews.PageColumns | tomatopy/reviews.py:47-138 | a page fails exactly when the review-table marker is missing; otherwise its columns are aligned, with at most one row per block |
| Reviews.CriticReviewsFromPage | tomatopy/reviews.py:65-138 | the block loop builds exactly the page's columns, the seven lists staying equal in length at every step |
| Reviews.NumPages | tomatopy/reviews.py:140-162 | a page count exists exactly when the page marker matched |
| Reviews.NumPagesOfMarker | tomatopy/reviews.py:156-160 | for a first match `<prefix> of <digits>`, the count is the digits; later matches are ignored |
| Reviews.NumPagesExample | tomatopy/reviews.py:156-160 | `Page 1 of 3` gives `3` |
| Reviews.AddPage | tomatopy/reviews.py:203-209 | adding a page succeeds iff both sides did, keeps the first error, and appends the page's rows |
| Reviews.Accumulate | tomatopy/reviews.py:203-209 | accumulating aligned pages gives aligned columns |
| Reviews.AccumulateSucceeds | tomatopy/reviews.py:203-209 | accumulation succeeds exactly when every page does; its rows are the previous pages' rows followed by the last page's |
| Reviews.FirstFailureReported | tomatopy/reviews.py:203-209 | a failed accumulation reports the error of the first failing page, all pages before it having succeeded |
| Reviews.AccumulatePrefixSucceeds | tomatopy/reviews.py:203-209 | a successful accumulation had every page succeed |
| Reviews.FailurePersists | tomatopy/reviews.py:203-205 | once a prefix of the pages fails, no later page changes the result |
| Reviews.PagesInOrder | tomatopy/reviews.py:203-209 | the rows of the first j pages are a prefix of the rows of all pages: pages are concatenated in ascending order |
| Reviews.UniformPages | tomatopy/reviews.py:203-209 | N pages of m rows each give N*m rows |
| Reviews.PageUrlNumber | tomatopy/reviews.py:204 | the URL of review page N starts with the movie page and `reviews?page=`, ends with `&sort=`, and N can be read back from the text between |
| Reviews.PageResults | tomatopy/reviews.py:203-205 | page i is the columns of the fetched URL for page number i+1 |
| Reviews.AccumulatePages | tomatopy/reviews.py:202-209 | the loop over pages 1..N, concatenating each page's columns onto the running ones, computes the accumulation of the page results, which is aligned, or the first failing page's error |
| Reviews.PageStep | tomatopy/reviews.py:203-209 | one loop step: a failing page fixes the whole result to its error, a succeeding page extends the aligned running columns by its own |
| Reviews.CriticReviews | tomatopy/reviews.py:168-223 | no page count gives `None`; a count `int()` rejects fails; otherwise success iff every page 1..N succeeds, with aligned columns, and a failure carries the error of a failing page |
| Reviews.GetCriticReviews | tomatopy/reviews.py:168-223 | no page count gives `None`; otherwise the loop over pages 1..N computes the accumulated columns, which are aligned, or the first page's error |
| MainInfo.DictEntries | tomatopy/main_info.py:56-170 | the info dict has exactly the eleven keys, each holding its field |
| MainInfo.EntryTrimmed | tomatopy/main_info.py:100 | a genre or studio entry has no whitespace at either end (director and writer entries are not trimmed, so the lemma says nothing about them) |
| MainInfo.EntryOfFragment | tomatopy/main_info.py:98-100 | a fragment `name</a` gives `name` for a director or writer and `name` trimmed for a genre; `name</a>` gives `name` trimmed for a studio |
| MainInfo.LinkedAppend | tomatopy/main_info.py:98-100 | the names of a fragment list are the names of its two halves, in order |
| MainInfo.LinkedSkipsUnmarked | tomatopy/main_info.py:98-100 | fragments without the link marker contribute nothing |
| MainInfo.LinkedKeepsMarked | tomatopy/main_info.py:98-100 | when every fragment has the marker, each one gives exactly its cleaned entry, in order |
| MainInfo.GenreIsTrimmedPerson | tomatopy/main_info.py:96-125 | genres keep the same fragments as directors and writers, each entry whitespace-trimmed |
| MainInfo.TrimmedEntries | tomatopy/main_info.py:98-100 | every non-empty genre or studio entry is trimmed |
| MainInfo.JoinedEntriesSplit | tomatopy/main_info.py:101 | names without `|` joined with `|` split back into the same list |
| MainInfo.CollectLinked | tomatopy/main_info.py:96-100 | the filtering loop collects exactly the entries of the marked fragments, in order |
| MainInfo.AfterLastTag | tomatopy/main_info.py:80 | the last `>`-segment has no `>` and ends the text; it follows the last `>` when there is one, and is the whole text when there is none |
| MainInfo.Synopsis | tomatopy/main_info.py:78-83 | set iff matched; contains no `>` and has no edge whitespace |
| MainInfo.Rating | tomatopy/main_info.py:86-91 | set iff matched; the tail of the first match after its last `>`, or the whole first match when it has no `>` |
| MainInfo.LinkedNames | tomatopy/main_info.py:94-127 | genre, director and writer are set iff matched |
| MainInfo.Studios | tomatopy/main_info.py:161-170 | studio is set iff matched |
| MainInfo.Dates | tomatopy/main_info.py:130-142 | both dates are set, to the two tokens, exactly when the first match has exactly two date tokens; never one without the other |
| MainInfo.BoxOffice | tomatopy/main_info.py:145-151 | currency and amount are set iff matched; currency is one character and currency + amount is the last segment; an empty segment fails |
| MainInfo.Runtime | tomatopy/main_info.py:154-158 | set iff matched; holds no line break |
| MainInfo.PageInfo | tomatopy/main_info.py:77-170 | the record fails exactly when the box-office split does |
| MainInfo.MainPageInfo | tomatopy/main_info.py:64-68 | an empty fetch gives `None`, fetched text gives a dict |
| MainInfo.MainPageInfoEntries | tomatopy/main_info.py:77-174 | for fetched text the dict has all eleven keys, each `None` exactly when its pattern found nothing, the dates together |
| MainInfo.FirstMatchOnly | tomatopy/main_info.py:78-170 | only the first match of each pattern matters: later matches change nothing |
| MainInfo.ScrapeSynopsis | tomatopy/main_info.py:78-83 | computes the synopsis entry |
| MainInfo.ScrapeRating | tomatopy/main_info.py:86-91 | computes the rating entry |
| MainInfo.ScrapeLinkedNames | tomatopy/main_info.py:94-127 | computes the genre, director or writer entry, collecting with the filtering loop |
| MainInfo.ScrapeDates | tomatopy/main_info.py:130-142 | computes the two date entries |
| MainInfo.ScrapeBoxOffice | tomatopy/main_info.py:145-151 | computes the currency and box-office entries or the failure |
| MainInfo.ScrapeRuntime | tomatopy/main_info.py:154-158 | computes the runtime entry |
| MainInfo.ScrapeStudios | tomatopy/main_info.py:161-170 | computes the studio entry, collecting with the filtering loop |
| MainInfo.GetMainPageInfo | tomatopy/main_info.py:40-174 | filling the dict field by field gives the main-page info of the fetched page |
| Wikipedia.BuildWikiUrl | tomatopy/wikipedia.py:29-50 | fails exactly for a year outside 1960..current year; otherwise the URL is the base, the year's digits and `_in_film`, and the year parses back from it |
| Wikipedia.WikiUrl2008 | tomatopy/tests/test_wikipedia.py:6-8 | 2008 gives the 2008 "in film" page |
| Wikipedia.CleanTitle | tomatopy/wikipedia.py:75-77 | a match without the title marker fails; otherwise it is cleaned |
| Wikipedia.Unquoted | tomatopy/wikipedia.py:75 | removing `"` keeps every other character in order and leaves no `"` |
| Wikipedia.TitleOfMatch | tomatopy/wikipedia.py:75 | for a match `<prefix>title="<name>"`, the text handed to the rewrites is the bare name |
| Wikipedia.CleanAll | tomatopy/wikipedia.py:74-77 | succeeds exactly when every match has the marker; keeps the length, element m coming from match m |
| Wikipedia.RemoveFirst | tomatopy/wikipedia.py:78 | fails exactly when the value is absent; the length drops by one |
| Wikipedia.RemoveFirstAt | tomatopy/wikipedia.py:78 | exactly the first occurrence is deleted; everything before and after it is kept in order |
| Wikipedia.RemoveFirstCounts | tomatopy/wikipedia.py:78 | nothing but one occurrence of the value is lost |
| Wikipedia.MovieTitles | tomatopy/wikipedia.py:72-78 | the titles are one fewer than the matches |
| Wikipedia.MovieTitlesSpec | tomatopy/wikipedia.py:74-78 | the titles are the cleaned matches less one empty string; fails for a match without a title or when no title is empty |
| Wikipedia.CleanTitles | tomatopy/wikipedia.py:74-78 | rewriting the matches in place, then removing the first empty title, gives the page's titles |
| Wikipedia.ScrapeMovieNames | tomatopy/wikipedia.py:52-85 | a year out of range fails with that year; otherwise the titles of the matches of the fetched page |

## Left out

- `_make_soup` (HTTP request, `time.sleep`, BeautifulSoup parsing): replaced by the `fetch` parameter, with `""` for a failed fetch. A fetched page is treated as its text, so `str(soup)` and `str(list(soup))` are the same text here.
- `check_min_delay`: a network fetch of robots.txt and float parsing; not modelled.
- The regular expressions themselves (patterns, `re.findall`, `re.sub`): their results are function parameters. Whether a pattern can match a given text is therefore not modelled.
- `scraper.py`, the tests and the re-exports of `__init__.py`: not part of this model.
- The verbose `print` calls, and the `util.py` wrappers `set_verbose_mode`/`get_verbose_setting`, which only forward to the container methods that are modelled.
- `datetime.datetime.now()`: the current year is a parameter.
- Default arguments (`sep='_'` of `_format_name` and `_build_url`, `m_type='Movie'` of `_build_url`, `verbose=False` of both `set_verbose_mode`s, at util.py:181, 208 and 74 and gl.py:103): the model has no defaults, so every caller passes these values explicitly.
- `LibGlobalsContainer` is used as one module-level object in `util.py`; the model passes it explicitly, so sharing between callers is not captured.
- Python's `str.lower()` is modelled for ASCII letters only.
- `float` rates are `real`: NaN, infinities and rounding are not modelled, and `DEFAULT_CRAWL_RATE` (the integer 1) is the real 1.0.
- `int(pages)` is modelled as parsing a non-empty string of ASCII digits. Python also accepts a sign, surrounding whitespace and other digits; those inputs fail here with `NotANumber`.
- MainInfo.BoxOffice: the `IndexError` raised for an empty last segment is the `EmptyBoxOfficeSegment` failure, with no further detail.
- A page without the review-table marker fails with `MissingReviewTable`, standing for the `IndexError` of the `split(...)[1]`.
- `_get_num_pages` returns text that `int()` may reject; that failure is `NotANumber`.
- The main-page dict is built from per-field methods, each proved against its function. Python's insertion order of the dict keys is not modelled; the model's map has no order.
