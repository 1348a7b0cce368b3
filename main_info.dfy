/** The main-page scrape (tomatopy/main_info.py): the first match of each
    field pattern is post-processed into one entry of the `info` dict. The
    regular expressions are not modelled: `scan(soup)` stands for the
    `re.findall` results of the nine field patterns on the page text,
    `dateScan(text)` for those of the inner date pattern, and `fetch(page)`
    for the page text, with "" standing for a failed fetch. */
module MainInfo {
  import opened Wrappers
  import opened Text

  /** The `re.findall` results of the field patterns on the page text. */
  datatype PageMatches = PageMatches(
    synopsis: seq<string>,
    rating: seq<string>,
    genre: seq<string>,
    director: seq<string>,
    writer: seq<string>,
    date: seq<string>,
    boxOffice: seq<string>,
    runtime: seq<string>,
    studio: seq<string>)

  /** The eleven entries of the `info` dict; `None` where nothing matched. */
  datatype MovieInfo = MovieInfo(
    synopsis: Option<string>,
    rating: Option<string>,
    genre: Option<string>,
    director: Option<string>,
    writer: Option<string>,
    theaterDate: Option<string>,
    dvdDate: Option<string>,
    currency: Option<string>,
    boxOffice: Option<string>,
    runtime: Option<string>,
    studio: Option<string>)

  /** Indexing the empty text after the last `>` of the box-office match
      raises `IndexError`. */
  datatype InfoError = EmptyBoxOfficeSegment

  const InfoKeys: set<string> := {"synopsis", "rating", "genre", "director", "writer",
    "theater_date", "dvd_date", "currency", "box_office", "runtime", "studio"}

  /** The dict the scrape returns for a movie's entries, filled in the
      order the scrape fills it. */
  function AsDict(info: MovieInfo): map<string, Option<string>>
  {
    map[][
      "synopsis" := info.synopsis][
      "rating" := info.rating][
      "genre" := info.genre][
      "director" := info.director][
      "writer" := info.writer][
      "theater_date" := info.theaterDate][
      "dvd_date" := info.dvdDate][
      "currency" := info.currency][
      "box_office" := info.boxOffice][
      "runtime" := info.runtime][
      "studio" := info.studio]
  }

  /** The dict has exactly the eleven keys, each holding its entry. */
  lemma DictEntries(info: MovieInfo)
    ensures AsDict(info).Keys == InfoKeys
    ensures var d := AsDict(info);
      && d["synopsis"] == info.synopsis && d["rating"] == info.rating && d["genre"] == info.genre
      && d["director"] == info.director && d["writer"] == info.writer
      && d["theater_date"] == info.theaterDate && d["dvd_date"] == info.dvdDate
      && d["currency"] == info.currency && d["box_office"] == info.boxOffice
      && d["runtime"] == info.runtime && d["studio"] == info.studio
  {
  }

  // ---------------------------------------------------------------------
  // Linked names: genre, director, writer, studio
  // ---------------------------------------------------------------------

  /** How a list of linked names is cleaned: genres lose the closing-tag
      start and are trimmed, directors and writers only lose it, studios
      lose the closing link and div tags and are trimmed. */
  datatype LinkKind = GenreLink | PersonLink | StudioLink

  /** The text a fragment must contain to be kept. */
  function Marker(kind: LinkKind): string {
    if kind == StudioLink then "</a>" else "</a"
  }

  /** The entry a kept fragment becomes. */
  function Entry(kind: LinkKind, frag: string): string {
    match kind
    case GenreLink => Strip(ReplaceAll(frag, "</a", ""))
    case PersonLink => ReplaceAll(frag, "</a", "")
    case StudioLink => Strip(ReplaceAll(ReplaceAll(frag, "</a>", ""), "</div>", ""))
  }

  /** A genre or studio entry has no whitespace at either end. */
  lemma EntryTrimmed(kind: LinkKind, frag: string)
    ensures var e := Entry(kind, frag);
      kind != PersonLink && e != [] ==> e[0] !in PyWhitespace && e[|e| - 1] !in PyWhitespace
  {
    match kind
    case GenreLink =>
      var x := ReplaceAll(frag, "</a", "");
      assert Entry(kind, frag) == StripSet(x, PyWhitespace);
    case PersonLink =>
    case StudioLink =>
      var x := ReplaceAll(ReplaceAll(frag, "</a>", ""), "</div>", "");
      assert Entry(kind, frag) == StripSet(x, PyWhitespace);
  }

  /** For the fragment shape a linked name leaves after the split — the
      name without `<`, then the closing link tag — the entry is the name,
      trimmed for genres and studios. */
  lemma EntryOfFragment(name: string)
    requires '<' !in name
    ensures Entry(PersonLink, name + "</a") == name
    ensures Entry(GenreLink, name + "</a") == Strip(name)
    ensures Entry(StudioLink, name + "</a>") == Strip(name)
  {
    ReplaceHeadFree(name, "</a", "</a", "");
    ReplaceAtFront("</a", [], "");
    ReplaceHeadFree(name, "</a>", "</a>", "");
    ReplaceAtFront("</a>", [], "");
    assert "</a" + [] == "</a" && "</a>" + [] == "</a>" && name + [] == name;
    ReplaceHeadFree(name, [], "</div>", "");
    assert ReplaceAll([], "</div>", "") == [];
  }

  /** The entries of the fragments that contain the marker, in order. */
  function Linked(frags: seq<string>, kind: LinkKind): (entries: seq<string>)
    ensures |entries| <= |frags|
  {
    if frags == [] then []
    else Linked(frags[..|frags| - 1], kind) + Kept(frags[|frags| - 1], kind)
  }

  /** What one fragment contributes: its entry when it holds the marker. */
  function Kept(frag: string, kind: LinkKind): seq<string> {
    if Contains(frag, Marker(kind)) then [Entry(kind, frag)] else []
  }

  /** One more fragment contributes what it keeps. */
  lemma LinkedSnoc(init: seq<string>, last: string, kind: LinkKind)
    ensures Linked(init + [last], kind) == Linked(init, kind) + Kept(last, kind)
  {
    var frags := init + [last];
    assert frags[..|frags| - 1] == init;
    assert frags[|frags| - 1] == last;
  }

  /** The filter works fragment by fragment. */
  lemma {:induction false} LinkedAppend(a: seq<string>, b: seq<string>, kind: LinkKind)
    ensures Linked(a + b, kind) == Linked(a, kind) + Linked(b, kind)
    decreases |b|
  {
    if b == [] {
      assert a + b == a;
    } else {
      var init, last := b[..|b| - 1], b[|b| - 1];
      LinkedAppend(a, init, kind);
      SnocParts(a, b);
      LinkedSnoc(a + init, last, kind);
      LinkedSnoc(init, last, kind);
      SnocAssoc(Linked(a + init, kind), Linked(a, kind), Linked(init, kind), Kept(last, kind));
    }
  }

  /** Fragments without the marker contribute nothing. */
  lemma {:induction false} LinkedSkipsUnmarked(frags: seq<string>, kind: LinkKind)
    requires forall i :: 0 <= i < |frags| ==> !Contains(frags[i], Marker(kind))
    ensures Linked(frags, kind) == []
  {
    if frags != [] {
      LinkedSkipsUnmarked(frags[..|frags| - 1], kind);
    }
  }

  /** With the marker in every fragment, every fragment yields its entry. */
  lemma {:induction false} LinkedKeepsMarked(frags: seq<string>, kind: LinkKind)
    requires forall i :: 0 <= i < |frags| ==> Contains(frags[i], Marker(kind))
    ensures |Linked(frags, kind)| == |frags|
    ensures forall i :: 0 <= i < |frags| ==> Linked(frags, kind)[i] == Entry(kind, frags[i])
  {
    if frags != [] {
      var init, last := frags[..|frags| - 1], frags[|frags| - 1];
      SnocSplit(frags);
      LinkedKeepsMarked(init, kind);
      LinkedSnoc(init, last, kind);
      var want := seq(|frags|, i requires 0 <= i < |frags| => Entry(kind, frags[i]));
      assert Kept(last, kind) == [Entry(kind, last)];
      SnocPointwise(Linked(frags, kind), Linked(init, kind), Entry(kind, last), want);
    }
  }

  /** A genre is a director-style entry with the whitespace trimmed: the two
      lists keep the same fragments, and each genre is the trimmed person entry. */
  lemma {:induction false} GenreIsTrimmedPerson(frags: seq<string>)
    ensures |Linked(frags, GenreLink)| == |Linked(frags, PersonLink)|
    ensures forall i :: 0 <= i < |Linked(frags, GenreLink)| ==>
      Linked(frags, GenreLink)[i] == Strip(Linked(frags, PersonLink)[i])
  {
    if frags != [] {
      GenreIsTrimmedPerson(frags[..|frags| - 1]);
    }
  }

  /** Each genre or studio entry has no whitespace at either end. */
  lemma {:induction false} TrimmedEntries(frags: seq<string>, kind: LinkKind)
    requires kind != PersonLink
    ensures AllTrimmed(Linked(frags, kind))
  {
    if frags != [] {
      var init, last := frags[..|frags| - 1], frags[|frags| - 1];
      SnocSplit(frags);
      TrimmedEntries(init, kind);
      LinkedSnoc(init, last, kind);
      KeptTrimmed(last, kind);
      TrimmedConcat(Linked(init, kind), Kept(last, kind));
    }
  }

  /** Entries without whitespace at their ends. */
  predicate AllTrimmed(entries: seq<string>) {
    forall i :: 0 <= i < |entries| && entries[i] != [] ==>
      entries[i][0] !in PyWhitespace && entries[i][|entries[i]| - 1] !in PyWhitespace
  }

  /** What a genre or studio fragment contributes is trimmed. */
  lemma KeptTrimmed(frag: string, kind: LinkKind)
    requires kind != PersonLink
    ensures AllTrimmed(Kept(frag, kind))
  {
    EntryTrimmed(kind, frag);
  }

  lemma TrimmedConcat(a: seq<string>, b: seq<string>)
    requires AllTrimmed(a) && AllTrimmed(b)
    ensures AllTrimmed(a + b)
  {
    forall i | 0 <= i < |a + b|
      ensures (a + b)[i] == if i < |a| then a[i] else b[i - |a|]
    {
    }
  }

  /** Joined with `|`, entries free of `|` can be split back apart. */
  lemma JoinedEntriesSplit(entries: seq<string>)
    requires entries != []
    requires forall i :: 0 <= i < |entries| ==> '|' !in entries[i]
    ensures Split(Join("|", entries), "|") == entries
  {
    JoinSplitChar(entries, '|');
  }

  /** The filtering loop: each fragment holding the marker is cleaned and
      appended to the list. */
  method CollectLinked(frags: seq<string>, kind: LinkKind) returns (entries: seq<string>)
    ensures entries == Linked(frags, kind)
  {
    entries := [];
    for i := 0 to |frags|
      invariant entries == Linked(frags[..i], kind)
    {
      assert frags[..i + 1][..i] == frags[..i];
      var frag := frags[i];
      if Contains(frag, Marker(kind)) {
        entries := entries + [Entry(kind, frag)];
      }
    }
    assert frags[..|frags|] == frags;
  }

  // ---------------------------------------------------------------------
  // The fields
  // ---------------------------------------------------------------------

  /** A character absent from a text is absent from the text stripped. */
  lemma StripKeepsAbsent(s: string, cs: set<char>, c: char)
    requires c !in s
    ensures c !in StripSet(s, cs)
  {
    var r := StripSet(s, cs);
    var i: nat :| OccursAt(s, r, i);
    assert forall k :: 0 <= k < |r| ==> r[k] == s[i + k];
  }

  /** The text after the last `>` of a match, or the whole match when it
      has no `>`. */
  function AfterLastTag(m: string): (piece: string)
    ensures '>' !in piece && EndsWith(m, piece)
    ensures '>' in m ==> EndsWith(m, ">" + piece)
    ensures '>' !in m ==> piece == m
  {
    SplitLastChar(m, '>');
    Last(Split(m, ">"))
  }

  /** Synopsis: the text after the last `>` of the first match, trimmed. */
  function Synopsis(ms: seq<string>): (r: Option<string>)
    ensures r.None? <==> ms == []
    ensures r.Some? ==> '>' !in r.value
    ensures r.Some? && r.value != [] ==> r.value[0] !in PyWhitespace && r.value[|r.value| - 1] !in PyWhitespace
  {
    if ms == [] then None
    else
      var piece := AfterLastTag(ms[0]);
      StripKeepsAbsent(piece, PyWhitespace, '>');
      Some(Strip(piece))
  }

  /** Rating: the text after the last `>` of the first match, untrimmed. */
  function Rating(ms: seq<string>): (r: Option<string>)
    ensures r.None? <==> ms == []
    ensures r.Some? ==> '>' !in r.value && EndsWith(ms[0], r.value)
    ensures r.Some? && '>' in ms[0] ==> EndsWith(ms[0], ">" + r.value)
    ensures r.Some? && '>' !in ms[0] ==> r.value == ms[0]
  {
    if ms == [] then None else Some(AfterLastTag(ms[0]))
  }

  /** Genre, director and writer: `&amp;` spelled out, the first match split
      on `>`, the linked names kept and joined with `|`. */
  function LinkedNames(ms: seq<string>, kind: LinkKind): (r: Option<string>)
    requires kind != StudioLink
    ensures r.None? <==> ms == []
  {
    if ms == [] then None
    else Some(Join("|", Linked(Split(ReplaceAll(ms[0], "&amp;", "and"), ">"), kind)))
  }

  /** Studio: the first match split on `">`, the linked names kept, their
      tags removed, trimmed and joined with `|`. */
  function Studios(ms: seq<string>): (r: Option<string>)
    ensures r.None? <==> ms == []
  {
    if ms == [] then None
    else Some(Join("|", Linked(Split(ms[0], "\">"), StudioLink)))
  }

  /** Theater and DVD dates: both set, to the two inner matches, when the
      inner scan of the first match yields exactly two; otherwise neither. */
  function Dates(ms: seq<string>, dateScan: string -> seq<string>): (r: (Option<string>, Option<string>))
    ensures r.0.Some? <==> r.1.Some?
    ensures r.0.Some? <==> ms != [] && |dateScan(ms[0])| == 2
    ensures r.0.Some? ==> r.0.value == dateScan(ms[0])[0] && r.1.value == dateScan(ms[0])[1]
  {
    if ms != [] && |dateScan(ms[0])| == 2 then
      (Some(dateScan(ms[0])[0]), Some(dateScan(ms[0])[1]))
    else (None, None)
  }

  /** Currency and amount: the first character of the text after the last
      `>` and the rest of it; that text being empty raises. */
  function BoxOffice(ms: seq<string>): (r: Result<(Option<string>, Option<string>), InfoError>)
    ensures r.Failure? <==> ms != [] && AfterLastTag(ms[0]) == []
    ensures r.Success? ==> (r.value.0.Some? <==> ms != []) && (r.value.1.Some? <==> ms != [])
    ensures r.Success? && ms != [] ==>
      |r.value.0.value| == 1 && r.value.0.value + r.value.1.value == AfterLastTag(ms[0])
  {
    if ms == [] then Success((None, None))
    else
      var segment := AfterLastTag(ms[0]);
      if segment == [] then Failure(EmptyBoxOfficeSegment)
      else Success((Some([segment[0]]), Some(segment[1..])))
  }

  /** Runtime: the last line of the first match, trimmed. */
  function Runtime(ms: seq<string>): (r: Option<string>)
    ensures r.None? <==> ms == []
    ensures r.Some? ==> '\n' !in r.value
  {
    if ms == [] then None
    else
      var line := Last(Split(ms[0], "\n"));
      SplitLastChar(ms[0], '\n');
      StripKeepsAbsent(line, PyWhitespace, '\n');
      Some(Strip(line))
  }

  /** All entries for a page whose text was fetched. */
  function PageInfo(m: PageMatches, dateScan: string -> seq<string>): (r: Result<MovieInfo, InfoError>)
    ensures r.Failure? <==> BoxOffice(m.boxOffice).Failure?
  {
    var dates := Dates(m.date, dateScan);
    match BoxOffice(m.boxOffice)
    case Failure(e) => Failure(e)
    case Success(money) =>
      Success(MovieInfo(
        Synopsis(m.synopsis), Rating(m.rating), LinkedNames(m.genre, GenreLink),
        LinkedNames(m.director, PersonLink), LinkedNames(m.writer, PersonLink),
        dates.0, dates.1, money.0, money.1, Runtime(m.runtime), Studios(m.studio)))
  }

  /** What `get_main_page_info` returns: `None` for a failed fetch,
      otherwise the dict of the page's entries. */
  function MainPageInfo(soup: string, scan: string -> PageMatches, dateScan: string -> seq<string>)
    : (r: Result<Option<map<string, Option<string>>>, InfoError>)
    ensures r.Failure? ==> soup != []
    ensures r.Success? ==> (r.value.None? <==> soup == [])
  {
    if soup == [] then Success(None)
    else
      match PageInfo(scan(soup), dateScan)
      case Failure(e) => Failure(e)
      case Success(info) => Success(Some(AsDict(info)))
  }

  /** For fetched text the dict always has all eleven keys, and each entry
      is `None` exactly where its pattern found nothing; the two dates are
      set together or not at all. */
  lemma MainPageInfoEntries(soup: string, scan: string -> PageMatches, dateScan: string -> seq<string>)
    requires MainPageInfo(soup, scan, dateScan).Success?
    requires soup != []
    ensures MainPageInfo(soup, scan, dateScan).value.Some?
    ensures MainPageInfo(soup, scan, dateScan).value.value.Keys == InfoKeys
    ensures var m := scan(soup);
      var d := MainPageInfo(soup, scan, dateScan).value.value;
      && (d["synopsis"].None? <==> m.synopsis == [])
      && (d["rating"].None? <==> m.rating == [])
      && (d["genre"].None? <==> m.genre == [])
      && (d["director"].None? <==> m.director == [])
      && (d["writer"].None? <==> m.writer == [])
      && (d["theater_date"].None? <==> d["dvd_date"].None?)
      && (d["currency"].None? <==> m.boxOffice == [])
      && (d["box_office"].None? <==> m.boxOffice == [])
      && (d["runtime"].None? <==> m.runtime == [])
      && (d["studio"].None? <==> m.studio == [])
  {
    DictEntries(PageInfo(scan(soup), dateScan).value);
  }

  /** Every list cut down to its first match. */
  function FirstMatches(m: PageMatches): PageMatches {
    PageMatches(First(m.synopsis), First(m.rating), First(m.genre), First(m.director),
      First(m.writer), First(m.date), First(m.boxOffice), First(m.runtime), First(m.studio))
  }

  function First(ms: seq<string>): (r: seq<string>)
    ensures |r| <= 1 && r <= ms && (r == [] <==> ms == [])
    ensures r != [] ==> r[0] == ms[0]
  {
    if ms == [] then [] else ms[..1]
  }

  /** Only the first match of each pattern matters: later matches are ignored. */
  lemma FirstMatchOnly(m: PageMatches, dateScan: string -> seq<string>)
    ensures PageInfo(m, dateScan) == PageInfo(FirstMatches(m), dateScan)
  {
    var f := FirstMatches(m);
    assert Synopsis(f.synopsis) == Synopsis(m.synopsis);
    assert Rating(f.rating) == Rating(m.rating);
    assert LinkedNames(f.genre, GenreLink) == LinkedNames(m.genre, GenreLink);
    assert LinkedNames(f.director, PersonLink) == LinkedNames(m.director, PersonLink);
    assert LinkedNames(f.writer, PersonLink) == LinkedNames(m.writer, PersonLink);
    assert Dates(f.date, dateScan) == Dates(m.date, dateScan);
    assert BoxOffice(f.boxOffice) == BoxOffice(m.boxOffice);
    assert Runtime(f.runtime) == Runtime(m.runtime);
    assert Studios(f.studio) == Studios(m.studio);
  }

  // The blocks of `get_main_page_info`, one method per field, in the order
  // the dict is filled. The straight-line ones follow the field functions
  // above step for step; each is proved equal to its function, which is
  // where the field's properties are stated.

  /** The synopsis block: text after the last `>` of the first match, trimmed. */
  method ScrapeSynopsis(ms: seq<string>) returns (synopsis: Option<string>)
    ensures synopsis == Synopsis(ms)
  {
    synopsis := None;
    if |ms| > 0 {
      synopsis := Some(Strip(Last(Split(ms[0], ">"))));
    }
  }

  /** The rating block: text after the last `>` of the first match. */
  method ScrapeRating(ms: seq<string>) returns (rating: Option<string>)
    ensures rating == Rating(ms)
  {
    rating := None;
    if |ms| > 0 {
      rating := Some(Last(Split(ms[0], ">")));
    }
  }

  /** The genre, director and writer blocks: `&amp;` spelled out, split on
      `>`, the linked names collected and joined with `|`. */
  method ScrapeLinkedNames(ms: seq<string>, kind: LinkKind) returns (names: Option<string>)
    requires kind != StudioLink
    ensures names == LinkedNames(ms, kind)
  {
    names := None;
    if |ms| > 0 {
      var parts := Split(ReplaceAll(ms[0], "&amp;", "and"), ">");
      var entries := CollectLinked(parts, kind);
      names := Some(Join("|", entries));
    }
  }

  /** The dates block: the inner scan of the first match must yield two dates. */
  method ScrapeDates(ms: seq<string>, dateScan: string -> seq<string>) returns (theaterDate: Option<string>, dvdDate: Option<string>)
    ensures (theaterDate, dvdDate) == Dates(ms, dateScan)
  {
    theaterDate, dvdDate := None, None;
    if |ms| > 0 {
      var dates := dateScan(ms[0]);
      if |dates| == 2 {
        theaterDate := Some(dates[0]);
        dvdDate := Some(dates[1]);
      }
    }
  }

  /** The box-office block: first character and rest of the text after the
      last `>`; indexing an empty text fails. */
  method ScrapeBoxOffice(ms: seq<string>) returns (r: Result<(Option<string>, Option<string>), InfoError>)
    ensures r == BoxOffice(ms)
  {
    if |ms| > 0 {
      var segment := Last(Split(ms[0], ">"));
      if |segment| == 0 {
        return Failure(EmptyBoxOfficeSegment);
      }
      return Success((Some([segment[0]]), Some(segment[1..])));
    }
    return Success((None, None));
  }

  /** The runtime block: the last line of the first match, trimmed. */
  method ScrapeRuntime(ms: seq<string>) returns (runtime: Option<string>)
    ensures runtime == Runtime(ms)
  {
    runtime := None;
    if |ms| > 0 {
      runtime := Some(Strip(Last(Split(ms[0], "\n"))));
    }
  }

  /** The studio block: split on `">`, the linked names collected and joined with `|`. */
  method ScrapeStudios(ms: seq<string>) returns (studio: Option<string>)
    ensures studio == Studios(ms)
  {
    studio := None;
    if |ms| > 0 {
      var parts := Split(ms[0], "\">");
      var entries := CollectLinked(parts, StudioLink);
      studio := Some(Join("|", entries));
    }
  }

  /** Filling the entries one after another in the scrape's order gives the dict. */
  lemma FilledDict(synopsis: Option<string>, rating: Option<string>, genre: Option<string>,
                   director: Option<string>, writer: Option<string>, theaterDate: Option<string>,
                   dvdDate: Option<string>, currency: Option<string>, boxOffice: Option<string>,
                   runtime: Option<string>, studio: Option<string>)
    ensures map[]["synopsis" := synopsis]["rating" := rating]["genre" := genre]["director" := director]
      ["writer" := writer]["theater_date" := theaterDate]["dvd_date" := dvdDate]["currency" := currency]
      ["box_office" := boxOffice]["runtime" := runtime]["studio" := studio]
      == AsDict(MovieInfo(synopsis, rating, genre, director, writer, theaterDate, dvdDate,
                          currency, boxOffice, runtime, studio))
  {
  }

  /** `get_main_page_info`: fetch the page, return `None` when the fetch
      failed, otherwise fill the dict one field after another. */
  method GetMainPageInfo(page: string, fetch: string -> string, scan: string -> PageMatches,
                         dateScan: string -> seq<string>)
    returns (r: Result<Option<map<string, Option<string>>>, InfoError>)
    ensures r == MainPageInfo(fetch(page), scan, dateScan)
  {
    var soup := fetch(page);
    if soup == "" {
      return Success(None);
    }
    var m := scan(soup);
    var info: map<string, Option<string>> := map[];
    var synopsis := ScrapeSynopsis(m.synopsis);
    info := info["synopsis" := synopsis];
    var rating := ScrapeRating(m.rating);
    info := info["rating" := rating];
    var genre := ScrapeLinkedNames(m.genre, GenreLink);
    info := info["genre" := genre];
    var director := ScrapeLinkedNames(m.director, PersonLink);
    info := info["director" := director];
    var writer := ScrapeLinkedNames(m.writer, PersonLink);
    info := info["writer" := writer];
    var theaterDate, dvdDate := ScrapeDates(m.date, dateScan);
    info := info["theater_date" := theaterDate];
    info := info["dvd_date" := dvdDate];
    var money := ScrapeBoxOffice(m.boxOffice);
    if money.Failure? {
      return Failure(money.error);
    }
    var currency, boxOffice := money.value.0, money.value.1;
    info := info["currency" := currency];
    info := info["box_office" := boxOffice];
    var runtime := ScrapeRuntime(m.runtime);
    info := info["runtime" := runtime];
    var studio := ScrapeStudios(m.studio);
    info := info["studio" := studio];
    FilledDict(synopsis, rating, genre, director, writer, theaterDate, dvdDate, currency, boxOffice, runtime, studio);
    r := Success(Some(info));
  }
}
