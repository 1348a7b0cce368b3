/** Movie titles from Wikipedia's "year in film" pages
    (tomatopy/wikipedia.py). The clock, the fetch and the regular
    expressions are parameters: `currentYear` stands for the year the clock
    reports, `fetch(url)` for the page text, `titleScan(text)` for the
    `re.findall` results of the title pattern, and `dropFilmNote` and
    `dropCategory` for the two `re.sub` rewrites. */
module Wikipedia {
  import opened Wrappers
  import opened Text

  const WikiBaseUrl: string := "https://en.wikipedia.org/wiki/"
  const UrlSuffix: string := "_in_film"
  /** The earliest year accepted. */
  const FirstYear: int := 1960
  /** The marker the title follows in a match. */
  const TitleMarker: string := "title="

  /** The exceptions: a year outside the accepted range, a match without
      the title marker (`IndexError`), and no empty title to remove
      (`ValueError`). */
  datatype WikiError = YearOutOfRange(year: int, currentYear: int) | MissingTitle | NoEmptyTitle

  /** `_build_wiki_url`: the "year in film" page of a year from 1960 up to
      the current year; any other year is rejected. The year can be read
      back from the URL. */
  function BuildWikiUrl(year: int, currentYear: int): (r: Result<string, WikiError>)
    ensures r.Success? <==> FirstYear <= year <= currentYear
    ensures r.Failure? ==> r.error == YearOutOfRange(year, currentYear)
    ensures r.Success? ==>
      && StartsWith(r.value, WikiBaseUrl)
      && EndsWith(r.value, UrlSuffix)
      && |WikiBaseUrl| < |r.value| - |UrlSuffix|
      && ParseNat(r.value[|WikiBaseUrl|..|r.value| - |UrlSuffix|]) == Some(year)
  {
    if FirstYear <= year <= currentYear then
      var digits := NatToDecimal(year);
      var url := WikiBaseUrl + digits + UrlSuffix;
      assert url[|WikiBaseUrl|..|url| - |UrlSuffix|] == digits;
      ParseNatToDecimal(year);
      Success(url)
    else Failure(YearOutOfRange(year, currentYear))
  }

  /** `str(2008) == "2008"`. */
  lemma Decimal2008()
    ensures NatToDecimal(2008) == "2008"
  {
    assert NatToDecimal(2) == "2";
    assert NatToDecimal(20) == "20";
    assert NatToDecimal(200) == "200";
  }

  /** The case of tomatopy's unit test for `_build_wiki_url`: 2008 gives the
      2008 page whenever the clock is at 2008 or later. */
  lemma WikiUrl2008(currentYear: int)
    requires currentYear >= 2008
    ensures BuildWikiUrl(2008, currentYear) == Success("https://en.wikipedia.org/wiki/2008_in_film")
  {
    Decimal2008();
    assert WikiBaseUrl + "2008" + UrlSuffix == "https://en.wikipedia.org/wiki/2008_in_film";
  }

  // ---------------------------------------------------------------------
  // Title cleanup
  // ---------------------------------------------------------------------

  /** One match cleaned: the text between the first and the second title
      marker with every `"` removed, then the two rewrites; `None` where the
      match has no title marker. */
  function CleanTitle(raw: string, dropFilmNote: string -> string, dropCategory: string -> string): (r: Option<string>)
    ensures r.None? <==> !Contains(raw, TitleMarker)
  {
    SplitHasSecond(raw, TitleMarker);
    var parts := Split(raw, TitleMarker);
    if |parts| < 2 then None
    else Some(dropCategory(dropFilmNote(Unquoted(parts[1]))))
  }

  /** `text.replace('"', '')`: the text with every `"` removed and every
      other character kept, in order. */
  function Unquoted(text: string): (r: string)
    ensures r == Discard(text, {'"'})
    ensures forall i :: 0 <= i < |r| ==> r[i] != '"'
  {
    ReplaceCharIsDiscard(text, '"');
    ReplaceAll(text, "\"", "")
  }

  /** For the shape the title pattern matches — a prefix without the marker,
      the marker, then the quoted title — the text handed to the rewrites is
      the bare title. */
  lemma TitleOfMatch(prefix: string, name: string)
    requires !Contains(prefix + "title", TitleMarker)
    requires '"' !in name
    requires !Contains("\"" + name + "\"", TitleMarker)
    ensures var parts := Split(prefix + TitleMarker + ("\"" + name + "\""), TitleMarker);
      |parts| == 2 && Unquoted(parts[1]) == name
  {
    var quoted := "\"" + name + "\"";
    assert TitleMarker[..|TitleMarker| - 1] == "title";
    SplitOnce(prefix, TitleMarker, quoted);
    assert quoted == [] + ['"'] + (name + "\"");
    DiscardAround([], '"', name + "\"", {'"'});
    assert name + "\"" == name + ['"'] + [];
    DiscardAround(name, '"', [], {'"'});
    DiscardNone(name, {'"'});
  }

  /** Every match cleaned, in order; fails at a match without the marker. */
  function CleanAll(matches: seq<string>, dropFilmNote: string -> string, dropCategory: string -> string)
    : (r: Result<seq<string>, WikiError>)
    ensures r.Success? <==> forall k :: 0 <= k < |matches| ==> CleanTitle(matches[k], dropFilmNote, dropCategory).Some?
    ensures r.Failure? ==> r.error == MissingTitle
    ensures r.Success? ==> |r.value| == |matches|
    ensures r.Success? ==> forall k :: 0 <= k < |matches| ==> CleanTitle(matches[k], dropFilmNote, dropCategory) == Some(r.value[k])
  {
    if matches == [] then Success([])
    else
      match CleanTitle(matches[0], dropFilmNote, dropCategory)
      case None => Failure(MissingTitle)
      case Some(t) =>
        match CleanAll(matches[1..], dropFilmNote, dropCategory)
        case Failure(e) => Failure(e)
        case Success(ts) => Success([t] + ts)
  }

  /** Python's `xs.remove(x)`: the first occurrence of `x` deleted; `None`
      where it raises because `x` does not occur. */
  function RemoveFirst<T(==)>(xs: seq<T>, x: T): (r: Option<seq<T>>)
    ensures r.None? <==> x !in xs
    ensures r.Some? ==> |r.value| == |xs| - 1
  {
    if xs == [] then None
    else if xs[0] == x then Some(xs[1..])
    else
      match RemoveFirst(xs[1..], x)
      case None => None
      case Some(rest) => Some([xs[0]] + rest)
  }

  /** `remove` deletes exactly the first occurrence: given the index of
      the first `x`, what precedes it and what follows it are kept, and
      nothing but that one `x` is lost. */
  lemma {:induction false} RemoveFirstAt<T>(xs: seq<T>, x: T, i: nat)
    requires i < |xs| && xs[i] == x && x !in xs[..i]
    ensures RemoveFirst(xs, x) == Some(xs[..i] + xs[i + 1..])
  {
    if i == 0 {
      assert xs[..0] + xs[1..] == xs[1..];
    } else {
      var rest := xs[1..];
      assert xs[0] == xs[..i][0];
      assert rest[..i - 1] == xs[..i][1..];
      RemoveFirstAt(rest, x, i - 1);
      assert RemoveFirst(xs, x) == Some([xs[0]] + (rest[..i - 1] + rest[i..]));
      assert [xs[0]] + (rest[..i - 1] + rest[i..]) == xs[..i] + xs[i + 1..];
    }
  }

  /** Nothing but the one `x` is lost. */
  lemma {:induction false} RemoveFirstCounts<T>(xs: seq<T>, x: T)
    requires x in xs
    ensures multiset(RemoveFirst(xs, x).value) + multiset{x} == multiset(xs)
  {
    assert xs == [xs[0]] + xs[1..];
    if xs[0] != x {
      RemoveFirstCounts(xs[1..], x);
    }
  }

  /** The titles `scrape_movie_names` returns for the matches of one page. */
  function MovieTitles(matches: seq<string>, dropFilmNote: string -> string, dropCategory: string -> string)
    : (r: Result<seq<string>, WikiError>)
    ensures r.Success? ==> |r.value| == |matches| - 1
  {
    match CleanAll(matches, dropFilmNote, dropCategory)
    case Failure(e) => Failure(e)
    case Success(titles) =>
      match RemoveFirst(titles, "")
      case None => Failure(NoEmptyTitle)
      case Some(rest) => Success(rest)
  }

  /** The page's titles are the cleaned matches less one empty title; the
      scrape fails on a match without a title and on a page without an
      empty title. */
  lemma MovieTitlesSpec(matches: seq<string>, dropFilmNote: string -> string, dropCategory: string -> string)
    ensures var r := MovieTitles(matches, dropFilmNote, dropCategory);
      var cleaned := CleanAll(matches, dropFilmNote, dropCategory);
      && (r.Success? <==> cleaned.Success? && "" in cleaned.value)
      && (r.Failure? ==> r.error == if cleaned.Failure? then MissingTitle else NoEmptyTitle)
      && (r.Success? ==> multiset(r.value) + multiset{""} == multiset(cleaned.value))
  {
    var cleaned := CleanAll(matches, dropFilmNote, dropCategory);
    if cleaned.Success? && "" in cleaned.value {
      RemoveFirstCounts(cleaned.value, "");
    }
  }

  /** The cleanup in `scrape_movie_names`: rewrite every match in place,
      then remove the first empty title. */
  method CleanTitles(matches: seq<string>, dropFilmNote: string -> string, dropCategory: string -> string)
    returns (r: Result<seq<string>, WikiError>)
    ensures r == MovieTitles(matches, dropFilmNote, dropCategory)
  {
    var titles := matches;
    for m := 0 to |titles|
      invariant |titles| == |matches|
      invariant forall k :: m <= k < |titles| ==> titles[k] == matches[k]
      invariant forall k :: 0 <= k < m ==> CleanTitle(matches[k], dropFilmNote, dropCategory) == Some(titles[k])
    {
      var parts := Split(titles[m], TitleMarker);
      SplitHasSecond(titles[m], TitleMarker);
      if |parts| < 2 {
        assert CleanTitle(matches[m], dropFilmNote, dropCategory).None?;
        return Failure(MissingTitle);
      }
      ghost var before := titles;
      ghost var cleaned := dropCategory(dropFilmNote(Unquoted(parts[1])));
      assert CleanTitle(matches[m], dropFilmNote, dropCategory) == Some(cleaned);
      titles := titles[m := ReplaceAll(parts[1], "\"", "")];
      titles := titles[m := dropFilmNote(titles[m])];
      titles := titles[m := dropCategory(titles[m])];
      assert titles == before[m := cleaned];
    }
    ghost var cleaned := CleanAll(matches, dropFilmNote, dropCategory);
    assert cleaned.value == titles;
    var i := 0;
    while i < |titles| && titles[i] != ""
      invariant 0 <= i <= |titles|
      invariant "" !in titles[..i]
    {
      assert titles[..i + 1] == titles[..i] + [titles[i]];
      i := i + 1;
    }
    if i == |titles| {
      assert titles[..i] == titles;
      return Failure(NoEmptyTitle);
    }
    RemoveFirstAt(titles, "", i);
    titles := titles[..i] + titles[i + 1..];
    r := Success(titles);
  }

  /** `scrape_movie_names`: build the URL for the year, fetch the page, scan
      it for titles and clean them up. */
  method ScrapeMovieNames(year: int, currentYear: int, fetch: string -> string, titleScan: string -> seq<string>,
                          dropFilmNote: string -> string, dropCategory: string -> string)
    returns (r: Result<seq<string>, WikiError>)
    ensures !(FirstYear <= year <= currentYear) ==> r == Failure(YearOutOfRange(year, currentYear))
    ensures FirstYear <= year <= currentYear ==>
      r == MovieTitles(titleScan(fetch(BuildWikiUrl(year, currentYear).value)), dropFilmNote, dropCategory)
  {
    var url := BuildWikiUrl(year, currentYear);
    if url.Failure? {
      return Failure(url.error);
    }
    var soup := fetch(url.value);
    var matches := titleScan(soup);
    r := CleanTitles(matches, dropFilmNote, dropCategory);
  }
}
