/** URL formatting, the not-found test and the crawl-rate wrappers of
    tomatopy/util.py. The module-level container `lib_cont` is passed in
    explicitly as `cont`. */
module Util {
  import opened Wrappers
  import opened Text
  import opened Globals

  /** The punctuation `_format_name` deletes, in the order it deletes it. */
  const RemoveItems: string := "'-:,"

  /** The same characters as a set. */
  const RemoveSet: set<char> := {'\'', '-', ':', ','}

  /** The heading that marks a "page not found" response. */
  const NotFoundHeading: string := "<h1>404 - Not Found</h1>"

  /** The exception `_build_url` raises for a media type other than a movie. */
  datatype UrlError = UnsupportedType(mType: string)

  // ---------------------------------------------------------------------
  // _is_page_404
  // ---------------------------------------------------------------------

  /** A page is a 404 exactly when the not-found heading occurs in it. */
  function IsPage404(soup: string): (r: bool)
    ensures r <==> exists i: nat :: OccursAt(soup, NotFoundHeading, i)
  {
    ContainsIff(soup, NotFoundHeading);
    Contains(soup, NotFoundHeading)
  }

  // ---------------------------------------------------------------------
  // _format_name
  // ---------------------------------------------------------------------

  /** The set of characters of `s`. */
  function CharsOf(s: string): set<char> {
    set i | 0 <= i < |s| :: s[i]
  }

  /** The name before spaces are replaced: lower-cased, without the
      punctuation of `RemoveItems`, and with `"` stripped from both ends. */
  function CleanedName(name: string): (t: string)
    ensures forall j :: 0 <= j < |t| ==> !IsUpper(t[j]) && t[j] !in RemoveSet
    ensures t != [] ==> t[0] != '"' && t[|t| - 1] != '"'
  {
    var lowered := Lower(name);
    var kept := Discard(lowered, RemoveSet);
    DiscardKeeps(lowered, RemoveSet);
    assert forall j :: 0 <= j < |kept| ==> !IsUpper(kept[j]) by {
      forall j | 0 <= j < |kept| ensures !IsUpper(kept[j]) {
        assert kept[j] in lowered;
      }
    }
    var t := StripSet(kept, {'"'});
    var i: nat :| OccursAt(kept, t, i);
    assert forall j :: 0 <= j < |t| ==> t[j] == kept[i + j];
    t
  }

  /** `RemoveSet` holds exactly the characters of `RemoveItems`. */
  lemma RemoveItemsSet()
    ensures CharsOf(RemoveItems) == RemoveSet
  {
    var r := RemoveItems;
    assert r[0] == '\'' && r[1] == '-' && r[2] == ':' && r[3] == ',';
    forall c | c in RemoveSet ensures c in CharsOf(r) {
      if c == '\'' { assert c == r[0]; }
      else if c == '-' { assert c == r[1]; }
      else if c == ':' { assert c == r[2]; }
      else { assert c == r[3]; }
    }
  }

  /** The URL form of a movie name: the cleaned name with every space
      replaced by `sep`. */
  function FormattedName(name: string, sep: string): string {
    ReplaceAll(CleanedName(name), " ", sep)
  }

  /** `_format_name`: lower-case, delete each of `'-:,` in turn where it
      occurs, strip edge quotes, then substitute `sep` for spaces. */
  method FormatName(name: string, sep: string) returns (slug: string)
    ensures slug == FormattedName(name, sep)
  {
    var m := Lower(name);
    ghost var lowered := m;
    DiscardNone(lowered, {});
    assert CharsOf(RemoveItems[..0]) == {};
    for k := 0 to |RemoveItems|
      invariant m == Discard(lowered, CharsOf(RemoveItems[..k]))
    {
      var c := RemoveItems[k];
      RemoveStep(lowered, m, k);
      if Contains(m, [c]) {
        m := ReplaceAll(m, [c], "");
      }
    }
    assert RemoveItems[..|RemoveItems|] == RemoveItems;
    RemoveItemsSet();
    m := StripSet(m, {'"'});
    slug := ReplaceAll(m, " ", sep);
  }

  /** One turn of the deletion loop of `FormatName` deletes one more character. */
  lemma RemoveStep(lowered: string, m: string, k: nat)
    requires k < |RemoveItems|
    requires m == Discard(lowered, CharsOf(RemoveItems[..k]))
    ensures var c := RemoveItems[k];
      (if Contains(m, [c]) then ReplaceAll(m, [c], "") else m) == Discard(lowered, CharsOf(RemoveItems[..k + 1]))
  {
    var c := RemoveItems[k];
    if Contains(m, [c]) {
      ReplaceCharIsDiscard(m, c);
    } else {
      ContainsChar(m, c);
      DiscardNone(m, {c});
    }
    DiscardTwice(lowered, CharsOf(RemoveItems[..k]), c);
    assert RemoveItems[..k + 1] == RemoveItems[..k] + [c];
    CharsOfSnoc(RemoveItems[..k], c);
  }

  lemma CharsOfSnoc(s: string, c: char)
    ensures CharsOf(s + [c]) == CharsOf(s) + {c}
  {
    var t := s + [c];
    forall x | x in CharsOf(t) ensures x in CharsOf(s) + {c} {
      var i :| 0 <= i < |t| && t[i] == x;
      if i < |s| {
        assert s[i] == x;
      }
    }
    forall x | x in CharsOf(s) + {c} ensures x in CharsOf(t) {
      if x == c {
        assert t[|s|] == x;
      } else {
        var i :| 0 <= i < |s| && s[i] == x;
        assert t[i] == x;
      }
    }
  }

  /** The separator takes the place of each space of the cleaned name. */
  lemma FormattedNameWords(name: string, sep: string)
    ensures FormattedName(name, sep) == Join(sep, Split(CleanedName(name), " "))
  {
    ReplaceIsJoinSplit(CleanedName(name), " ", sep);
  }

  /** What `_format_name` with `sep='_'` produces: no upper-case letter, none
      of `'-:,`, no space, no `"` at either end. */
  predicate IsSlug(s: string) {
    && (forall i :: 0 <= i < |s| ==> !IsUpper(s[i]) && s[i] !in RemoveItems && s[i] != ' ')
    && (s != [] ==> s[0] != '"' && s[|s| - 1] != '"')
  }

  /** With the underscore separator, the result is always a slug. */
  lemma FormattedNameIsSlug(name: string)
    ensures IsSlug(FormattedName(name, "_"))
  {
    var t := CleanedName(name);
    ReplaceCharByChar(t, ' ', '_');
    var r := FormattedName(name, "_");
    forall i | 0 <= i < |r|
      ensures !IsUpper(r[i]) && r[i] !in RemoveItems && r[i] != ' '
    {
      assert RemoveItems == ['\'', '-', ':', ','];
    }
  }

  /** A name that is already a slug is returned unchanged. */
  lemma SlugUnchanged(s: string)
    requires IsSlug(s)
    ensures FormattedName(s, "_") == s
  {
    LowerNoUpper(s);
    DiscardNone(s, RemoveSet);
    ReplaceCharAbsent(s, ' ', "_");
  }

  /** Formatting twice with `sep='_'` is formatting once. */
  lemma FormatNameIdempotent(name: string)
    ensures FormattedName(FormattedName(name, "_"), "_") == FormattedName(name, "_")
  {
    FormattedNameIsSlug(name);
    SlugUnchanged(FormattedName(name, "_"));
  }

  /** `FormattedName` from its stages, each given. */
  lemma FormattedNameStages(name: string, lowered: string, kept: string, sep: string)
    requires Lower(name) == lowered
    requires Discard(lowered, RemoveSet) == kept
    requires kept != [] ==> kept[0] != '"' && kept[|kept| - 1] != '"'
    ensures FormattedName(name, sep) == ReplaceAll(kept, " ", sep)
  {
  }

  /** Deleting two marks from a string whose other pieces are free of them. */
  lemma DiscardTwoMarks(a: string, b: char, c: string, d: char, e: string, cs: set<char>)
    requires forall i :: 0 <= i < |a| ==> a[i] !in cs
    requires forall i :: 0 <= i < |c| ==> c[i] !in cs
    requires forall i :: 0 <= i < |e| ==> e[i] !in cs
    requires b in cs && d in cs
    ensures Discard(a + [b] + c + [d] + e, cs) == a + c + e
  {
    DiscardAround(a + [b] + c, d, e, cs);
    DiscardAround(a, b, c, cs);
    DiscardNone(a, cs);
    DiscardNone(c, cs);
    DiscardNone(e, cs);
  }

  /** The example of the unit tests: `x2: X-men united` becomes `x2_xmen_united`. */
  lemma FormatNameX2()
    ensures FormattedName("x2: X-men united", "_") == "x2_xmen_united"
  {
    LowerX2();
    DiscardX2();
    SeparatorX2();
    FormattedNameStages("x2: X-men united", "x2: x-men united", "x2 xmen united", "_");
  }

  lemma LowerX2()
    ensures Lower("x2: X-men united") == "x2: x-men united"
  {
    LowerPointwise("x2: X-men united", "x2: x-men united");
  }

  lemma DiscardX2()
    ensures Discard("x2: x-men united", RemoveSet) == "x2 xmen united"
  {
    var a, c, e := "x2", " x", "men united";
    assert forall i :: 0 <= i < |a| ==> a[i] !in RemoveSet;
    assert forall i :: 0 <= i < |c| ==> c[i] !in RemoveSet;
    assert forall i :: 0 <= i < |e| ==> e[i] !in RemoveSet;
    DiscardTwoMarks(a, ':', c, '-', e, RemoveSet);
    assert a + [':'] + c + ['-'] + e == "x2: x-men united";
    assert a + c + e == "x2 xmen united";
  }

  lemma SeparatorX2()
    ensures ReplaceAll("x2 xmen united", " ", "_") == "x2_xmen_united"
  {
    ReplaceCharGives("x2 xmen united", ' ', '_', "x2_xmen_united");
  }

  /** The second example of the unit tests: `The Dark Knight`. */
  lemma FormatNameDarkKnight()
    ensures FormattedName("The Dark Knight", "_") == "the_dark_knight"
  {
    LowerDarkKnight();
    DiscardDarkKnight();
    SeparatorDarkKnight();
    FormattedNameStages("The Dark Knight", "the dark knight", "the dark knight", "_");
  }

  lemma LowerDarkKnight()
    ensures Lower("The Dark Knight") == "the dark knight"
  {
    LowerPointwise("The Dark Knight", "the dark knight");
  }

  lemma DiscardDarkKnight()
    ensures Discard("the dark knight", RemoveSet) == "the dark knight"
  {
    var t := "the dark knight";
    assert forall i :: 0 <= i < |t| ==> t[i] !in RemoveSet;
    DiscardNone(t, RemoveSet);
  }

  lemma SeparatorDarkKnight()
    ensures ReplaceAll("the dark knight", " ", "_") == "the_dark_knight"
  {
    ReplaceCharGives("the dark knight", ' ', '_', "the_dark_knight");
  }

  // ---------------------------------------------------------------------
  // _build_url
  // ---------------------------------------------------------------------

  /** `_build_url`: the movie page URL `<base>m/<slug>/`; any media type
      other than `Movie` is refused. */
  function BuildUrl(name: string, mType: string, sep: string): (r: Result<string, UrlError>)
    ensures r.Failure? <==> mType != "Movie"
    ensures r.Failure? ==> r.error == UnsupportedType(mType)
    ensures r.Success? ==>
      && |r.value| == |RtBaseUrl| + 3 + |FormattedName(name, sep)|
      && StartsWith(r.value, RtBaseUrl + "m/")
      && EndsWith(r.value, "/")
      && r.value[|RtBaseUrl| + 2..|r.value| - 1] == FormattedName(name, sep)
  {
    if mType == "Movie" then Success(RtBaseUrl + "m/" + FormattedName(name, sep) + "/")
    else Failure(UnsupportedType(mType))
  }

  /** A movie URL from a slug already worked out. */
  lemma BuildUrlOf(name: string, sep: string, slug: string)
    requires FormattedName(name, sep) == slug
    ensures BuildUrl(name, "Movie", sep) == Success(RtBaseUrl + "m/" + slug + "/")
  {
  }

  /** The URLs of the unit tests. */
  lemma BuildUrlX2()
    ensures BuildUrl("x2: X-men united", "Movie", "_") == Success("https://www.rottentomatoes.com/m/x2_xmen_united/")
  {
    FormatNameX2();
    BuildUrlOf("x2: X-men united", "_", "x2_xmen_united");
    UrlX2();
  }

  lemma UrlX2()
    ensures RtBaseUrl + "m/" + "x2_xmen_united" + "/" == "https://www.rottentomatoes.com/m/x2_xmen_united/"
  {
  }

  lemma BuildUrlDarkKnight()
    ensures BuildUrl("The Dark Knight", "Movie", "_") == Success("https://www.rottentomatoes.com/m/the_dark_knight/")
  {
    FormatNameDarkKnight();
    BuildUrlOf("The Dark Knight", "_", "the_dark_knight");
    UrlDarkKnight();
  }

  lemma UrlDarkKnight()
    ensures RtBaseUrl + "m/" + "the_dark_knight" + "/" == "https://www.rottentomatoes.com/m/the_dark_knight/"
  {
  }

  // ---------------------------------------------------------------------
  // set_crawl_rate / get_crawl_rate over the shared container
  // ---------------------------------------------------------------------

  /** `get_crawl_rate`: reads the container's field directly and falls back
      to the default; it agrees with the container's own getter. */
  function GetCrawlRate(cont: LibGlobalsContainer): (rate: real)
    reads cont
    requires cont.Valid()
    ensures rate > 0.0
    ensures rate == cont.CrawlRate()
  {
    if cont.customCrawlRate != 0.0 then cont.customCrawlRate else DefaultCrawlRate
  }

  /** `set_crawl_rate`: rejects a non-positive rate itself, leaving the
      container untouched; otherwise delegates to the container. */
  method SetCrawlRate(cont: LibGlobalsContainer, rate: real) returns (outcome: Result<(), ConfigError>)
    requires cont.Valid()
    modifies cont
    ensures cont.Valid()
    ensures cont.verbose == old(cont.verbose)
    ensures outcome.Failure? <==> rate <= 0.0
    ensures outcome.Failure? ==> cont.customCrawlRate == old(cont.customCrawlRate)
    ensures outcome.Success? ==> GetCrawlRate(cont) == rate
  {
    if rate <= 0.0 {
      return Failure(NonPositiveRate(rate));
    }
    outcome := cont.SetCrawlRate(rate);
  }
}
