/** Critic-review extraction from one review page and accumulation over all
    review pages (tomatopy/reviews.py). The regular-expression searches are
    not modelled: `scan(block)` stands for the `re.findall` results of the
    six field patterns on one review block, `markers(soup)` for those of the
    `Page 1 of N` pattern, and `fetch(url)` for the page a URL returns. */
module Reviews {
  import opened Wrappers
  import opened Text

  /** Marker in front of the review table. */
  const TableMarker: string := "=\"review_table"
  /** Marker that starts each review row. */
  const RowMarker: string := "row review_table_row"
  /** Text deleted from the matched review text. */
  const ReviewOpen: string := "<div class=\"the_review\"> "
  const DivClose: string := "</div>"
  /** Label whose presence anywhere in a block marks a top critic. */
  const TopCriticLabel: string := "> Top Critic<"
  /** Text deleted from the matched publisher. */
  const PublisherOpen: string := "\"subtle\">"
  const EmClose: string := "</em>"

  /** The `re.findall` results for one review block, one list per pattern;
      a pattern with several capture groups yields one tuple per match, with
      one component per group: four for the score, three for the critic. */
  datatype BlockMatches = BlockMatches(
    review: seq<string>,
    rating: seq<(string, string, string, string)>,
    freshness: seq<string>,
    critic: seq<(string, string, string)>,
    publisher: seq<string>,
    date: seq<string>)

  /** One critic review: the entries the seven columns hold at one index.
      `topCritic` is 1 or 0, as in the source. */
  datatype Review = Review(
    text: string,
    rating: Option<string>,
    freshness: Option<string>,
    critic: Option<string>,
    topCritic: int,
    publisher: Option<string>,
    date: Option<string>)

  /** The seven parallel lists `reviews`, `rating`, `fresh`, `critic`,
      `top_critic`, `publisher` and `date`. */
  datatype Columns = Columns(
    reviews: seq<string>,
    rating: seq<Option<string>>,
    freshness: seq<Option<string>>,
    critic: seq<Option<string>>,
    topCritic: seq<int>,
    publisher: seq<Option<string>>,
    date: seq<Option<string>>)
  {
    /** All seven columns have the same length. */
    predicate Aligned() {
      && |rating| == |reviews|
      && |freshness| == |reviews|
      && |critic| == |reviews|
      && |topCritic| == |reviews|
      && |publisher| == |reviews|
      && |date| == |reviews|
    }

    function Size(): nat {
      |reviews|
    }

    /** The review stored at index `i` across the columns. */
    function Row(i: nat): Review
      requires Aligned() && i < Size()
    {
      Review(reviews[i], rating[i], freshness[i], critic[i], topCritic[i], publisher[i], date[i])
    }

    /** The reviews, read row by row. */
    function Rows(): (rs: seq<Review>)
      requires Aligned()
      ensures |rs| == Size()
      ensures forall i :: 0 <= i < Size() ==> rs[i] == Row(i)
    {
      seq(Size(), i requires 0 <= i < Size() => Row(i))
    }

    /** Appends one review to every column at once. */
    function Append(rv: Review): (c: Columns)
      requires Aligned()
      ensures c.Aligned() && c.Size() == Size() + 1
      ensures c.Rows() == Rows() + [rv]
    {
      var c := Columns(reviews + [rv.text], rating + [rv.rating], freshness + [rv.freshness],
        critic + [rv.critic], topCritic + [rv.topCritic], publisher + [rv.publisher], date + [rv.date]);
      assert forall i :: 0 <= i < Size() ==> c.Row(i) == Row(i);
      c
    }

    /** `info[i] = info[i] + c_info[i]` for each of the seven columns. */
    function Concat(other: Columns): (c: Columns)
      ensures Aligned() && other.Aligned() ==> c.Aligned() && c.Size() == Size() + other.Size()
      ensures Aligned() && other.Aligned() ==> c.Rows() == Rows() + other.Rows()
    {
      var c := Columns(reviews + other.reviews, rating + other.rating, freshness + other.freshness,
        critic + other.critic, topCritic + other.topCritic, publisher + other.publisher,
        date + other.date);
      if Aligned() && other.Aligned() then
        assert forall i :: 0 <= i < Size() ==> c.Row(i) == Row(i);
        assert forall i :: Size() <= i < c.Size() ==> c.Row(i) == other.Row(i - Size());
        c
      else c
    }
  }

  /** Seven empty lists. */
  const NoColumns: Columns := Columns([], [], [], [], [], [], [])

  /** The columns holding `rows`, appended one at a time; reading them back
      row by row gives `rows`. */
  function FromReviews(rows: seq<Review>): (c: Columns)
    ensures c.Aligned()
    ensures c.Rows() == rows
  {
    if rows == [] then NoColumns
    else FromReviews(rows[..|rows| - 1]).Append(rows[|rows| - 1])
  }

  /** Appending a review to the rows appends it to the columns. */
  lemma FromReviewsSnoc(rows: seq<Review>, rv: Review)
    ensures FromReviews(rows + [rv]) == FromReviews(rows).Append(rv)
  {
    assert (rows + [rv])[..|rows|] == rows;
  }

  /** Columns with the same rows are the same columns. */
  lemma {:induction false} RowsDetermineColumns(c: Columns)
    requires c.Aligned()
    ensures FromReviews(c.Rows()) == c
  {
    var d := FromReviews(c.Rows());
    assert d.Rows() == c.Rows();
    forall i | 0 <= i < c.Size()
      ensures d.Row(i) == c.Row(i)
    {
      assert d.Row(i) == d.Rows()[i] == c.Rows()[i] == c.Row(i);
    }
    SameRowsSameColumns(d, c);
  }

  lemma SameRowsSameColumns(d: Columns, c: Columns)
    requires d.Aligned() && c.Aligned() && d.Size() == c.Size()
    requires forall i :: 0 <= i < c.Size() ==> d.Row(i) == c.Row(i)
    ensures d == c
  {
    forall i | 0 <= i < c.Size() ensures d.reviews[i] == c.reviews[i] {
      assert d.Row(i) == c.Row(i);
    }
    forall i | 0 <= i < c.Size() ensures d.rating[i] == c.rating[i] {
      assert d.Row(i) == c.Row(i);
    }
    forall i | 0 <= i < c.Size() ensures d.freshness[i] == c.freshness[i] {
      assert d.Row(i) == c.Row(i);
    }
    forall i | 0 <= i < c.Size() ensures d.critic[i] == c.critic[i] {
      assert d.Row(i) == c.Row(i);
    }
    forall i | 0 <= i < c.Size() ensures d.topCritic[i] == c.topCritic[i] {
      assert d.Row(i) == c.Row(i);
    }
    forall i | 0 <= i < c.Size() ensures d.publisher[i] == c.publisher[i] {
      assert d.Row(i) == c.Row(i);
    }
    forall i | 0 <= i < c.Size() ensures d.date[i] == c.date[i] {
      assert d.Row(i) == c.Row(i);
    }
  }

  // ---------------------------------------------------------------------
  // Score normalisation
  // ---------------------------------------------------------------------

  /** The source's fix for scores printed as `n/1`: when the token contains
      `/1` and its last `/`-separated piece is exactly `1`, that piece
      becomes `10`; the pieces are joined back with `/` in any case. The
      effect is that a `0` is appended to exactly the tokens ending in `/1`. */
  function NormalizeScore(m: string): (r: string)
    ensures r == if EndsWith(m, "/1") then m + "0" else m
  {
    ScoreCases(m);
    if Contains(m, "/1") then
      var parts := Split(m, "/");
      if Last(parts) == "1" then Join("/", parts[..|parts| - 1] + ["10"])
      else Join("/", parts)
    else m
  }

  /** The two cases of the normalisation, on the pieces it computes. */
  lemma ScoreCases(m: string)
    ensures var parts := Split(m, "/");
      && (EndsWith(m, "/1") ==> Contains(m, "/1") && Last(parts) == "1" && Join("/", parts[..|parts| - 1] + ["10"]) == m + "0")
      && (!EndsWith(m, "/1") ==> Join("/", parts) == m && (Contains(m, "/1") ==> Last(parts) != "1"))
  {
    if EndsWith(m, "/1") {
      var p := m[..|m| - 2];
      assert m == p + "/1";
      ScoreEndingInOne(p);
      assert p + "/10" == m + "0";
    } else {
      ScoreNotEndingInOne(m);
    }
  }

  /** For a token ending in `/1`, the last `/`-separated piece is `1`, and
      putting `10` in its place and joining gives the token with a `0`
      appended. */
  lemma ScoreEndingInOne(p: string)
    ensures var parts := Split(p + "/1", "/");
      && Contains(p + "/1", "/1")
      && Last(parts) == "1"
      && Join("/", parts[..|parts| - 1] + ["10"]) == p + "/10"
  {
    var m := p + "/1";
    assert OccursAt(m, "/1", |p|);
    ContainsIff(m, "/1");
    assert m == p + ['/'] + "1";
    SplitAroundChar(p, "1", '/');
    ContainsChar("1", '/');
    SplitAbsent("1", "/");
    var parts := Split(m, "/");
    assert parts == Split(p, "/") + ["1"];
    assert parts[..|parts| - 1] == Split(p, "/");
    SplitJoin(p, "/");
    JoinSnoc("/", Split(p, "/"), "10");
  }

  /** A token whose last `/`-separated piece is `1` ends in `/1`. */
  lemma LastPieceOne(m: string)
    ensures Contains(m, "/") && Last(Split(m, "/")) == "1" ==> EndsWith(m, "/1")
  {
    if Contains(m, "/") {
      SplitJoin(m, "/");
      SplitHasSecond(m, "/");
      var parts := Split(m, "/");
      JoinSnoc("/", parts[..|parts| - 1], Last(parts));
      assert parts[..|parts| - 1] + [Last(parts)] == parts;
    }
  }

  /** For any other token, even one containing `/1`, the last piece is not
      `1` and joining the pieces gives the token back. */
  lemma ScoreNotEndingInOne(m: string)
    requires !EndsWith(m, "/1")
    ensures Join("/", Split(m, "/")) == m
    ensures Contains(m, "/1") ==> Last(Split(m, "/")) != "1"
  {
    SplitJoin(m, "/");
    LastPieceOne(m);
    SlashOneHasSlash(m);
  }

  lemma SlashOneHasSlash(m: string)
    ensures Contains(m, "/1") ==> Contains(m, "/")
  {
    ContainsIff(m, "/1");
    ContainsIff(m, "/");
    if Contains(m, "/1") {
      var i: nat :| OccursAt(m, "/1", i);
      assert m[i..i + 1] == m[i..i + 2][..1];
      assert OccursAt(m, "/", i);
    }
  }

  /** Examples: `9/1` becomes `9/10`; `8/10` and `B+` are kept. */
  lemma ScoreExamples()
    ensures NormalizeScore("9/1") == "9/10"
    ensures NormalizeScore("8/10") == "8/10"
    ensures NormalizeScore("B+") == "B+"
  {
    assert EndsWith("9/1", "/1");
    assert "9/1"[1..] == "/1";
    assert !EndsWith("8/10", "/1");
    assert !EndsWith("B+", "/1");
  }

  // ---------------------------------------------------------------------
  // One block
  // ---------------------------------------------------------------------

  /** The review text: the div markup deleted and `"` stripped at both ends. */
  function ReviewText(m: string): (r: string)
    ensures r != [] ==> r[0] != '"' && r[|r| - 1] != '"'
  {
    StripSet(ReplaceAll(ReplaceAll(m, ReviewOpen, ""), DivClose, ""), {'"'})
  }

  /** For the shape the review pattern matches — the opening tag, a text
      without `<`, the closing tag — the review is that text with the quotes
      at its ends stripped. */
  lemma ReviewOfMatch(body: string)
    requires '<' !in body
    ensures ReviewText(ReviewOpen + body + DivClose) == StripSet(body, {'"'})
  {
    DropOpenAndClose(ReviewOpen, body, DivClose);
  }

  /** Deleting an opening tag that starts the text, then a closing tag that
      ends it, leaves the text between them when that text holds neither
      tag's first character and the closing tag is shorter than the
      opening one. */
  lemma DropOpenAndClose(open: string, body: string, close: string)
    requires open != [] && close != [] && |close| < |open|
    requires open[0] !in body && close[0] !in body
    ensures ReplaceAll(ReplaceAll(open + body + close, open, ""), close, "") == body
  {
    assert open + body + close == open + (body + close);
    ReplaceAtFront(open, body + close, "");
    ReplaceHeadFree(body, close, open, "");
    ReplaceShorter(close, open, "");
    var once := ReplaceAll(open + body + close, open, "");
    assert once == body + close;
    ReplaceHeadFree(body, close, close, "");
    assert close == close + [];
    ReplaceAtFront(close, [], "");
    assert ReplaceAll(close, close, "") == [];
    assert body + [] == body;
  }

  /** The publisher: the label markup and the closing tag deleted. */
  function PublisherText(m: string): string {
    ReplaceAll(ReplaceAll(m, PublisherOpen, ""), EmClose, "")
  }

  /** For the shape the publisher pattern matches — the label markup, a name
      without `<` or `"`, the closing tag — the publisher is the bare name. */
  lemma PublisherOfMatch(name: string)
    requires '<' !in name && '"' !in name
    ensures PublisherText(PublisherOpen + name + EmClose) == name
  {
    DropOpenAndClose(PublisherOpen, name, EmClose);
  }

  /** What one block contributes: nothing when the review text did not
      match, whatever else matched; otherwise the review with each other
      field taken from the first match of its pattern or left absent, and
      the top-critic flag set exactly when the label occurs in the block. */
  function BlockReview(block: string, m: BlockMatches): (r: Option<Review>)
    ensures r.None? <==> m.review == []
    ensures r.Some? ==> r.value.topCritic == if exists i: nat :: OccursAt(block, TopCriticLabel, i) then 1 else 0
    ensures r.Some? ==> r.value.text == ReviewText(m.review[0])
    ensures r.Some? ==> (r.value.rating.Some? <==> m.rating != [])
    ensures r.Some? ==> (r.value.freshness.Some? <==> m.freshness != [])
    ensures r.Some? ==> (r.value.critic.Some? <==> m.critic != [])
    ensures r.Some? ==> (r.value.publisher.Some? <==> m.publisher != [])
    ensures r.Some? ==> (r.value.date.Some? <==> m.date != [])
  {
    ContainsIff(block, TopCriticLabel);
    if m.review == [] then None
    else Some(Review(
      ReviewText(m.review[0]),
      if m.rating == [] then None else Some(NormalizeScore(m.rating[0].0)),
      if m.freshness == [] then None else Some(m.freshness[0]),
      if m.critic == [] then None else Some(m.critic[0].0 + m.critic[0].1 + m.critic[0].2),
      if Contains(block, TopCriticLabel) then 1 else 0,
      if m.publisher == [] then None else Some(PublisherText(m.publisher[0])),
      if m.date == [] then None else Some(StripSet(m.date[0], {'"'}))))
  }

  /** The reviews of a list of blocks, in block order. */
  function PageReviews(blocks: seq<string>, scan: string -> BlockMatches): (rows: seq<Review>)
    ensures |rows| <= |blocks|
  {
    if blocks == [] then []
    else PageReviews(blocks[..|blocks| - 1], scan) + BlockRows(blocks[|blocks| - 1], scan)
  }

  /** The row one block contributes: none when its review text did not match. */
  function BlockRows(block: string, scan: string -> BlockMatches): seq<Review> {
    match BlockReview(block, scan(block)) case None => [] case Some(rv) => [rv]
  }

  /** One more block extends the reviews by what that block contributes. */
  lemma PageReviewsStep(blocks: seq<string>, i: nat, scan: string -> BlockMatches)
    requires i < |blocks|
    ensures PageReviews(blocks[..i + 1], scan) == PageReviews(blocks[..i], scan)
      + match BlockReview(blocks[i], scan(blocks[i])) case None => [] case Some(rv) => [rv]
  {
    assert blocks[..i + 1][..i] == blocks[..i];
  }

  /** Reviews of consecutive blocks are the reviews of each part, in order. */
  lemma {:induction false} PageReviewsAppend(a: seq<string>, b: seq<string>, scan: string -> BlockMatches)
    ensures PageReviews(a + b, scan) == PageReviews(a, scan) + PageReviews(b, scan)
    decreases |b|
  {
    if b == [] {
      assert a + b == a;
    } else {
      var init, x := b[..|b| - 1], b[|b| - 1];
      PageReviewsAppend(a, init, scan);
      SnocParts(a, b);
      PageReviewsSnoc(a + init, x, scan);
      PageReviewsSnoc(init, x, scan);
      SnocAssoc(PageReviews(a + init, scan), PageReviews(a, scan), PageReviews(init, scan), BlockRows(x, scan));
    }
  }

  /** One more block contributes its row, if any. */
  lemma PageReviewsSnoc(init: seq<string>, x: string, scan: string -> BlockMatches)
    ensures PageReviews(init + [x], scan) == PageReviews(init, scan) + BlockRows(x, scan)
  {
    var blocks := init + [x];
    assert blocks[..|blocks| - 1] == init;
    assert blocks[|blocks| - 1] == x;
  }

  /** A block whose review text did not match adds nothing, wherever it is. */
  lemma GatedBlockAddsNothing(a: seq<string>, block: string, b: seq<string>, scan: string -> BlockMatches)
    requires scan(block).review == []
    ensures PageReviews(a + [block] + b, scan) == PageReviews(a + b, scan)
  {
    assert PageReviews([block], scan) == [] by {
      assert [block][..0] == [];
      assert BlockReview(block, scan(block)).None?;
    }
    PageReviewsAppend(a, [block], scan);
    assert PageReviews(a + [block], scan) == PageReviews(a, scan);
    PageReviewsAppend(a + [block], b, scan);
    PageReviewsAppend(a, b, scan);
  }

  // ---------------------------------------------------------------------
  // One page
  // ---------------------------------------------------------------------

  /** The exceptions of the review scrape: `IndexError` for a page without
      the review table, `ValueError` for a page count that is not a number. */
  datatype PageError = MissingReviewTable | NotANumber(text: string)

  /** The review blocks of a page: the text between the first and the second
      table marker split at each row marker, the piece before the first row
      dropped. A page without the table marker has none to give. */
  function ReviewBlocks(soup: string): (r: Option<seq<string>>)
    ensures r.Some? <==> Contains(soup, TableMarker)
  {
    SplitHasSecond(soup, TableMarker);
    var pieces := Split(soup, TableMarker);
    if |pieces| < 2 then None else Some(Split(pieces[1], RowMarker)[1..])
  }

  /** A table without any row marker yields no block at all: the only piece
      is the one before the first row, and it is dropped. */
  lemma NoRowNoBlocks(soup: string)
    requires |Split(soup, TableMarker)| >= 2
    requires !Contains(Split(soup, TableMarker)[1], RowMarker)
    ensures ReviewBlocks(soup) == Some([])
  {
    var section := Split(soup, TableMarker)[1];
    SplitHasSecond(soup, TableMarker);
    SplitAbsent(section, RowMarker);
    assert Split(section, RowMarker)[1..] == [];
  }

  /** What `_get_critic_reviews_from_page` returns for a page. */
  function PageColumns(soup: string, scan: string -> BlockMatches): (r: Result<Columns, PageError>)
    ensures r.Failure? <==> !Contains(soup, TableMarker)
    ensures r.Failure? ==> r.error == MissingReviewTable
    ensures r.Success? ==> r.value.Aligned() && r.value.Size() <= |ReviewBlocks(soup).value|
  {
    match ReviewBlocks(soup)
    case None => Failure(MissingReviewTable)
    case Some(blocks) => Success(FromReviews(PageReviews(blocks, scan)))
  }

  /** `_get_critic_reviews_from_page`: split the page into blocks, then for
      each block whose review text matched, append one entry to each of the
      seven lists. */
  method CriticReviewsFromPage(soup: string, scan: string -> BlockMatches) returns (r: Result<Columns, PageError>)
    ensures r == PageColumns(soup, scan)
  {
    SplitHasSecond(soup, TableMarker);
    var pieces := Split(soup, TableMarker);
    if |pieces| < 2 {
      return Failure(MissingReviewTable);
    }
    var reviewSoup := Split(pieces[1], RowMarker);
    reviewSoup := reviewSoup[1..];
    var reviews, rating, freshness, critic := [], [], [], [];
    var topCritic, publisher, date := [], [], [];
    for i := 0 to |reviewSoup|
      invariant Columns(reviews, rating, freshness, critic, topCritic, publisher, date)
        == FromReviews(PageReviews(reviewSoup[..i], scan))
    {
      var block := reviewSoup[i];
      var m := scan(block);
      PageReviewsStep(reviewSoup, i, scan);
      if |m.review| > 0 {
        ghost var before := Columns(reviews, rating, freshness, critic, topCritic, publisher, date);
        ghost var rv := BlockReview(block, m).value;
        reviews := reviews + [ReviewText(m.review[0])];
        if |m.rating| > 0 {
          rating := rating + [Some(NormalizeScore(m.rating[0].0))];
        } else {
          rating := rating + [None];
        }
        assert rating == before.rating + [rv.rating];
        if |m.freshness| > 0 {
          freshness := freshness + [Some(m.freshness[0])];
        } else {
          freshness := freshness + [None];
        }
        assert freshness == before.freshness + [rv.freshness];
        if |m.critic| > 0 {
          critic := critic + [Some(m.critic[0].0 + m.critic[0].1 + m.critic[0].2)];
        } else {
          critic := critic + [None];
        }
        assert critic == before.critic + [rv.critic];
        if Contains(block, TopCriticLabel) {
          topCritic := topCritic + [1];
        } else {
          topCritic := topCritic + [0];
        }
        assert topCritic == before.topCritic + [rv.topCritic];
        if |m.publisher| > 0 {
          publisher := publisher + [Some(PublisherText(m.publisher[0]))];
        } else {
          publisher := publisher + [None];
        }
        assert publisher == before.publisher + [rv.publisher];
        if |m.date| > 0 {
          date := date + [Some(StripSet(m.date[0], {'"'}))];
        } else {
          date := date + [None];
        }
        assert date == before.date + [rv.date];
        assert reviews == before.reviews + [rv.text];
        assert Columns(reviews, rating, freshness, critic, topCritic, publisher, date) == before.Append(rv);
        FromReviewsSnoc(PageReviews(reviewSoup[..i], scan), rv);
      } else {
        assert PageReviews(reviewSoup[..i + 1], scan) == PageReviews(reviewSoup[..i], scan);
      }
    }
    assert reviewSoup[..|reviewSoup|] == reviewSoup;
    r := Success(Columns(reviews, rating, freshness, critic, topCritic, publisher, date));
  }

  // ---------------------------------------------------------------------
  // All pages
  // ---------------------------------------------------------------------

  /** `_get_num_pages`: the text after the last ` of ` in the first
      `Page 1 of N` match, or `None` when nothing matched. */
  function NumPages(matches: seq<string>): (r: Option<string>)
    ensures r.Some? <==> matches != []
  {
    if matches == [] then None else Some(Last(Split(matches[0], " of ")))
  }

  /** The page count is the text after the ` of ` in the first match,
      whatever later matches follow. */
  lemma NumPagesOfMarker(prefix: string, digits: string, later: seq<string>)
    requires AllDigits(digits)
    requires !Contains(prefix + " of", " of ")
    ensures NumPages([prefix + " of " + digits] + later) == Some(digits)
  {
    var sep := " of ";
    ContainsIff(digits, sep);
    assert forall i: nat :: OccursAt(digits, sep, i) ==> digits[i] == digits[i..i + 4][0] == ' ';
    assert sep[..|sep| - 1] == " of";
    SplitOnce(prefix, sep, digits);
  }

  /** The marker `Page 1 of 3` gives the page count `3`. */
  lemma NumPagesExample()
    ensures NumPages(["Page 1 of 3"]) == Some("3")
  {
    var prefix := "Page 1";
    var s := prefix + " of";
    assert s == "Page 1 of";
    forall i: nat | i + 4 <= |s| ensures !OccursAt(s, " of ", i) {
      assert s[i..i + 4][0] == s[i] && s[i..i + 4][1] == s[i + 1];
    }
    ContainsIff(s, " of ");
    NumPagesOfMarker(prefix, "3", []);
    assert prefix + " of " + "3" == "Page 1 of 3";
    assert [prefix + " of " + "3"] + [] == ["Page 1 of 3"];
  }

  /** The query that selects a review page, and the one that closes the URL. */
  const PageQuery: string := "reviews?page="
  const SortQuery: string := "&sort="

  /** The URL of review page `n`. */
  function PageUrl(page: string, n: nat): string {
    page + PageQuery + NatToDecimal(n) + SortQuery
  }

  /** The page number can be read back from the URL of its review page. */
  lemma PageUrlNumber(page: string, n: nat)
    ensures var url := PageUrl(page, n);
      && StartsWith(url, page + PageQuery) && EndsWith(url, SortQuery)
      && |page + PageQuery| < |url| - |SortQuery|
      && ParseNat(url[|page + PageQuery|..|url| - |SortQuery|]) == Some(n)
  {
    var digits := NatToDecimal(n);
    var url := PageUrl(page, n);
    assert url[|page + PageQuery|..|url| - |SortQuery|] == digits;
    ParseNatToDecimal(n);
  }

  /** One step of the page loop: an earlier failure stands, a failing page
      aborts, otherwise the page's columns are appended. */
  function AddPage(acc: Result<Columns, PageError>, p: Result<Columns, PageError>): (r: Result<Columns, PageError>)
    ensures r.Success? <==> acc.Success? && p.Success?
    ensures acc.Failure? ==> r == acc
    ensures acc.Success? && p.Failure? ==> r == p
    ensures r.Success? && acc.value.Aligned() && p.value.Aligned() ==>
      r.value.Aligned() && r.value.Rows() == acc.value.Rows() + p.value.Rows()
  {
    match acc
    case Failure(e) => Failure(e)
    case Success(prev) =>
      match p
      case Failure(e) => Failure(e)
      case Success(c) => Success(prev.Concat(c))
  }

  /** The loop over the page results, in page order, from seven empty lists. */
  function Accumulate(results: seq<Result<Columns, PageError>>): (r: Result<Columns, PageError>)
    ensures r.Success? && AllAligned(results) ==> r.value.Aligned()
  {
    if results == [] then Success(NoColumns)
    else
      var init := results[..|results| - 1];
      assert AllAligned(results) ==> AllAligned(init) by {
        assert forall i :: 0 <= i < |init| ==> init[i] == results[i];
      }
      AddPage(Accumulate(init), results[|results| - 1])
  }

  /** One more page result extends the accumulation by that page. */
  lemma AccumulateStep(results: seq<Result<Columns, PageError>>, j: nat)
    requires j < |results|
    ensures Accumulate(results[..j + 1]) == AddPage(Accumulate(results[..j]), results[j])
  {
    assert results[..j + 1][..j] == results[..j];
    assert results[..j + 1][j] == results[j];
  }

  /** One turn of the page loop: a failing page ends the accumulation with
      its error; a succeeding page appends its columns. */
  lemma PageStep(results: seq<Result<Columns, PageError>>, j: nat, info: Columns)
    requires j < |results| && AllAligned(results)
    requires Accumulate(results[..j]) == Success(info) && info.Aligned()
    ensures results[j].Failure? ==> Accumulate(results) == Failure(results[j].error)
    ensures results[j].Success? ==>
      && Accumulate(results[..j + 1]) == Success(info.Concat(results[j].value))
      && info.Concat(results[j].value).Aligned()
  {
    AccumulateStep(results, j);
    if results[j].Failure? {
      FailurePersists(results, j + 1);
    }
  }

  /** Every page result that succeeded holds aligned columns. */
  predicate AllAligned(results: seq<Result<Columns, PageError>>) {
    forall i :: 0 <= i < |results| && results[i].Success? ==> results[i].value.Aligned()
  }

  /** The accumulation succeeds exactly when every page does, and its rows
      are then the pages' rows, page after page. */
  lemma {:induction false} AccumulateSucceeds(results: seq<Result<Columns, PageError>>)
    requires AllAligned(results)
    ensures Accumulate(results).Success? <==> forall i :: 0 <= i < |results| ==> results[i].Success?
    ensures Accumulate(results).Success? ==> Accumulate(results).value.Aligned()
    ensures Accumulate(results).Success? && results != [] ==>
      Accumulate(results).value.Rows() == Accumulate(results[..|results| - 1]).value.Rows() + results[|results| - 1].value.Rows()
  {
    if results != [] {
      var init := results[..|results| - 1];
      AccumulateSucceeds(init);
      assert forall i :: 0 <= i < |init| ==> init[i] == results[i];
    }
  }

  /** A failed accumulation reports the error of the first failing page. */
  lemma {:induction false} FirstFailureReported(results: seq<Result<Columns, PageError>>)
    ensures Accumulate(results).Failure? ==>
      exists i :: 0 <= i < |results| && results[i].Failure? && Accumulate(results).error == results[i].error
        && forall j :: 0 <= j < i ==> results[j].Success?
  {
    if results != [] {
      var init := results[..|results| - 1];
      FirstFailureReported(init);
      assert forall i :: 0 <= i < |init| ==> init[i] == results[i];
      if Accumulate(init).Success? && Accumulate(results).Failure? {
        AccumulatePrefixSucceeds(init);
        assert results[|init|].Failure?;
      }
    }
  }

  /** A successful accumulation had every page succeed. */
  lemma {:induction false} AccumulatePrefixSucceeds(results: seq<Result<Columns, PageError>>)
    requires Accumulate(results).Success?
    ensures forall i :: 0 <= i < |results| ==> results[i].Success?
  {
    if results != [] {
      var init := results[..|results| - 1];
      AccumulatePrefixSucceeds(init);
      assert forall i :: 0 <= i < |init| ==> init[i] == results[i];
    }
  }

  /** Once a page fails, later pages change nothing. */
  lemma {:induction false} FailurePersists(results: seq<Result<Columns, PageError>>, j: nat)
    requires j <= |results|
    requires Accumulate(results[..j]).Failure?
    ensures Accumulate(results) == Accumulate(results[..j])
  {
    if j < |results| {
      var init := results[..|results| - 1];
      assert init[..j] == results[..j];
      FailurePersists(init, j);
    } else {
      assert results[..j] == results;
    }
  }

  /** Pages are kept in ascending order: the reviews of the first j pages
      come first, unchanged, in the reviews of all pages. */
  lemma {:induction false} PagesInOrder(results: seq<Result<Columns, PageError>>, j: nat)
    requires j <= |results|
    requires AllAligned(results)
    requires Accumulate(results).Success?
    ensures AllAligned(results[..j]) && Accumulate(results[..j]).Success?
    ensures Accumulate(results[..j]).value.Rows() <= Accumulate(results).value.Rows()
  {
    AccumulateSucceeds(results);
    if j < |results| {
      var init := results[..|results| - 1];
      assert init[..j] == results[..j];
      assert forall i :: 0 <= i < |init| ==> init[i] == results[i];
      PagesInOrder(init, j);
      AccumulateSucceeds(init);
    } else {
      assert results[..j] == results;
    }
  }

  /** With every page holding `m` reviews, `n` pages hold `n * m`. */
  lemma {:induction false} UniformPages(results: seq<Result<Columns, PageError>>, m: nat)
    requires AllAligned(results)
    requires forall i :: 0 <= i < |results| ==> results[i].Success? && results[i].value.Size() == m
    ensures Accumulate(results).Success?
    ensures Accumulate(results).value.Size() == |results| * m
  {
    AccumulateSucceeds(results);
    if results != [] {
      var init := results[..|results| - 1];
      assert forall i :: 0 <= i < |init| ==> init[i] == results[i];
      UniformPages(init, m);
      AccumulateSucceeds(init);
      assert |Accumulate(results).value.Rows()| == (|results| - 1) * m + m;
      assert (|results| - 1) * m + m == |results| * m;
    }
  }

  /** The results of review pages 1..n, in page order. */
  function PageResults(page: string, fetch: string -> string, scan: string -> BlockMatches, n: nat): (rs: seq<Result<Columns, PageError>>)
    ensures |rs| == n && AllAligned(rs)
    ensures forall i :: 0 <= i < n ==> rs[i] == PageColumns(fetch(PageUrl(page, i + 1)), scan)
  {
    var rs := seq(n, i requires 0 <= i < n => PageColumns(fetch(PageUrl(page, i + 1)), scan));
    assert forall i :: 0 <= i < n ==> rs[i] == PageColumns(fetch(PageUrl(page, i + 1)), scan);
    rs
  }

  /** What `get_critic_reviews` returns: `None` without a page count;
      otherwise the columns of pages 1..N. */
  function CriticReviews(page: string, fetch: string -> string, markers: string -> seq<string>,
                         scan: string -> BlockMatches): (r: Result<Option<Columns>, PageError>)
    ensures var pages := NumPages(markers(fetch(page + "reviews")));
      && (pages.None? ==> r == Success(None))
      && (pages.Some? && ParseNat(pages.value).None? ==> r == Failure(NotANumber(pages.value)))
      && (pages.Some? && ParseNat(pages.value).Some? ==>
            var results := PageResults(page, fetch, scan, ParseNat(pages.value).value);
            && (r.Success? <==> forall i :: 0 <= i < |results| ==> results[i].Success?)
            && (r.Success? ==> r.value.Some? && r.value.value.Aligned())
            && (r.Failure? ==> exists i :: 0 <= i < |results| && results[i].Failure? && r.error == results[i].error))
  {
    match NumPages(markers(fetch(page + "reviews")))
    case None => Success(None)
    case Some(text) =>
      match ParseNat(text)
      case None => Failure(NotANumber(text))
      case Some(n) =>
        AccumulateSucceeds(PageResults(page, fetch, scan, n));
        FirstFailureReported(PageResults(page, fetch, scan, n));
        match Accumulate(PageResults(page, fetch, scan, n))
        case Failure(e) => Failure(e)
        case Success(c) => Success(Some(c))
  }

  /** The page loop of `get_critic_reviews`: fetch pages 1..n in ascending
      order and append each page's columns to the seven lists. */
  method AccumulatePages(page: string, fetch: string -> string, scan: string -> BlockMatches, n: nat)
    returns (r: Result<Columns, PageError>)
    ensures r == Accumulate(PageResults(page, fetch, scan, n))
    ensures r.Success? ==> r.value.Aligned()
  {
    ghost var results := PageResults(page, fetch, scan, n);
    var info := NoColumns;
    for pageNum := 1 to n + 1
      invariant Accumulate(results[..pageNum - 1]) == Success(info)
      invariant info.Aligned()
    {
      var soup := fetch(PageUrl(page, pageNum));
      var cInfo := CriticReviewsFromPage(soup, scan);
      assert cInfo == results[pageNum - 1];
      PageStep(results, pageNum - 1, info);
      if cInfo.Failure? {
        return Failure(cInfo.error);
      }
      info := info.Concat(cInfo.value);
    }
    assert results[..n] == results;
    r := Success(info);
  }

  /** `get_critic_reviews`: read the page count from the review index, then
      collect the columns of pages 1..N. */
  method GetCriticReviews(page: string, fetch: string -> string, markers: string -> seq<string>,
                          scan: string -> BlockMatches)
    returns (r: Result<Option<Columns>, PageError>)
    ensures r == CriticReviews(page, fetch, markers, scan)
    ensures r.Success? && r.value.Some? ==> r.value.value.Aligned()
  {
    var soup := fetch(page + "reviews");
    var pages := NumPages(markers(soup));
    if pages.None? {
      return Success(None);
    }
    var n := ParseNat(pages.value);
    if n.None? {
      return Failure(NotANumber(pages.value));
    }
    var info := AccumulatePages(page, fetch, scan, n.value);
    if info.Failure? {
      return Failure(info.error);
    }
    r := Success(Some(info.value));
  }
}
