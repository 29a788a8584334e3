/**
 * The page and the data route together: the query the page builds is the query the route
 * reads, so the listing the page receives is the one its sort state asks for.
 */
module RequestFlow {
  import opened Common
  import Objects
  import Numbers
  import QueryFilter
  import SearchParams
  import HomePage
  import Books
  import YearSort
  import DataRoute

  /** The path the page fetches from. */
  const DataPath: string := "/api/data"

  /** The listing order a direction text asks for. */
  function DirectionOf(v: string): YearSort.Direction
  {
    if v == "asc" then YearSort.Ascending else YearSort.Descending
  }

  /** What the route answers to the page's request for `page` under `sort`. */
  function Served(st: Books.Store, page: int, sort: HomePage.SortConfig): DataRoute.GetOutcome
    requires Books.Valid(st)
  {
    DataRoute.HandleGet(st, SearchParams.ParseQuery(SearchParams.SearchOf(HomePage.FetchUrl(page, HomePage.PageLimit, sort))))
  }

  /** In a well-formed sort state the two keys hold the first and second values. */
  lemma WellFormedLookups(sort: HomePage.SortConfig)
    requires HomePage.WellFormed(sort)
    ensures Objects.Lookup(sort, "publishedyear") == Some(sort[0].1)
    ensures Objects.Lookup(sort, "author") == Some(sort[1].1)
  {
    Objects.KeysAt(sort);
    assert Objects.Keys(sort) == ["publishedyear", "author"];
  }

  /** A non-negative number renders as plain digits. */
  lemma DecimalIsPlain(n: int)
    requires n >= 0
    ensures SearchParams.IsPlain(Numbers.IntToDecimal(n))
  {
    var d := Numbers.IntToDecimal(n);
    assert d == Numbers.NatToDecimal(n);
    forall i | 0 <= i < |d| ensures SearchParams.IsPlainChar(d[i]) {
      assert Numbers.IsDigit(d[i]);
    }
  }

  /** The page's request is the data path followed by the query string of its filters. */
  lemma FetchUrlParts(page: int, sort: HomePage.SortConfig)
    requires HomePage.WellFormed(sort)
    ensures HomePage.FetchUrl(page, HomePage.PageLimit, sort)
         == DataPath + QueryFilter.CreateQueryFilter(HomePage.FetchFilters(page, HomePage.PageLimit, sort))
  {
    HomePage.FetchFiltersOrder(page, HomePage.PageLimit, sort);
  }

  /** Every name and value the page sends is plain text. */
  lemma PlainFetchFilters(page: int, sort: HomePage.SortConfig)
    requires HomePage.WellFormed(sort) && page >= 1
    ensures SearchParams.PlainFilters(HomePage.FetchFilters(page, HomePage.PageLimit, sort))
  {
    HomePage.FetchFiltersOrder(page, HomePage.PageLimit, sort);
    PlainFilterList(page, sort[0].1, sort[1].1);
  }

  lemma PlainFilterList(page: int, year: string, author: string)
    requires page >= 1 && HomePage.IsDirection(year) && HomePage.IsDirection(author)
    ensures SearchParams.PlainFilters([("page", QueryFilter.Number(page)), ("limit", QueryFilter.Number(HomePage.PageLimit)),
                                       ("publishedyear", QueryFilter.Text(year)), ("author", QueryFilter.Text(author))])
  {
    var filters := [("page", QueryFilter.Number(page)), ("limit", QueryFilter.Number(HomePage.PageLimit)),
                    ("publishedyear", QueryFilter.Text(year)), ("author", QueryFilter.Text(author))];
    DecimalIsPlain(page);
    DecimalIsPlain(HomePage.PageLimit);
    PlainWords();
    forall i | 0 <= i < |filters|
      ensures SearchParams.IsPlain(filters[i].0) && SearchParams.IsPlain(QueryFilter.Render(filters[i].1))
    {
      if i == 0 {
        assert QueryFilter.Render(filters[0].1) == Numbers.IntToDecimal(page);
      } else if i == 1 {
        assert QueryFilter.Render(filters[1].1) == Numbers.IntToDecimal(HomePage.PageLimit);
      }
    }
  }

  /** The parameter names and direction texts the page sends are plain text. */
  lemma PlainWords()
    ensures SearchParams.IsPlain("page") && SearchParams.IsPlain("limit")
    ensures SearchParams.IsPlain("publishedyear") && SearchParams.IsPlain("author")
    ensures SearchParams.IsPlain("asc") && SearchParams.IsPlain("desc")
  {
  }

  /** The page's filters as the route sees them. */
  lemma RenderedFetchFilters(page: int, sort: HomePage.SortConfig)
    requires HomePage.WellFormed(sort)
    ensures SearchParams.Rendered(HomePage.FetchFilters(page, HomePage.PageLimit, sort))
         == [("page", Numbers.IntToDecimal(page)), ("limit", Numbers.IntToDecimal(HomePage.PageLimit)),
             ("publishedyear", sort[0].1), ("author", sort[1].1)]
  {
    HomePage.FetchFiltersOrder(page, HomePage.PageLimit, sort);
  }

  /** The query the route reads off the page's request: the four filters, rendered, in order. */
  lemma RequestQuery(page: int, sort: HomePage.SortConfig)
    requires HomePage.WellFormed(sort) && page >= 1
    ensures SearchParams.ParseQuery(SearchParams.SearchOf(HomePage.FetchUrl(page, HomePage.PageLimit, sort)))
         == [("page", Numbers.IntToDecimal(page)), ("limit", Numbers.IntToDecimal(HomePage.PageLimit)),
             ("publishedyear", sort[0].1), ("author", sort[1].1)]
  {
    var filters := HomePage.FetchFilters(page, HomePage.PageLimit, sort);
    FetchUrlParts(page, sort);
    PlainFetchFilters(page, sort);
    RenderedFetchFilters(page, sort);
    ReadBackFromDataPath(filters);
  }

  /** Plain filters behind the data path read back as themselves. */
  lemma ReadBackFromDataPath(filters: seq<QueryFilter.Entry>)
    requires SearchParams.PlainFilters(filters)
    ensures SearchParams.ParseQuery(SearchParams.SearchOf(DataPath + QueryFilter.CreateQueryFilter(filters)))
         == SearchParams.Rendered(filters)
  {
    assert '?' !in DataPath && '#' !in DataPath;
    SearchParams.ReadBack(DataPath, filters);
  }

  /** Reading the three parameters the route uses off the four-pair query. */
  lemma QueryLookups(page: string, limit: string, year: string, author: string)
    ensures var q := [("page", page), ("limit", limit), ("publishedyear", year), ("author", author)];
      && SearchParams.Get(q, "page") == Some(page)
      && SearchParams.Get(q, "limit") == Some(limit)
      && SearchParams.Get(q, "publishedyear") == Some(year)
  {
    var q := [("page", page), ("limit", limit), ("publishedyear", year), ("author", author)];
    assert |"page"| != |"limit"| && |"page"| != |"publishedyear"| && |"limit"| != |"publishedyear"|;
    var q1 := [("limit", limit), ("publishedyear", year), ("author", author)];
    var q2 := [("publishedyear", year), ("author", author)];
    assert q[1..] == q1 && q1[1..] == q2;
    assert Objects.Lookup(q2, "publishedyear") == Some(year);
    assert Objects.Lookup(q1, "publishedyear") == Some(year);
  }

  /** A page number or limit of at least 1 renders as non-empty text that parses back to it. */
  lemma DecimalReadsBack(n: int)
    requires n >= 1
    ensures Numbers.IntToDecimal(n) != ""
    ensures Numbers.ParseInt(Numbers.IntToDecimal(n)) == Some(n)
  {
    var d := Numbers.IntToDecimal(n);
    assert d == Numbers.NatToDecimal(n);
    Numbers.ParseIntOfDecimal(n, "");
    assert d + "" == d;
  }

  /**
   * For any page from 1 on and any well-formed sort state, the route answers the page's
   * request with that page of ten rows, ordered by year in the direction of the
   * `publishedyear` key; the `author` key plays no part.
   */
  lemma ServerSeesClientRequest(st: Books.Store, page: int, sort: HomePage.SortConfig)
    requires Books.Valid(st) && HomePage.WellFormed(sort) && page >= 1
    ensures Served(st, page, sort) == DataRoute.Fetched(DataRoute.List(st, page, 10, DirectionOf(sort[0].1)))
  {
    RequestParameters(page, sort);
  }

  /** The route reads the page number, ten rows, and the year direction off the page's request. */
  lemma RequestParameters(page: int, sort: HomePage.SortConfig)
    requires HomePage.WellFormed(sort) && page >= 1
    ensures var q := SearchParams.ParseQuery(SearchParams.SearchOf(HomePage.FetchUrl(page, HomePage.PageLimit, sort)));
      && Numbers.ParseInt(SearchParams.GetOr(q, "page", DataRoute.DefaultPage)) == Some(page)
      && Numbers.ParseInt(SearchParams.GetOr(q, "limit", DataRoute.DefaultLimit)) == Some(10)
      && DataRoute.YearDirection(q) == Some(DirectionOf(sort[0].1))
  {
    RequestQuery(page, sort);
    var q := SearchParams.ParseQuery(SearchParams.SearchOf(HomePage.FetchUrl(page, HomePage.PageLimit, sort)));
    var d, l := Numbers.IntToDecimal(page), Numbers.IntToDecimal(HomePage.PageLimit);
    assert q == [("page", d), ("limit", l), ("publishedyear", sort[0].1), ("author", sort[1].1)];
    QueryLookups(d, l, sort[0].1, sort[1].1);
    DecimalReadsBack(page);
    DecimalReadsBack(HomePage.PageLimit);
    assert SearchParams.GetOr(q, "page", DataRoute.DefaultPage) == d;
    assert SearchParams.GetOr(q, "limit", DataRoute.DefaultLimit) == l;
  }

  /** The first request after loading lists page 1 of ten rows, oldest first. */
  lemma InitialRequest(st: Books.Store)
    requires Books.Valid(st)
    ensures Served(st, 1, HomePage.InitialSort) == DataRoute.Fetched(DataRoute.List(st, 1, 10, YearSort.Ascending))
  {
    ServerSeesClientRequest(st, 1, HomePage.InitialSort);
  }

  /** A click on Author keeps the state well formed and the year value as it was, and flips the author value. */
  lemma AuthorClickState(sort: HomePage.SortConfig)
    requires HomePage.WellFormed(sort)
    ensures HomePage.WellFormed(HomePage.Click(sort, "Author"))
    ensures HomePage.Click(sort, "Author")[0].1 == sort[0].1
    ensures HomePage.Click(sort, "Author")[1].1 == if sort[1].1 == "asc" then "desc" else "asc"
  {
    var clicked := HomePage.Click(sort, "Author");
    HomePage.HeaderKeys();
    HomePage.ClickKeepsWellFormed(sort, "Author");
    WellFormedLookups(sort);
    WellFormedLookups(clicked);
  }

  /** A click on PublishedYear keeps the state well formed and flips the year value. */
  lemma YearClickState(sort: HomePage.SortConfig)
    requires HomePage.WellFormed(sort)
    ensures HomePage.WellFormed(HomePage.Click(sort, "PublishedYear"))
    ensures HomePage.Click(sort, "PublishedYear")[0].1 == if sort[0].1 == "asc" then "desc" else "asc"
  {
    var clicked := HomePage.Click(sort, "PublishedYear");
    HomePage.HeaderKeys();
    HomePage.ClickKeepsWellFormed(sort, "PublishedYear");
    WellFormedLookups(sort);
    WellFormedLookups(clicked);
  }

  /** Clicking the Author header changes the request but not the listing the route returns. */
  lemma AuthorClickKeepsListing(st: Books.Store, page: int, sort: HomePage.SortConfig)
    requires Books.Valid(st) && HomePage.WellFormed(sort) && page >= 1
    ensures HomePage.FetchUrl(page, HomePage.PageLimit, HomePage.Click(sort, "Author"))
         != HomePage.FetchUrl(page, HomePage.PageLimit, sort)
    ensures Served(st, page, HomePage.Click(sort, "Author")) == Served(st, page, sort)
  {
    AuthorClickState(sort);
    AuthorClickChangesRequest(page, sort);
    ServerSeesClientRequest(st, page, sort);
    ServerSeesClientRequest(st, page, HomePage.Click(sort, "Author"));
  }

  /** The request after an Author click carries the other author value, so it is a different address. */
  lemma AuthorClickChangesRequest(page: int, sort: HomePage.SortConfig)
    requires HomePage.WellFormed(sort) && page >= 1
    ensures HomePage.FetchUrl(page, HomePage.PageLimit, HomePage.Click(sort, "Author"))
         != HomePage.FetchUrl(page, HomePage.PageLimit, sort)
  {
    var clicked := HomePage.Click(sort, "Author");
    AuthorClickState(sort);
    RequestQuery(page, sort);
    RequestQuery(page, clicked);
    var q := SearchParams.ParseQuery(SearchParams.SearchOf(HomePage.FetchUrl(page, HomePage.PageLimit, sort)));
    var q' := SearchParams.ParseQuery(SearchParams.SearchOf(HomePage.FetchUrl(page, HomePage.PageLimit, clicked)));
    assert q[3].1 != q'[3].1;
  }

  /** Clicking the PublishedYear header reverses the order of the listing the route returns. */
  lemma YearClickReverses(st: Books.Store, page: int, sort: HomePage.SortConfig)
    requires Books.Valid(st) && HomePage.WellFormed(sort) && page >= 1
    ensures var before := DirectionOf(sort[0].1);
      var after := if before == YearSort.Ascending then YearSort.Descending else YearSort.Ascending;
      Served(st, page, HomePage.Click(sort, "PublishedYear")) == DataRoute.Fetched(DataRoute.List(st, page, 10, after))
  {
    YearClickState(sort);
    ServerSeesClientRequest(st, page, HomePage.Click(sort, "PublishedYear"));
  }
}
