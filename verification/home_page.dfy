/**
 * The listing page of src/app/page.tsx: the sort state that header clicks toggle, the
 * condition under which a sort arrow is shown, and the filters sent with each data request.
 */
module HomePage {
  import opened Common
  import Objects
  import QueryFilter
  import Numbers

  /** The table's column headers, in display order. */
  const Headers: seq<string> := ["Title", "Author", "Genre", "PublishedYear", "ISBN"]

  /** Lower-casing of one character (ASCII letters only; the headers are ASCII). */
  function LowerChar(c: char): char
  {
    if IsUpper(c) then (c as int + 32) as char else c
  }

  predicate IsUpper(c: char)
  {
    'A' <= c <= 'Z'
  }

  /**
   * `toLowerCase()`: the result holds no capital letter; every capital becomes the letter
   * 32 code points above it, and every other character is kept.
   */
  function ToLower(s: string): (r: string)
    ensures |r| == |s|
    ensures forall i :: 0 <= i < |r| ==> !IsUpper(r[i])
    ensures forall i :: 0 <= i < |s| && !IsUpper(s[i]) ==> r[i] == s[i]
    ensures forall i :: 0 <= i < |s| && IsUpper(s[i]) ==> r[i] as int == s[i] as int + 32
  {
    seq(|s|, i requires 0 <= i < |s| => LowerChar(s[i]))
  }

  /** Lower-casing twice is lower-casing once, and text without capitals is its own lower case. */
  lemma ToLowerIdempotent(s: string)
    ensures ToLower(ToLower(s)) == ToLower(s)
    ensures (forall i :: 0 <= i < |s| ==> !IsUpper(s[i])) ==> ToLower(s) == s
  {
    var once := ToLower(s);
    assert forall i :: 0 <= i < |once| ==> ToLower(once)[i] == once[i];
    if forall i :: 0 <= i < |s| ==> !IsUpper(s[i]) {
      assert forall i :: 0 <= i < |s| ==> once[i] == s[i];
    }
  }

  /** The sort state: sort key to direction text, in key order. */
  type SortConfig = Objects.Object<string>

  /** The state the page starts with. */
  const InitialSort: SortConfig := [("publishedyear", "asc"), ("author", "asc")]

  /** The only keys a header click changes. */
  predicate IsToggleKey(key: string)
  {
    key == "publishedyear" || key == "author"
  }

  predicate IsDirection(v: string)
  {
    v == "asc" || v == "desc"
  }

  /**
   * A click on a column header: headers other than PublishedYear and Author do nothing;
   * those two flip their key to "desc" when it is "asc" and to "asc" otherwise.
   */
  function Click(sort: SortConfig, header: string): (r: SortConfig)
    ensures !IsToggleKey(ToLower(header)) ==> r == sort
    ensures IsToggleKey(ToLower(header)) && Objects.Lookup(sort, ToLower(header)) == Some("asc") ==>
              Objects.Lookup(r, ToLower(header)) == Some("desc")
    ensures IsToggleKey(ToLower(header)) && Objects.Lookup(sort, ToLower(header)) != Some("asc") ==>
              Objects.Lookup(r, ToLower(header)) == Some("asc")
    ensures forall k :: k != ToLower(header) ==> Objects.Lookup(r, k) == Objects.Lookup(sort, k)
    ensures ToLower(header) in Objects.Keys(sort) ==> Objects.Keys(r) == Objects.Keys(sort)
  {
    var key := ToLower(header);
    if !IsToggleKey(key) then sort
    else Objects.Put(sort, key, if Objects.Lookup(sort, key) == Some("asc") then "desc" else "asc")
  }

  /** Clicking the same header twice restores a state whose clicked key holds a direction. */
  lemma ClickTwice(sort: SortConfig, header: string)
    requires IsToggleKey(ToLower(header)) ==> Objects.Lookup(sort, ToLower(header)) in {Some("asc"), Some("desc")}
    ensures Click(Click(sort, header), header) == sort
  {
    var key := ToLower(header);
    if IsToggleKey(key) {
      var v := Objects.Lookup(sort, key).value;
      var flipped := if v == "asc" then "desc" else "asc";
      assert Click(sort, header) == Objects.Put(sort, key, flipped);
      Objects.PutRestores(sort, key, flipped, v);
    }
  }

  /** The two sortable headers lower-case to their keys. */
  lemma HeaderKeys()
    ensures ToLower("Author") == "author" && ToLower("PublishedYear") == "publishedyear"
  {
  }

  /** A key that is missing is added as "asc" and then becomes "desc", so the toggle needs a direction to start from. */
  lemma ClickTwiceFromEmpty()
    ensures Click(Click([], "Author"), "Author") == [("author", "desc")]
  {
    assert ToLower("Author") == "author";
  }

  /** The states reachable by clicks: exactly the two keys, in order, each holding a direction. */
  predicate WellFormed(sort: SortConfig)
  {
    && |sort| == 2
    && sort[0].0 == "publishedyear" && sort[1].0 == "author"
    && IsDirection(sort[0].1) && IsDirection(sort[1].1)
  }

  /** Applying header clicks in order. */
  function Replay(sort: SortConfig, clicks: seq<string>): SortConfig
    decreases |clicks|
  {
    if |clicks| == 0 then sort else Replay(Click(sort, clicks[0]), clicks[1..])
  }

  /** A click keeps the state well formed. */
  lemma ClickKeepsWellFormed(sort: SortConfig, header: string)
    requires WellFormed(sort)
    ensures WellFormed(Click(sort, header))
  {
    var r := Click(sort, header);
    Objects.KeysAt(sort);
    assert Objects.Keys(sort) == ["publishedyear", "author"];
    if IsToggleKey(ToLower(header)) {
      Objects.KeysAt(r);
      assert Objects.Keys(r) == ["publishedyear", "author"];
      assert |r| == 2;
      assert Objects.Lookup(r, "publishedyear") == Some(r[0].1);
      assert Objects.Lookup(r, "author") == Some(r[1].1);
    }
  }

  /** Every value stays a direction, and the keys stay put, after any sequence of clicks. */
  lemma {:induction false} ReplayKeepsWellFormed(sort: SortConfig, clicks: seq<string>)
    requires WellFormed(sort)
    ensures WellFormed(Replay(sort, clicks))
    decreases |clicks|
  {
    if |clicks| > 0 {
      ClickKeepsWellFormed(sort, clicks[0]);
      ReplayKeepsWellFormed(Click(sort, clicks[0]), clicks[1..]);
    }
  }

  /** The arrow for a direction value: up for "asc", down otherwise. */
  function Arrow(v: string): char
  {
    if v == "asc" then '\U{2191}' else '\U{2193}'
  }

  /**
   * The sort arrow beside a header: shown only when the header's sort value equals the
   * header's own lower-cased name; then an up arrow for "asc", a down arrow otherwise.
   */
  function Indicator(sort: SortConfig, header: string): (r: Option<char>)
    ensures r.Some? <==> Objects.Lookup(sort, ToLower(header)) == Some(ToLower(header))
    ensures r.Some? ==> ToLower(header) in Objects.Keys(sort)
    ensures r.Some? ==> r.value == if ToLower(header) == "asc" then '\U{2191}' else '\U{2193}'
  {
    var key := ToLower(header);
    if Objects.Lookup(sort, key) == Some(key) then
      Some(Arrow(Objects.Lookup(sort, key).value))
    else None
  }

  /** In a well-formed state no value is ever a header name, so no arrow is shown for any header. */
  lemma NoIndicator(sort: SortConfig, header: string)
    requires WellFormed(sort)
    ensures Indicator(sort, header) == None
  {
    var key := ToLower(header);
    Objects.KeysAt(sort);
    assert Objects.Keys(sort) == ["publishedyear", "author"];
    if key == "publishedyear" {
      assert Objects.Lookup(sort, key) == Some(sort[0].1);
    } else if key == "author" {
      assert Objects.Lookup(sort, key) == Some(sort[1].1);
    }
  }

  /** From the initial state, whatever the clicks, none of the five headers ever shows an arrow. */
  lemma NoIndicatorEver(clicks: seq<string>)
    ensures forall i :: 0 <= i < |Headers| ==> Indicator(Replay(InitialSort, clicks), Headers[i]) == None
  {
    ReplayKeepsWellFormed(InitialSort, clicks);
    forall i | 0 <= i < |Headers|
      ensures Indicator(Replay(InitialSort, clicks), Headers[i]) == None
    {
      NoIndicator(Replay(InitialSort, clicks), Headers[i]);
    }
  }

  /**
   * The indicator as evidently intended: an arrow beside each header whose key has a sort
   * value, pointing the way that value says.
   */
  function IntendedIndicator(sort: SortConfig, header: string): (r: Option<char>)
    ensures r.Some? <==> ToLower(header) in Objects.Keys(sort)
  {
    match Objects.Lookup(sort, ToLower(header))
    case None => None
    case Some(v) => Some(Arrow(v))
  }

  /**
   * In a well-formed state the intended indicator shows the direction of PublishedYear and
   * Author, and nothing for the other three headers; a click on a sortable header turns its arrow.
   */
  lemma IntendedIndicatorShows(sort: SortConfig)
    requires WellFormed(sort)
    ensures IntendedIndicator(sort, "PublishedYear") == Some(Arrow(sort[0].1))
    ensures IntendedIndicator(sort, "Author") == Some(Arrow(sort[1].1))
    ensures IntendedIndicator(sort, "Title") == None
    ensures IntendedIndicator(sort, "Genre") == None
    ensures IntendedIndicator(sort, "ISBN") == None
    ensures IntendedIndicator(Click(sort, "PublishedYear"), "PublishedYear") != IntendedIndicator(sort, "PublishedYear")
    ensures IntendedIndicator(Click(sort, "Author"), "Author") != IntendedIndicator(sort, "Author")
  {
    HeaderKeys();
    assert ToLower("Title") == "title" && ToLower("Genre") == "genre" && ToLower("ISBN") == "isbn";
    Objects.KeysAt(sort);
    assert Objects.Keys(sort) == ["publishedyear", "author"];
    assert Objects.Lookup(sort, "publishedyear") == Some(sort[0].1);
    assert Objects.Lookup(sort, "author") == Some(sort[1].1);
  }

  /** The sort state as filter entries. */
  function SortFilters(sort: SortConfig): (r: seq<QueryFilter.Entry>)
    ensures |r| == |sort|
  {
    seq(|sort|, i requires 0 <= i < |sort| => (sort[i].0, QueryFilter.Text(sort[i].1)))
  }

  /** `{ page: page, limit: pagination.limit, ...sort }`. */
  function FetchFilters(page: int, limit: int, sort: SortConfig): (r: seq<QueryFilter.Entry>)
    ensures ["page", "limit"] <= Objects.Keys(r)
    ensures "page" !in Objects.Keys(sort) ==> Objects.Lookup(r, "page") == Some(QueryFilter.Number(page))
    ensures "limit" !in Objects.Keys(sort) ==> Objects.Lookup(r, "limit") == Some(QueryFilter.Number(limit))
  {
    var base := [("page", QueryFilter.Number(page)), ("limit", QueryFilter.Number(limit))];
    var r := Objects.Spread(base, SortFilters(sort));
    Objects.KeysAt(base);
    assert Objects.Keys(base) == ["page", "limit"];
    SpreadKeepsBase(base, SortFilters(sort));
    SortFilterKeys(sort);
    r
  }

  /** The sort filters carry the sort state's keys. */
  lemma SortFilterKeys(sort: SortConfig)
    ensures Objects.Keys(SortFilters(sort)) == Objects.Keys(sort)
  {
    var f := SortFilters(sort);
    Objects.KeysAt(f);
    Objects.KeysAt(sort);
  }

  /**
   * Spreading onto `base` keeps `base`'s keys first, and a key `extra` lacks keeps its value,
   * whether or not `extra` repeats a key.
   */
  lemma {:induction false} SpreadKeepsBase<V>(base: Objects.Object<V>, extra: Objects.Object<V>)
    ensures Objects.Keys(base) <= Objects.Keys(Objects.Spread(base, extra))
    ensures forall k :: k !in Objects.Keys(extra) ==> Objects.Lookup(Objects.Spread(base, extra), k) == Objects.Lookup(base, k)
    decreases |extra|
  {
    if |extra| > 0 {
      var next := Objects.Put(base, extra[0].0, extra[0].1);
      SpreadKeepsBase(next, extra[1..]);
      assert Objects.Keys(extra) == [extra[0].0] + Objects.Keys(extra[1..]);
    }
  }

  /** The address of the data request: `/api/data` followed by the query string, which is never empty. */
  function FetchUrl(page: int, limit: int, sort: SortConfig): (r: string)
    ensures r == "/api/data" + QueryFilter.CreateQueryFilter(FetchFilters(page, limit, sort))
    ensures "/api/data?" <= r
  {
    var filters := FetchFilters(page, limit, sort);
    var params := QueryFilter.CreateQueryFilter(filters);
    Objects.KeysAt(filters);
    assert params[0] == '?';
    "/api/data" + (if params != "" then params else "")
  }

  /** The page size the page requests: its pagination state starts at 10 and is never replaced. */
  const PageLimit: int := 10

  /** In a well-formed state the filters are `page`, `limit`, then the two sort keys in order. */
  lemma FetchFiltersOrder(page: int, limit: int, sort: SortConfig)
    requires WellFormed(sort)
    ensures FetchFilters(page, limit, sort)
         == [("page", QueryFilter.Number(page)), ("limit", QueryFilter.Number(limit)),
             ("publishedyear", QueryFilter.Text(sort[0].1)), ("author", QueryFilter.Text(sort[1].1))]
  {
    var base := [("page", QueryFilter.Number(page)), ("limit", QueryFilter.Number(limit))];
    var first := ("publishedyear", QueryFilter.Text(sort[0].1));
    var second := ("author", QueryFilter.Text(sort[1].1));
    assert SortFilters(sort) == [first, second];
    Objects.KeysAt(base);
    Objects.SpreadNewPair(base, first, second);
  }

  /** In a well-formed state the request goes to `/api/data?page=…&limit=…&publishedyear=…&author=…`. */
  lemma FetchUrlShape(page: int, limit: int, sort: SortConfig)
    requires WellFormed(sort)
    ensures FetchUrl(page, limit, sort)
         == "/api/data" + "?" + Join("&", ["page=" + Numbers.IntToDecimal(page), "limit=" + Numbers.IntToDecimal(limit),
                                          "publishedyear=" + sort[0].1, "author=" + sort[1].1])
  {
    FetchFiltersOrder(page, limit, sort);
    FetchPairs(page, limit, sort[0].1, sort[1].1);
  }

  /** The "name=value" pieces of the four filters. */
  lemma FetchPairs(page: int, limit: int, year: string, author: string)
    ensures QueryFilter.Pairs([("page", QueryFilter.Number(page)), ("limit", QueryFilter.Number(limit)),
                               ("publishedyear", QueryFilter.Text(year)), ("author", QueryFilter.Text(author))])
         == ["page=" + Numbers.IntToDecimal(page), "limit=" + Numbers.IntToDecimal(limit),
             "publishedyear=" + year, "author=" + author]
  {
    var filters := [("page", QueryFilter.Number(page)), ("limit", QueryFilter.Number(limit)),
                    ("publishedyear", QueryFilter.Text(year)), ("author", QueryFilter.Text(author))];
    assert "page" + "=" == "page=" && "limit" + "=" == "limit=";
    assert "publishedyear" + "=" == "publishedyear=" && "author" + "=" == "author=";
    assert QueryFilter.Pair(filters[0]) == "page=" + Numbers.IntToDecimal(page);
    assert QueryFilter.Pair(filters[1]) == "limit=" + Numbers.IntToDecimal(limit);
    assert QueryFilter.Pair(filters[2]) == "publishedyear=" + year;
    assert QueryFilter.Pair(filters[3]) == "author=" + author;
  }

  /** The first request after loading: page 1, ten rows, both keys ascending. */
  lemma InitialFetchUrl()
    ensures FetchUrl(1, PageLimit, InitialSort)
         == "/api/data" + "?" + Join("&", ["page=1", "limit=10", "publishedyear=asc", "author=asc"])
  {
    assert WellFormed(InitialSort);
    FetchUrlShape(1, PageLimit, InitialSort);
    InitialParts();
  }

  /** The four pieces of the first request. */
  lemma InitialParts()
    ensures ["page=" + Numbers.IntToDecimal(1), "limit=" + Numbers.IntToDecimal(PageLimit),
             "publishedyear=" + InitialSort[0].1, "author=" + InitialSort[1].1]
         == ["page=1", "limit=10", "publishedyear=asc", "author=asc"]
  {
    Numbers.OneAndTen();
    assert "page=" + "1" == "page=1" && "limit=" + "10" == "limit=10";
    assert "publishedyear=" + "asc" == "publishedyear=asc" && "author=" + "asc" == "author=asc";
  }
}
