/**
 * The decisions of src/app/api/data/route.ts over an abstract store: query defaults and
 * pagination arithmetic for GET, the not-found rule for PUT, and the always-successful DELETE.
 */
module DataRoute {
  import opened Common
  import opened Books
  import opened YearSort
  import Numbers
  import Objects
  import SearchParams

  /** Query text used when `page` or `limit` is missing or empty. */
  const DefaultPage: string := "1"
  const DefaultLimit: string := "10"

  /* ---------------------------------------------------------------- GET */

  /** `Math.ceil(count / limit)` for whole numbers: the fewest pages of `limit` rows that hold `count` rows. */
  function CeilDiv(count: nat, limit: nat): (r: nat)
    requires limit >= 1
    ensures count <= r * limit
    ensures r == 0 || (r - 1) * limit < count
    ensures r == 0 <==> count == 0
  {
    var q := (count + limit - 1) / limit;
    assert q * limit + (count + limit - 1) % limit == count + limit - 1;
    assert (q - 1) * limit == q * limit - limit;
    q
  }

  lemma MulMonotone(a: int, b: int, l: nat)
    requires a <= b
    ensures a * l <= b * l
  {
    assert b * l - a * l == (b - a) * l;
  }

  /** Any page count with the two bounds of `CeilDiv` is `CeilDiv`: the bounds define the ceiling. */
  lemma CeilDivUnique(count: nat, limit: nat, t: nat)
    requires limit >= 1
    requires count <= t * limit
    requires t == 0 || (t - 1) * limit < count
    ensures t == CeilDiv(count, limit)
  {
    var r := CeilDiv(count, limit);
    if t < r {
      MulMonotone(t, r - 1, limit);
    } else if t > r {
      MulMonotone(r, t - 1, limit);
    }
  }

  /** A page lies past the last page exactly when its offset reaches the row count. */
  lemma PastLastPage(count: nat, limit: nat, page: int)
    requires limit >= 1 && page >= 1
    ensures page > CeilDiv(count, limit) <==> (page - 1) * limit >= count
  {
    var t := CeilDiv(count, limit);
    if page > t {
      MulMonotone(t, page - 1, limit);
    } else {
      MulMonotone(page - 1, t - 1, limit);
    }
  }

  /** The number of rows before page `page`: `(page - 1) * limit`. */
  function Offset(page: int, limit: int): (r: nat)
    requires page >= 1 && limit >= 1
    ensures r == (page - 1) * limit
  {
    MulMonotone(0, page - 1, limit);
    (page - 1) * limit
  }

  /** `.skip(offset).limit(limit)`: at most `limit` consecutive rows starting at `offset`; none past the end. */
  function Window<T>(s: seq<T>, offset: nat, limit: nat): (r: seq<T>)
    ensures |r| <= limit
    ensures offset >= |s| ==> r == []
    ensures offset < |s| ==> |r| == if limit < |s| - offset then limit else |s| - offset
    ensures forall i :: 0 <= i < |r| ==> r[i] == s[offset + i]
  {
    if offset >= |s| then [] else s[offset .. if offset + limit < |s| then offset + limit else |s|]
  }

  /** Page 1 starts at offset 0, and each page starts `limit` rows after the one before. */
  lemma OffsetSteps(page: int, limit: int)
    requires page >= 1 && limit >= 1
    ensures page == 1 ==> Offset(page, limit) == 0
    ensures Offset(page + 1, limit) == Offset(page, limit) + limit
  {
    MulStep(page + 1, limit);
  }

  /** A window of a sorted sequence is sorted. */
  lemma WindowSorted(s: seq<Doc>, offset: nat, limit: nat, dir: Direction)
    requires Sorted(s, dir)
    ensures Sorted(Window(s, offset, limit), dir)
  {
    var w := Window(s, offset, limit);
    forall i, j | 0 <= i < j < |w| ensures InOrder(w[i], w[j], dir) {
      assert w[i] == s[offset + i] && w[j] == s[offset + j];
    }
  }

  /** Page `page` of `s`: the rows from offset `(page-1)*limit`, empty exactly past the last page. */
  lemma PageWindow<T>(s: seq<T>, page: int, limit: int)
    requires page >= 1 && limit >= 1
    ensures var w := Window(s, Offset(page, limit), limit);
      && (w == [] <==> page > CeilDiv(|s|, limit))
      && forall i :: 0 <= i < |w| ==> Offset(page, limit) + i < |s| && w[i] == s[Offset(page, limit) + i]
  {
    PastLastPage(|s|, limit, page);
  }

  /** The pagination block of a listing response. */
  datatype Pagination = Pagination(page: int, limit: int, totalItems: nat, totalPages: nat)

  /** A listing response: the page of documents and its pagination block. */
  datatype Listing = Listing(data: seq<Doc>, pagination: Pagination)

  /**
   * One page of the collection ordered by year: rows `(page-1)*limit` onwards, at most
   * `limit` of them, with the requested page and limit echoed next to the full count.
   */
  function List(st: Store, page: int, limit: int, dir: Direction): (r: Listing)
    requires Valid(st) && page >= 1 && limit >= 1
    ensures r.pagination.page == page && r.pagination.limit == limit
    ensures r.pagination.totalItems == |st.books|
    ensures |st.books| <= r.pagination.totalPages * limit
    ensures r.pagination.totalPages == 0 || (r.pagination.totalPages - 1) * limit < |st.books|
    ensures |r.data| <= limit
    ensures Offset(page, limit) < |st.books| ==>
      |r.data| == if limit < |st.books| - Offset(page, limit) then limit else |st.books| - Offset(page, limit)
    ensures Sorted(r.data, dir)
    ensures var all := SortByYear(Docs(st), dir);
      forall i :: 0 <= i < |r.data| ==> Offset(page, limit) + i < |all| && r.data[i] == all[Offset(page, limit) + i]
    ensures r.data == [] <==> page > r.pagination.totalPages
  {
    CountIsOrderLength(st);
    var all := SortByYear(Docs(st), dir);
    var data := Window(all, Offset(page, limit), limit);
    PageWindow(all, page, limit);
    WindowSorted(all, Offset(page, limit), limit, dir);
    Listing(data, Pagination(page, limit, |st.books|, CeilDiv(|st.books|, limit)))
  }

  /** The pages 1 to `n` of `s`, concatenated. */
  function PagesUpTo<T>(s: seq<T>, limit: nat, n: nat): seq<T>
    decreases n
  {
    if n == 0 then [] else PagesUpTo(s, limit, n - 1) + Window(s, (n - 1) * limit, limit)
  }

  /** The rows before `before`, then the window there, are the rows before `before + limit`. */
  lemma PrefixThenWindow<T>(s: seq<T>, before: nat, limit: nat)
    ensures s[..if before < |s| then before else |s|] + Window(s, before, limit)
         == s[..if before + limit < |s| then before + limit else |s|]
  {
    if before < |s| {
      var end := if before + limit < |s| then before + limit else |s|;
      assert s[..before] + s[before..end] == s[..end];
    }
  }

  lemma MulStep(n: nat, limit: nat)
    requires n >= 1
    ensures (n - 1) * limit >= 0 && n * limit == (n - 1) * limit + limit
  {
    MulMonotone(0, n - 1, limit);
  }

  /** The first `n` pages are the first `n * limit` rows (or all of them). */
  lemma {:induction false} PagesUpToPrefix<T>(s: seq<T>, limit: nat, n: nat)
    requires limit >= 1
    ensures PagesUpTo(s, limit, n) == s[..if n * limit < |s| then n * limit else |s|]
    decreases n
  {
    if n > 0 {
      MulStep(n, limit);
      PagesUpToPrefix(s, limit, n - 1);
      PrefixThenWindow(s, (n - 1) * limit, limit);
    }
  }

  /** Page `p` of `List` is the `p`-th window that `PagesUpTo` concatenates. */
  lemma ListIsPage(st: Store, page: int, limit: int, dir: Direction)
    requires Valid(st) && page >= 1 && limit >= 1
    ensures List(st, page, limit, dir).data == Window(SortByYear(Docs(st), dir), Offset(page, limit), limit)
  {
  }

  /** The rows of the listings for pages 1 to `n`, one after another. */
  function Listed(st: Store, limit: int, dir: Direction, n: nat): seq<Doc>
    requires Valid(st) && limit >= 1
    decreases n
  {
    if n == 0 then [] else Listed(st, limit, dir, n - 1) + List(st, n, limit, dir).data
  }

  lemma {:induction false} ListedIsPagesUpTo(st: Store, limit: int, dir: Direction, n: nat)
    requires Valid(st) && limit >= 1
    ensures Listed(st, limit, dir, n) == PagesUpTo(SortByYear(Docs(st), dir), limit, n)
    decreases n
  {
    if n > 0 {
      ListedIsPagesUpTo(st, limit, dir, n - 1);
      ListIsPage(st, n, limit, dir);
    }
  }

  /**
   * Paging through the listings from page 1 to `totalPages` yields the whole collection in
   * year order, each record exactly once; every later page is empty.
   */
  lemma PagesCoverAll(st: Store, limit: int, dir: Direction)
    requires Valid(st) && limit >= 1
    ensures Listed(st, limit, dir, CeilDiv(|st.books|, limit)) == SortByYear(Docs(st), dir)
    ensures forall page :: page > CeilDiv(|st.books|, limit) ==> List(st, page, limit, dir).data == []
  {
    CountIsOrderLength(st);
    var all := SortByYear(Docs(st), dir);
    var n := CeilDiv(|st.books|, limit);
    ListedIsPagesUpTo(st, limit, dir, n);
    PagesUpToPrefix(all, limit, n);
    assert all[..|all|] == all;
  }

  /** The sort the `publishedyear` parameter asks for; any other value is left to the store library. */
  function YearDirection(q: SearchParams.Query): (r: Option<Direction>)
    ensures r == Some(Ascending) <==> SearchParams.Get(q, "publishedyear") == Some("asc")
    ensures r == Some(Descending) <==> SearchParams.Get(q, "publishedyear") == Some("desc")
    ensures r.None? <==> SearchParams.Get(q, "publishedyear") !in {Some("asc"), Some("desc")}
  {
    var v := SearchParams.Get(q, "publishedyear");
    if v == Some("asc") then Some(Ascending)
    else if v == Some("desc") then Some(Descending)
    else None
  }

  /** The outcome of GET: a listing, or a request whose handling the store library decides. */
  datatype GetOutcome = Fetched(listing: Listing) | OutsideModel

  /**
   * GET: `page` and `limit` are read with `parseInt`, falling back to "1" and "10"; only
   * `publishedyear` selects the sort. Queries the model leaves to the store library (a
   * number that does not parse, a page or limit below 1, a sort value other than "asc" or
   * "desc") give `OutsideModel`.
   */
  function HandleGet(st: Store, q: SearchParams.Query): (r: GetOutcome)
    requires Valid(st)
    ensures var page := Numbers.ParseInt(SearchParams.GetOr(q, "page", DefaultPage));
      var limit := Numbers.ParseInt(SearchParams.GetOr(q, "limit", DefaultLimit));
      r.Fetched? <==> page.Some? && limit.Some? && page.value >= 1 && limit.value >= 1 && YearDirection(q).Some?
    ensures var page := Numbers.ParseInt(SearchParams.GetOr(q, "page", DefaultPage));
      var limit := Numbers.ParseInt(SearchParams.GetOr(q, "limit", DefaultLimit));
      r.Fetched? ==> r.listing == List(st, page.value, limit.value, YearDirection(q).value)
    ensures r.Fetched? ==> r.listing.pagination.page >= 1 && r.listing.pagination.limit >= 1
  {
    var page := Numbers.ParseInt(SearchParams.GetOr(q, "page", DefaultPage));
    var limit := Numbers.ParseInt(SearchParams.GetOr(q, "limit", DefaultLimit));
    var dir := YearDirection(q);
    if page.None? || limit.None? || dir.None? || page.value < 1 || limit.value < 1 then OutsideModel
    else Fetched(List(st, page.value, limit.value, dir.value))
  }

  /**
   * A missing or empty `page` means page 1, whatever `limit` says: the outcome is the one for
   * `page=1`, and a listing reports page 1.
   */
  lemma DefaultPageApplies(st: Store, q: SearchParams.Query)
    requires Valid(st)
    requires SearchParams.Get(q, "page") in {None, Some("")}
    ensures HandleGet(st, q) == HandleGet(st, Objects.Put(q, "page", DefaultPage))
    ensures HandleGet(st, q).Fetched? ==> HandleGet(st, q).listing.pagination.page == 1
  {
    DefaultsParse();
    var q' := Objects.Put(q, "page", DefaultPage);
    assert SearchParams.GetOr(q, "page", DefaultPage) == DefaultPage;
    assert SearchParams.Get(q', "page") == Some(DefaultPage);
    assert SearchParams.GetOr(q', "page", DefaultPage) == DefaultPage;
    assert SearchParams.Get(q', "limit") == SearchParams.Get(q, "limit");
    assert SearchParams.Get(q', "publishedyear") == SearchParams.Get(q, "publishedyear");
    SameReadings(st, q, q');
  }

  /** Two queries whose three readings agree get the same outcome. */
  lemma SameReadings(st: Store, q1: SearchParams.Query, q2: SearchParams.Query)
    requires Valid(st)
    requires SearchParams.GetOr(q1, "page", DefaultPage) == SearchParams.GetOr(q2, "page", DefaultPage)
    requires SearchParams.GetOr(q1, "limit", DefaultLimit) == SearchParams.GetOr(q2, "limit", DefaultLimit)
    requires SearchParams.Get(q1, "publishedyear") == SearchParams.Get(q2, "publishedyear")
    ensures HandleGet(st, q1) == HandleGet(st, q2)
  {
    assert YearDirection(q1) == YearDirection(q2);
  }

  /**
   * A missing or empty `limit` means ten rows, whatever `page` says: the outcome is the one
   * for `limit=10`, and a listing reports limit 10.
   */
  lemma DefaultLimitApplies(st: Store, q: SearchParams.Query)
    requires Valid(st)
    requires SearchParams.Get(q, "limit") in {None, Some("")}
    ensures HandleGet(st, q) == HandleGet(st, Objects.Put(q, "limit", DefaultLimit))
    ensures HandleGet(st, q).Fetched? ==> HandleGet(st, q).listing.pagination.limit == 10
  {
    DefaultsParse();
    var q' := Objects.Put(q, "limit", DefaultLimit);
    assert SearchParams.GetOr(q, "limit", DefaultLimit) == DefaultLimit;
    assert SearchParams.Get(q', "limit") == Some(DefaultLimit);
    assert SearchParams.GetOr(q', "limit", DefaultLimit) == DefaultLimit;
    assert SearchParams.Get(q', "page") == SearchParams.Get(q, "page");
    assert SearchParams.Get(q', "publishedyear") == SearchParams.Get(q, "publishedyear");
    SameReadings(st, q, q');
  }

  /** With both missing or empty, the listing is page 1 of ten rows in the requested direction. */
  lemma DefaultsApply(st: Store, q: SearchParams.Query, dir: Direction)
    requires Valid(st)
    requires SearchParams.Get(q, "page") in {None, Some("")}
    requires SearchParams.Get(q, "limit") in {None, Some("")}
    requires YearDirection(q) == Some(dir)
    ensures HandleGet(st, q) == Fetched(List(st, 1, 10, dir))
  {
    DefaultsParse();
    assert SearchParams.GetOr(q, "page", DefaultPage) == DefaultPage;
    assert SearchParams.GetOr(q, "limit", DefaultLimit) == DefaultLimit;
  }

  /** The fallback texts read as page 1 and ten rows. */
  lemma DefaultsParse()
    ensures Numbers.ParseInt(DefaultPage) == Some(1) && Numbers.ParseInt(DefaultLimit) == Some(10)
  {
    Numbers.ParseIntOfDecimal(1, "");
    Numbers.ParseIntOfDecimal(10, "");
    Numbers.OneAndTen();
    assert Numbers.IntToDecimal(1) + "" == DefaultPage;
    assert Numbers.IntToDecimal(10) + "" == DefaultLimit;
  }

  /** The outcome depends on `page`, `limit` and `publishedyear` only: `author` and every other parameter are ignored. */
  lemma OnlyThreeParameters(st: Store, q1: SearchParams.Query, q2: SearchParams.Query)
    requires Valid(st)
    requires SearchParams.Get(q1, "page") == SearchParams.Get(q2, "page")
    requires SearchParams.Get(q1, "limit") == SearchParams.Get(q2, "limit")
    requires SearchParams.Get(q1, "publishedyear") == SearchParams.Get(q2, "publishedyear")
    ensures HandleGet(st, q1) == HandleGet(st, q2)
  {
    assert SearchParams.GetOr(q1, "page", DefaultPage) == SearchParams.GetOr(q2, "page", DefaultPage);
    assert SearchParams.GetOr(q1, "limit", DefaultLimit) == SearchParams.GetOr(q2, "limit", DefaultLimit);
    assert YearDirection(q1) == YearDirection(q2);
  }

  /** Setting `author` to anything leaves the outcome as it was. */
  lemma AuthorIgnored(st: Store, q: SearchParams.Query, v: string)
    requires Valid(st)
    ensures HandleGet(st, Objects.Put(q, "author", v)) == HandleGet(st, q)
  {
    OnlyThreeParameters(st, Objects.Put(q, "author", v), q);
  }

  /* ---------------------------------------------------------------- PUT */

  /** What a payload says about one field: absent (keep it) or present, possibly as `null`. */
  datatype Change<T> = Keep | SetTo(value: Option<T>)

  /** The PUT body: `_id` and the schema fields it carries. */
  datatype UpdatePayload = UpdatePayload(
    id: Id,
    title: Change<string>,
    author: Change<string>,
    genre: Change<string>,
    publishedYear: Change<real>,
    isbn: Change<string>)

  function Apply<T>(c: Change<T>, current: Option<T>): Option<T>
  {
    match c
    case Keep => current
    case SetTo(v) => v
  }

  /** The record after the update: the fields present in the payload replaced, the rest kept. */
  function Updated(b: Book, p: UpdatePayload): Book
  {
    b.(title := Apply(p.title, b.title), author := Apply(p.author, b.author), genre := Apply(p.genre, b.genre),
       publishedYear := Apply(p.publishedYear, b.publishedYear), isbn := Apply(p.isbn, b.isbn))
  }

  /** `after` is what `c` makes of `before`. */
  predicate Follows<T(==)>(c: Change<T>, before: Option<T>, after: Option<T>)
  {
    (c.Keep? ==> after == before) && (c.SetTo? ==> after == c.value)
  }

  datatype PutResponse = NotFound | Saved(doc: Doc)

  /** The HTTP status of a PUT response. */
  function PutStatus(r: PutResponse): nat
  {
    match r
    case NotFound => 404
    case Saved(_) => 200
  }

  datatype PutResult = PutResult(store: Store, response: PutResponse)

  /**
   * PUT: an `_id` that names no record gives 404 and changes nothing; otherwise that record
   * takes the payload's fields, keeps its identifier and timestamps, and is returned.
   */
  function HandlePut(st: Store, p: UpdatePayload): (r: PutResult)
    ensures p.id !in st.books ==> r.store == st && r.response == NotFound && PutStatus(r.response) == 404
    ensures p.id in st.books ==> PutStatus(r.response) == 200
    ensures p.id in st.books ==> p.id in r.store.books && r.response == Saved(Doc(p.id, r.store.books[p.id]))
    ensures r.store.books.Keys == st.books.Keys && r.store.order == st.order
    ensures forall id :: id in st.books && id != p.id ==> r.store.books[id] == st.books[id]
    ensures p.id in st.books ==>
      var before, after := st.books[p.id], r.store.books[p.id];
      && Follows(p.title, before.title, after.title)
      && Follows(p.author, before.author, after.author)
      && Follows(p.genre, before.genre, after.genre)
      && Follows(p.publishedYear, before.publishedYear, after.publishedYear)
      && Follows(p.isbn, before.isbn, after.isbn)
      && after.createdAt == before.createdAt && after.updatedAt == before.updatedAt
    ensures Valid(st) ==> Valid(r.store)
  {
    if p.id !in st.books then PutResult(st, NotFound)
    else
      var b := Updated(st.books[p.id], p);
      PutResult(Store(st.books[p.id := b], st.order), Saved(Doc(p.id, b)))
  }

  /** A payload carrying all five fields replaces them all: the record then holds exactly the payload's values. */
  lemma FullPayloadReplaces(st: Store, p: UpdatePayload)
    requires p.id in st.books
    requires p.title.SetTo? && p.author.SetTo? && p.genre.SetTo? && p.publishedYear.SetTo? && p.isbn.SetTo?
    ensures var b := HandlePut(st, p).store.books[p.id];
      b == Book(p.title.value, p.author.value, p.genre.value, p.publishedYear.value, p.isbn.value,
                st.books[p.id].createdAt, st.books[p.id].updatedAt)
  {
  }

  /** Sending the same update twice leaves the store as sending it once, and both succeed or both fail. */
  lemma PutIdempotent(st: Store, p: UpdatePayload)
    ensures var once := HandlePut(st, p);
      HandlePut(once.store, p) == once
  {
    if p.id in st.books {
      var b := st.books[p.id];
      assert Updated(Updated(b, p), p) == Updated(b, p);
      assert st.books[p.id := Updated(b, p)][p.id := Updated(b, p)] == st.books[p.id := Updated(b, p)];
    }
  }

  /* ------------------------------------------------------------- DELETE */

  datatype DeleteResult = DeleteResult(store: Store, status: nat)

  /**
   * DELETE: removes the record the `id` parameter names, if any, and reports success
   * whether or not it existed.
   */
  function HandleDelete(st: Store, q: SearchParams.Query): (r: DeleteResult)
    ensures r.status == 200
    ensures SearchParams.Get(q, "id").None? ==> r.store == st
    ensures SearchParams.Get(q, "id").Some? ==>
      var id := SearchParams.Get(q, "id").value;
      && id !in r.store.books && id !in r.store.order
      && (forall other :: other != id ==> (other in r.store.books <==> other in st.books))
      && (forall other :: other != id && other in st.books ==> r.store.books[other] == st.books[other])
      && (forall other :: other != id ==> (other in r.store.order <==> other in st.order))
      && (Distinct(st.order) && id in st.order ==>
            exists k :: 0 <= k < |st.order| && st.order[k] == id && r.store.order == st.order[..k] + st.order[k + 1..])
      && (id !in st.order ==> r.store.order == st.order)
      && (id !in st.books && id !in st.order ==> r.store == st)
    ensures Valid(st) ==> Valid(r.store)
  {
    match SearchParams.Get(q, "id")
    case None => DeleteResult(st, 200)
    case Some(id) =>
      assert id !in st.books && id !in st.order ==> st.books - {id} == st.books;
      var order := Remove(st.order, id);
      assert Valid(st) ==> forall i :: 0 <= i < |order| ==> order[i] in st.books - {id} by {
        if Valid(st) {
          forall i | 0 <= i < |order| ensures order[i] in st.books - {id} {
            assert order[i] in order;
            var j :| 0 <= j < |st.order| && st.order[j] == order[i];
          }
        }
      }
      DeleteResult(Store(st.books - {id}, Remove(st.order, id)), 200)
  }

  /** Deleting twice leaves the store as deleting once, and both report success. */
  lemma DeleteIdempotent(st: Store, q: SearchParams.Query)
    ensures HandleDelete(HandleDelete(st, q).store, q) == HandleDelete(st, q)
  {
  }

  /** Deleting a stored record removes exactly one record. */
  lemma DeleteCount(st: Store, q: SearchParams.Query)
    requires Valid(st)
    requires SearchParams.Get(q, "id").Some? && SearchParams.Get(q, "id").value in st.books
    ensures |HandleDelete(st, q).store.books| == |st.books| - 1
  {
  }
}
