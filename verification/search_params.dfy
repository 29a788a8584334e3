/**
 * How the data route reads its query: `new URL(req.url).searchParams` and `.get(name)`.
 * The reading is exact for text made of letters, digits and `-._~`, which URL parsing
 * and form decoding leave untouched; that is all the page ever sends.
 */
module SearchParams {
  import opened Common
  import Objects
  import QueryFilter

  /** The decoded name/value pairs of a query, in order. */
  type Query = seq<(string, string)>

  /** The query component of a request target: the text after the first "?", up to any "#". */
  function SearchOf(url: string): string
  {
    match After(url, '?')
    case None => ""
    case Some(q) => Before(q, '#')
  }

  /** One "name=value" piece: the name up to the first "=", the value after it ("" when there is no "="). */
  function NameValue(piece: string): (string, string)
  {
    (Before(piece, '='), match After(piece, '=') case None => "" case Some(v) => v)
  }

  /** The name/value pairs of the pieces, skipping empty pieces. */
  function Entries(pieces: seq<string>): Query
    decreases |pieces|
  {
    if |pieces| == 0 then []
    else (if pieces[0] == "" then [] else [NameValue(pieces[0])]) + Entries(pieces[1..])
  }

  /** Parsing of a query string into pairs: pieces between "&", each cut at its first "=". */
  function ParseQuery(search: string): Query
  {
    Entries(Split(search, '&'))
  }

  /** `searchParams.get(name)`: the value of the first pair with that name. */
  function Get(q: Query, name: string): Option<string>
  {
    Objects.Lookup(q, name)
  }

  /** `searchParams.get(name) || fallback`: a missing or empty value falls back. */
  function GetOr(q: Query, name: string, fallback: string): string
  {
    match Get(q, name)
    case Some(v) => if v == "" then fallback else v
    case None => fallback
  }

  /** Characters that URL parsing and form decoding pass through unchanged. */
  predicate IsPlainChar(c: char)
  {
    ('a' <= c <= 'z') || ('A' <= c <= 'Z') || ('0' <= c <= '9') || c == '-' || c == '_' || c == '.' || c == '~'
  }

  predicate IsPlain(s: string)
  {
    forall i :: 0 <= i < |s| ==> IsPlainChar(s[i])
  }

  /** Every key and every rendered value of the filters is plain text. */
  predicate PlainFilters(filters: seq<QueryFilter.Entry>)
  {
    forall i :: 0 <= i < |filters| ==> IsPlain(filters[i].0) && IsPlain(QueryFilter.Render(filters[i].1))
  }

  /** The filters as the server sees them: names and rendered values. */
  function Rendered(filters: seq<QueryFilter.Entry>): (r: Query)
    ensures |r| == |filters|
  {
    seq(|filters|, i requires 0 <= i < |filters| => (filters[i].0, QueryFilter.Render(filters[i].1)))
  }

  lemma PlainExcludes(s: string, c: char)
    requires IsPlain(s) && !IsPlainChar(c)
    ensures c !in s
  {
  }

  /** Each "key=value" piece reads back as its entry, so the pieces read back as the filters. */
  lemma {:induction false} EntriesOfPairs(filters: seq<QueryFilter.Entry>)
    requires PlainFilters(filters)
    ensures Entries(QueryFilter.Pairs(filters)) == Rendered(filters)
    decreases |filters|
  {
    if |filters| > 0 {
      var e := filters[0];
      var piece := QueryFilter.Pair(e);
      PlainExcludes(e.0, '=');
      FirstOccurrence(e.0, '=', QueryFilter.Render(e.1));
      assert piece == e.0 + ['='] + QueryFilter.Render(e.1);
      assert piece != "";
      assert PlainFilters(filters[1..]) by {
        forall i | 0 <= i < |filters[1..]|
          ensures IsPlain(filters[1..][i].0) && IsPlain(QueryFilter.Render(filters[1..][i].1))
        {
          assert filters[1..][i] == filters[i + 1];
        }
      }
      EntriesOfPairs(filters[1..]);
      assert QueryFilter.Pairs(filters)[1..] == QueryFilter.Pairs(filters[1..]);
      assert Rendered(filters) == [(e.0, QueryFilter.Render(e.1))] + Rendered(filters[1..]);
    }
  }

  /**
   * Reading back what `createQueryFilter` built: appended to a path without "?" or "#",
   * the query string of plain filters parses to exactly the filters, in order.
   */
  lemma ReadBack(path: string, filters: seq<QueryFilter.Entry>)
    requires '?' !in path && '#' !in path
    requires PlainFilters(filters)
    ensures ParseQuery(SearchOf(path + QueryFilter.CreateQueryFilter(filters))) == Rendered(filters)
  {
    var qs := QueryFilter.CreateQueryFilter(filters);
    if |filters| == 0 {
      assert path + qs == path;
      assert Split("", '&') == [""];
    } else {
      var ps := QueryFilter.Pairs(filters);
      var joined := Join("&", ps);
      assert qs == "?" + joined;
      forall i | 0 <= i < |ps|
        ensures '&' !in ps[i] && '#' !in ps[i]
      {
        PlainExcludes(filters[i].0, '&');
        PlainExcludes(filters[i].0, '#');
        PlainExcludes(QueryFilter.Render(filters[i].1), '&');
        PlainExcludes(QueryFilter.Render(filters[i].1), '#');
        assert ps[i] == filters[i].0 + "=" + QueryFilter.Render(filters[i].1);
      }
      assert path + qs == path + ['?'] + joined;
      FirstOccurrence(path, '?', joined);
      JoinAvoids("&", ps, '#');
      BeforeAbsent(joined, '#');
      assert SearchOf(path + qs) == joined;
      SplitJoin(ps, '&');
      assert ['&'] == "&";
      EntriesOfPairs(filters);
    }
  }
}
