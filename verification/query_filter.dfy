/**
 * `createQueryFilter` of src/lib/getData.ts: folds an object's entries, in property order,
 * into a query string `?k1=v1&k2=v2...`, copying keys and values verbatim.
 */
module QueryFilter {
  import opened Common
  import Numbers

  /** A filter value: the source accepts strings and (here, integral) numbers. */
  datatype Value = Text(text: string) | Number(n: int)

  /** One property of the filter object: its name and its value. */
  type Entry = (string, Value)

  /** `${value}`: strings as they are, numbers in decimal. */
  function Render(v: Value): string
  {
    match v
    case Text(t) => t
    case Number(n) => Numbers.IntToDecimal(n)
  }

  /** `${key}=${value}`. */
  function Pair(e: Entry): string
  {
    e.0 + "=" + Render(e.1)
  }

  function Pairs(filters: seq<Entry>): (r: seq<string>)
    ensures |r| == |filters|
    ensures forall i :: 0 <= i < |filters| ==> r[i] == Pair(filters[i])
  {
    seq(|filters|, i requires 0 <= i < |filters| => Pair(filters[i]))
  }

  /**
   * One pass of the loop body over `params`: append "&" when `params` is non-empty; then,
   * if it is still empty, append "?" and the pair and go on to the next entry; otherwise,
   * if it is longer than one character, append the pair. The length of a string is the
   * number of its own keys, so each guard compares the length of the text built so far.
   */
  function Step(params: string, e: Entry): (r: string)
    ensures params < r
    ensures |params| == 0 ==> r == "?" + Pair(e)
    ensures |params| > 0 ==> r == params + "&" + Pair(e)
  {
    var withSeparator := if |params| > 0 then params + "&" else params;
    if |withSeparator| == 0 then withSeparator + "?" + Pair(e)
    else if |withSeparator| > 1 then withSeparator + Pair(e)
    else withSeparator
  }

  /** The `for ... of Object.entries(filters)` loop, continuing from `params`. */
  function Loop(params: string, filters: seq<Entry>): (r: string)
    ensures params <= r
    ensures |filters| == 0 <==> r == params
    decreases |filters|
  {
    if |filters| == 0 then params else Loop(Step(params, filters[0]), filters[1..])
  }

  /** The query string the builder is meant to produce: "?" and the pairs joined by "&"; nothing for no entries. */
  function Expected(filters: seq<Entry>): string
  {
    if |filters| == 0 then "" else "?" + Join("&", Pairs(filters))
  }

  /**
   * Once the text holds at least two characters, the guard of the third branch always
   * holds, so every later entry is appended behind exactly one "&" and none is dropped.
   */
  lemma {:induction false} LoopAfterFirst(params: string, filters: seq<Entry>)
    requires |params| >= 2
    ensures Loop(params, filters) == params + Prefixed("&", Pairs(filters))
    decreases |filters|
  {
    if |filters| > 0 {
      var next := Step(params, filters[0]);
      assert Loop(params, filters) == Loop(next, filters[1..]);
      LoopAfterFirst(next, filters[1..]);
      PrefixedOfPairs(params, filters);
    }
  }

  /** Writing "&" and the first pair, then the rest behind "&", is writing all pairs behind "&". */
  lemma PrefixedOfPairs(params: string, filters: seq<Entry>)
    requires |filters| > 0
    ensures (params + "&" + Pair(filters[0])) + Prefixed("&", Pairs(filters[1..])) == params + Prefixed("&", Pairs(filters))
  {
    var ps := Pairs(filters);
    assert ps[1..] == Pairs(filters[1..]);
    var tail := Prefixed("&", ps[1..]);
    assert Prefixed("&", ps) == "&" + ps[0] + tail;
    assert (params + "&" + ps[0]) + tail == params + ("&" + ps[0] + tail);
  }

  /** The loop as written computes the reference query string. */
  lemma {:induction false} LoopMatchesExpected(filters: seq<Entry>)
    ensures Loop("", filters) == Expected(filters)
  {
    if |filters| > 0 {
      LoopFromFirst(filters);
      JoinOfPairs(filters);
    }
  }

  /** The first entry opens the text with "?", and the rest follow it behind "&". */
  lemma LoopFromFirst(filters: seq<Entry>)
    requires |filters| > 0
    ensures Loop("", filters) == "?" + Pair(filters[0]) + Prefixed("&", Pairs(filters[1..]))
  {
    var first := "?" + Pair(filters[0]);
    assert Loop("", filters) == Loop(first, filters[1..]);
    LoopAfterFirst(first, filters[1..]);
  }

  /** The joined pairs are the first pair, then the others each behind "&". */
  lemma JoinOfPairs(filters: seq<Entry>)
    requires |filters| > 0
    ensures Join("&", Pairs(filters)) == Pair(filters[0]) + Prefixed("&", Pairs(filters[1..]))
  {
    var ps := Pairs(filters);
    JoinIsFirstThenPrefixed("&", ps);
    assert ps[1..] == Pairs(filters[1..]);
  }

  /** `createQueryFilter(filters)`. */
  function CreateQueryFilter(filters: seq<Entry>): (r: string)
    ensures r == Expected(filters)
    ensures |filters| == 0 <==> r == ""
    ensures |filters| > 0 ==> "?" + Pair(filters[0]) <= r
  {
    LoopMatchesExpected(filters);
    Loop("", filters)
  }

  /**
   * When no key or value holds "&", the text after "?" splits at "&" into exactly the
   * pairs, in input order: one separator between consecutive pairs, none before the
   * first or after the last.
   */
  lemma SeparatorsBetweenPairs(filters: seq<Entry>)
    requires |filters| >= 1
    requires forall i :: 0 <= i < |filters| ==> '&' !in Pair(filters[i])
    ensures CreateQueryFilter(filters)[0] == '?'
    ensures Split(CreateQueryFilter(filters)[1..], '&') == Pairs(filters)
  {
    var r := CreateQueryFilter(filters);
    assert r[1..] == Join("&", Pairs(filters));
    SplitJoin(Pairs(filters), '&');
  }

  /**
   * Nothing is escaped: a value holding "&" and "=" yields the same query string as two
   * separate entries.
   */
  lemma NoEscaping()
    ensures CreateQueryFilter([("a", Text("1&b=2"))])
         == CreateQueryFilter([("a", Text("1")), ("b", Text("2"))])
  {
    assert Pair(("a", Text("1&b=2"))) == "a=1&b=2";
    assert Pair(("a", Text("1"))) == "a=1";
    assert Pair(("b", Text("2"))) == "b=2";
    assert Pairs([("a", Text("1&b=2"))]) == ["a=1&b=2"];
    assert Pairs([("a", Text("1")), ("b", Text("2"))]) == ["a=1", "b=2"];
    assert Join("&", ["a=1", "b=2"]) == "a=1" + "&" + Join("&", ["b=2"]);
  }

  /** A single entry gives "?key=value". */
  lemma SingleEntry(e: Entry)
    ensures CreateQueryFilter([e]) == "?" + Pair(e)
  {
    assert Pairs([e]) == [Pair(e)];
  }

  /** One more entry appends "&key=value" to a non-empty query string. */
  lemma AppendEntry(filters: seq<Entry>, e: Entry)
    requires |filters| >= 1
    ensures CreateQueryFilter(filters + [e]) == CreateQueryFilter(filters) + "&" + Pair(e)
  {
    assert Pairs(filters + [e]) == Pairs(filters) + [Pair(e)];
    JoinSnoc("&", Pairs(filters), Pair(e));
  }
}
