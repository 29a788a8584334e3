/**
 * The store's ordering of documents by `PublishedYear`, which the listing applies before it
 * skips and limits. A missing year orders before every year; ties keep the natural order.
 */
module YearSort {
  import opened Common
  import opened Books

  datatype Direction = Ascending | Descending

  /** `a` may come before `b` in ascending year order. */
  predicate YearAtMost(a: Option<real>, b: Option<real>)
  {
    a.None? || (b.Some? && a.value <= b.value)
  }

  /** `x` may come before `y` in the given direction. */
  predicate InOrder(x: Doc, y: Doc, dir: Direction)
  {
    match dir
    case Ascending => YearAtMost(x.book.publishedYear, y.book.publishedYear)
    case Descending => YearAtMost(y.book.publishedYear, x.book.publishedYear)
  }

  predicate Sorted(s: seq<Doc>, dir: Direction)
  {
    forall i, j :: 0 <= i < j < |s| ==> InOrder(s[i], s[j], dir)
  }

  /** The head of a sorted list, which `x` does not precede, precedes every element of `x` merged into its tail. */
  lemma HeadPrecedes(s: seq<Doc>, x: Doc, rest: seq<Doc>, dir: Direction)
    requires |s| > 0 && Sorted(s, dir) && !InOrder(x, s[0], dir)
    requires multiset(rest) == multiset(s[1..]) + multiset{x}
    ensures forall j :: 0 <= j < |rest| ==> InOrder(s[0], rest[j], dir)
  {
    forall j | 0 <= j < |rest| ensures InOrder(s[0], rest[j], dir) {
      assert rest[j] in multiset(rest);
      if rest[j] != x {
        assert rest[j] in multiset(s[1..]);
        var k :| 0 <= k < |s[1..]| && s[1..][k] == rest[j];
        assert s[k + 1] == rest[j];
      }
    }
  }

  /** `x` placed into sorted `s` in front of the first document it may precede. */
  function Insert(x: Doc, s: seq<Doc>, dir: Direction): (r: seq<Doc>)
    requires Sorted(s, dir)
    ensures Sorted(r, dir)
    ensures multiset(r) == multiset(s) + multiset{x}
    decreases |s|
  {
    if |s| == 0 then [x]
    else if InOrder(x, s[0], dir) then [x] + s
    else
      var rest := Insert(x, s[1..], dir);
      assert s == [s[0]] + s[1..];
      HeadPrecedes(s, x, rest, dir);
      [s[0]] + rest
  }

  /** The documents in year order, in the given direction: a sorted permutation of the input. */
  function SortByYear(s: seq<Doc>, dir: Direction): (r: seq<Doc>)
    ensures Sorted(r, dir)
    ensures multiset(r) == multiset(s)
    ensures |r| == |s|
    decreases |s|
  {
    if |s| == 0 then []
    else
      assert s == [s[0]] + s[1..];
      Insert(s[0], SortByYear(s[1..], dir), dir)
  }
}
