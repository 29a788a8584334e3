/** The book records of src/models/books.ts and the collection that holds them. */
module Books {
  import opened Common

  /** A store-assigned document identifier. */
  type Id = string

  /** A book: the five optional schema fields and the two store-assigned timestamps. */
  datatype Book = Book(
    title: Option<string>,
    author: Option<string>,
    genre: Option<string>,
    publishedYear: Option<real>,
    isbn: Option<string>,
    createdAt: int,
    updatedAt: int)

  /** A stored document: its identifier and its fields. */
  datatype Doc = Doc(id: Id, book: Book)

  /** The collection: records by identifier, and the store's natural order of identifiers. */
  datatype Store = Store(books: map<Id, Book>, order: seq<Id>)

  predicate Distinct(ids: seq<Id>)
  {
    forall i, j :: 0 <= i < j < |ids| ==> ids[i] != ids[j]
  }

  /** Each identifier names at most one record, and the order lists exactly the stored identifiers, once each. */
  predicate Valid(st: Store)
  {
    && Distinct(st.order)
    && (forall id :: id in st.books ==> id in st.order)
    && (forall i :: 0 <= i < |st.order| ==> st.order[i] in st.books)
  }

  /** The documents in natural order. */
  function Docs(st: Store): (r: seq<Doc>)
    requires Valid(st)
    ensures |r| == |st.order|
    ensures forall i :: 0 <= i < |r| ==> r[i] == Doc(st.order[i], st.books[st.order[i]])
  {
    seq(|st.order|, i requires 0 <= i < |st.order| && Valid(st) => Doc(st.order[i], st.books[st.order[i]]))
  }

  /** Distinct identifiers form a set of the same size. */
  lemma {:induction false} DistinctCount(ids: seq<Id>)
    requires Distinct(ids)
    ensures |set id | id in ids| == |ids|
    decreases |ids|
  {
    if |ids| > 0 {
      assert Distinct(ids[1..]) by {
        forall i, j | 0 <= i < j < |ids[1..]| ensures ids[1..][i] != ids[1..][j] {
          assert ids[1..][i] == ids[i + 1] && ids[1..][j] == ids[j + 1];
        }
      }
      DistinctCount(ids[1..]);
      assert (set id | id in ids) == {ids[0]} + (set id | id in ids[1..]);
      assert ids[0] !in ids[1..];
    }
  }

  /** The number of records (`countDocuments`) is the length of the natural order. */
  lemma CountIsOrderLength(st: Store)
    requires Valid(st)
    ensures |st.books| == |st.order|
  {
    DistinctCount(st.order);
    assert st.books.Keys == set id | id in st.order;
  }

  /** `rest` is `ids` with the element at some position `k`, which is `x`, cut out. */
  predicate CutAt(ids: seq<Id>, x: Id, rest: seq<Id>)
  {
    exists k :: 0 <= k < |ids| && ids[k] == x && rest == ids[..k] + ids[k + 1..]
  }

  /** Cutting `x` out of the tail, then putting the head back, cuts `x` out of the whole. */
  lemma CutBehindHead(ids: seq<Id>, x: Id, rest: seq<Id>)
    requires |ids| > 0 && CutAt(ids[1..], x, rest)
    ensures CutAt(ids, x, [ids[0]] + rest)
  {
    var tail := ids[1..];
    var j :| 0 <= j < |tail| && tail[j] == x && rest == tail[..j] + tail[j + 1..];
    var k := j + 1;
    assert ids[..k] == [ids[0]] + tail[..j];
    assert ids[k + 1..] == tail[j + 1..];
    assert [ids[0]] + rest == ids[..k] + ids[k + 1..];
    assert ids[k] == x;
  }

  /** The tail of a list of distinct identifiers is distinct and lacks the head. */
  lemma DistinctTail(ids: seq<Id>)
    requires |ids| > 0 && Distinct(ids)
    ensures Distinct(ids[1..]) && ids[0] !in ids[1..]
  {
    forall i, j | 0 <= i < j < |ids[1..]| ensures ids[1..][i] != ids[1..][j] {
      assert ids[1..][i] == ids[i + 1] && ids[1..][j] == ids[j + 1];
    }
  }

  /** `ids` without `x`, the rest in their order. */
  function Remove(ids: seq<Id>, x: Id): (r: seq<Id>)
    ensures x !in r
    ensures forall y :: y != x ==> (y in r <==> y in ids)
    ensures x !in ids ==> r == ids
    ensures Distinct(ids) ==> Distinct(r)
    ensures Distinct(ids) && x in ids ==> exists k :: 0 <= k < |ids| && ids[k] == x && r == ids[..k] + ids[k + 1..]
    decreases |ids|
  {
    if |ids| == 0 then []
    else
      assert Distinct(ids) ==> Distinct(ids[1..]) && ids[0] !in ids[1..] by {
        if Distinct(ids) { DistinctTail(ids); }
      }
      assert ids == [ids[0]] + ids[1..];
      if ids[0] == x then
        assert Distinct(ids) ==> ids[..0] + ids[1..] == ids[1..] && CutAt(ids, x, ids[1..]);
        Remove(ids[1..], x)
      else
        var rest := Remove(ids[1..], x);
        assert Distinct(ids) && x in ids ==> CutAt(ids, x, [ids[0]] + rest) by {
          if Distinct(ids) && x in ids {
            assert x in ids[1..];
            assert CutAt(ids[1..], x, rest);
            CutBehindHead(ids, x, rest);
          }
        }
        [ids[0]] + rest
  }
}
