/**
 * Plain JavaScript objects with string keys, as ordered lists of key/value entries.
 * Property order is insertion order: assigning to an existing key keeps its position,
 * assigning to a new key appends it.
 */
module Objects {
  import opened Common

  type Object<V> = seq<(string, V)>

  /** The property names, in property order (`Object.keys`). */
  function Keys<V>(o: Object<V>): seq<string>
    decreases |o|
  {
    if |o| == 0 then [] else [o[0].0] + Keys(o[1..])
  }

  /** No property name occurs twice, as in every real object. */
  predicate DistinctKeys<V>(o: Object<V>)
  {
    forall i, j :: 0 <= i < j < |o| ==> o[i].0 != o[j].0
  }

  /** Property read `o[k]`: the value of the first entry named `k`, or `None` for `undefined`. */
  function Lookup<V>(o: Object<V>, k: string): (r: Option<V>)
    ensures r.None? <==> k !in Keys(o)
    ensures r.Some? ==> (k, r.value) in o
    decreases |o|
  {
    if |o| == 0 then None
    else if o[0].0 == k then Some(o[0].1)
    else Lookup(o[1..], k)
  }

  /** Property assignment `o[k] = v`. */
  function Put<V>(o: Object<V>, k: string, v: V): (r: Object<V>)
    ensures Lookup(r, k) == Some(v)
    ensures forall k' :: k' != k ==> Lookup(r, k') == Lookup(o, k')
    ensures Keys(r) == if k in Keys(o) then Keys(o) else Keys(o) + [k]
    decreases |o|
  {
    if |o| == 0 then [(k, v)]
    else if o[0].0 == k then [(k, v)] + o[1..]
    else
      var tail := Put(o[1..], k, v);
      assert Keys([o[0]] + tail) == [o[0].0] + Keys(tail) by {
        assert ([o[0]] + tail)[1..] == tail;
      }
      assert Keys(o) == [o[0].0] + Keys(o[1..]);
      [o[0]] + tail
  }

  /** Object spread `{...base, ...extra}`: every property of `extra`, in its order, assigned onto a copy of `base`. */
  function Spread<V>(base: Object<V>, extra: Object<V>): Object<V>
    decreases |extra|
  {
    if |extra| == 0 then base else Spread(Put(base, extra[0].0, extra[0].1), extra[1..])
  }

  /**
   * Reading a spread object: a key of `extra` has its value there, any other key keeps its
   * value in `base`; the keys of `base` keep their order and come first.
   */
  lemma {:induction false} SpreadLookup<V>(base: Object<V>, extra: Object<V>)
    requires DistinctKeys(extra)
    ensures forall k :: Lookup(Spread(base, extra), k) == if k in Keys(extra) then Lookup(extra, k) else Lookup(base, k)
    ensures Keys(base) <= Keys(Spread(base, extra))
    ensures forall k :: k in Keys(Spread(base, extra)) <==> k in Keys(base) || k in Keys(extra)
    decreases |extra|
  {
    if |extra| > 0 {
      var next := Put(base, extra[0].0, extra[0].1);
      assert DistinctKeys(extra[1..]) by {
        forall i, j | 0 <= i < j < |extra[1..]|
          ensures extra[1..][i].0 != extra[1..][j].0
        {
          assert extra[1..][i] == extra[i + 1] && extra[1..][j] == extra[j + 1];
        }
      }
      FirstKeyNotInRest(extra);
      SpreadLookup(next, extra[1..]);
    }
  }

  /** In an object with distinct keys, the first key does not reappear later. */
  lemma FirstKeyNotInRest<V>(o: Object<V>)
    requires |o| >= 1 && DistinctKeys(o)
    ensures o[0].0 !in Keys(o[1..])
    ensures Keys(o) == [o[0].0] + Keys(o[1..])
  {
    if o[0].0 in Keys(o[1..]) {
      var j := KeyPosition(o[1..], o[0].0);
      assert false;
    }
  }

  /** A key of an object names some entry of it. */
  lemma KeyPosition<V>(o: Object<V>, k: string) returns (i: nat)
    requires k in Keys(o)
    ensures i < |o| && o[i].0 == k
    decreases |o|
  {
    if o[0].0 == k {
      i := 0;
    } else {
      var j := KeyPosition(o[1..], k);
      i := j + 1;
    }
  }

  /** Assigning a key its current value after another assignment to it restores the object. */
  lemma {:induction false} PutRestores<V>(o: Object<V>, k: string, v: V, old_v: V)
    requires Lookup(o, k) == Some(old_v)
    ensures Put(Put(o, k, v), k, old_v) == o
    decreases |o|
  {
    if o[0].0 != k {
      PutRestores(o[1..], k, v, old_v);
      assert ([o[0]] + Put(o[1..], k, v))[1..] == Put(o[1..], k, v);
      assert [o[0]] + o[1..] == o;
    } else {
      assert ([(k, v)] + o[1..])[1..] == o[1..];
      assert [o[0]] + o[1..] == o;
    }
  }

  /** Assigning a new key appends it. */
  lemma {:induction false} PutNew<V>(o: Object<V>, k: string, v: V)
    requires k !in Keys(o)
    ensures Put(o, k, v) == o + [(k, v)]
    decreases |o|
  {
    if |o| > 0 {
      PutBehindHead(o, k, v);
      PutNew(o[1..], k, v);
      HeadThenTail(o, (k, v));
    }
  }

  lemma HeadThenTail<V>(o: Object<V>, e: (string, V))
    requires |o| > 0
    ensures [o[0]] + (o[1..] + [e]) == o + [e]
  {
    assert [o[0]] + o[1..] == o;
  }

  /** Assigning a key that is not the first goes past the first entry. */
  lemma PutBehindHead<V>(o: Object<V>, k: string, v: V)
    requires |o| > 0 && k !in Keys(o)
    ensures k !in Keys(o[1..])
    ensures Put(o, k, v) == [o[0]] + Put(o[1..], k, v)
  {
    assert Keys(o) == [o[0].0] + Keys(o[1..]);
  }

  /** The keys list the entries' names one for one. */
  lemma {:induction false} KeysAt<V>(o: Object<V>)
    ensures |Keys(o)| == |o|
    ensures forall i :: 0 <= i < |o| ==> Keys(o)[i] == o[i].0
    decreases |o|
  {
    if |o| > 0 {
      KeysAt(o[1..]);
    }
  }

  /** Appending an entry appends its name to the keys. */
  lemma {:induction false} KeysAppend<V>(o: Object<V>, e: (string, V))
    ensures Keys(o + [e]) == Keys(o) + [e.0]
    decreases |o|
  {
    if |o| > 0 {
      assert (o + [e])[1..] == o[1..] + [e];
      KeysAppend(o[1..], e);
    } else {
      assert o + [e] == [e];
    }
  }

  /** Spreading one new key appends it. */
  lemma SpreadOne<V>(o: Object<V>, e: (string, V))
    requires e.0 !in Keys(o)
    ensures Spread(o, [e]) == o + [e]
  {
    PutNew(o, e.0, e.1);
    assert [e][1..] == [];
  }

  /** Spreading two new, different keys onto an object appends them in order. */
  lemma SpreadNewPair<V>(base: Object<V>, first: (string, V), second: (string, V))
    requires first.0 !in Keys(base) && second.0 !in Keys(base) && first.0 != second.0
    ensures Spread(base, [first, second]) == base + [first, second]
  {
    var once := base + [first];
    SpreadFirst(base, first, second);
    PutNew(base, first.0, first.1);
    NotInAppended(base, first, second.0);
    SpreadOne(once, second);
    AppendTwo(base, first, second);
  }

  /** A key in neither `o` nor `e` is not a key of `o + [e]`. */
  lemma NotInAppended<V>(o: Object<V>, e: (string, V), k: string)
    requires k !in Keys(o) && k != e.0
    ensures k !in Keys(o + [e])
  {
    KeysAppend(o, e);
  }

  lemma AppendTwo<V>(o: Object<V>, first: (string, V), second: (string, V))
    ensures (o + [first]) + [second] == o + [first, second]
  {
  }

  /** Spreading two entries assigns the first, then spreads the second. */
  lemma SpreadFirst<V>(base: Object<V>, first: (string, V), second: (string, V))
    ensures Spread(base, [first, second]) == Spread(Put(base, first.0, first.1), [second])
  {
    assert [first, second][1..] == [second];
  }
}
