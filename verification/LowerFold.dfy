/** The loop that a fold is lowered to, whose result is the accumulator when the loop is left. */
module LowerFold {
  import opened KeyedStore
  import opened Chunks
  import StlVector
  import TwinedBitMap
  import BitMap
  import SparseBitMap

  /** What a fold means: the items one after the other, from the left. */
  ghost function FoldLeft<A, E>(body: (A, nat, E) -> A, initial: A, items: seq<(nat, E)>): A {
    if items == [] then initial
    else
      var last := |items| - 1;
      body(FoldLeft(body, initial, items[..last]), items[last].0, items[last].1)
  }

  lemma FoldStep<A, E>(body: (A, nat, E) -> A, initial: A, items: seq<(nat, E)>, item: (nat, E))
    ensures FoldLeft(body, initial, items + [item]) == body(FoldLeft(body, initial, items), item.0, item.1)
  {
    assert (items + [item])[..|items|] == items;
  }

  /** The fold over one item more of a list. */
  lemma FoldPrefix<A, E>(body: (A, nat, E) -> A, initial: A, items: seq<(nat, E)>, k: nat)
    requires k < |items|
    ensures FoldLeft(body, initial, items[..k + 1]) == body(FoldLeft(body, initial, items[..k]), items[k].0, items[k].1)
  {
    assert items[..k + 1] == items[..k] + [items[k]];
    FoldStep(body, initial, items[..k], items[k]);
  }

  ghost function Indexed<E>(elems: seq<E>): seq<(nat, E)> {
    seq(|elems|, i requires 0 <= i < |elems| => (i, elems[i]))
  }

  ghost function IndexedReverse<E>(elems: seq<E>): seq<(nat, E)> {
    seq(|elems|, i requires 0 <= i < |elems| => (|elems| - 1 - i, elems[|elems| - 1 - i]))
  }

  ghost function ItemsOf<E>(s: Store<E>, keys: seq<nat>): seq<(nat, E)> {
    seq(|keys|, i requires 0 <= i < |keys| => (keys[i], s.Get(keys[i])))
  }

  /** A body that keeps its arguments in a list. */
  function Collect<E>(acc: seq<(nat, E)>, k: nat, v: E): seq<(nat, E)> {
    acc + [(k, v)]
  }

  /** A fold whose body collects its arguments gives the list that is folded over. */
  lemma {:induction false} CollectIsItems<E>(items: seq<(nat, E)>)
    ensures FoldLeft(Collect, [], items) == items
  {
    if items != [] {
      CollectIsItems(items[..|items| - 1]);
    }
  }

  /** A body that collects its arguments gets each index with its element, first to last or last to first. */
  lemma CollectVector<E>(elems: seq<E>)
    ensures var forward, backward := FoldLeft(Collect, [], Indexed(elems)),
        FoldLeft(Collect, [], IndexedReverse(elems));
      && |forward| == |backward| == |elems|
      && (forall i :: 0 <= i < |elems| ==> forward[i] == (i, elems[i]))
      && forall i :: 0 <= i < |elems| ==> backward[i] == forward[|elems| - 1 - i]
  {
    CollectIsItems(Indexed(elems));
    CollectIsItems(IndexedReverse(elems));
  }

  /** And over a bitmap each present key once, in ascending order, with its value. */
  lemma CollectStore<E>(s: Store<E>, result: seq<(nat, E)>)
    requires AscendingFold(Collect, [], s, result)
    ensures exists keys :: Enumerates(keys, s.present) && |result| == |keys|
                           && forall i :: 0 <= i < |keys| ==> result[i] == (keys[i], s.Get(keys[i]))
  {
    var keys :| Enumerates(keys, s.present) && result == FoldLeft(Collect, [], ItemsOf(s, keys));
    CollectIsItems(ItemsOf(s, keys));
  }

  method FoldVector<A, E>(body: (A, nat, E) -> A, initial: A, elems: seq<E>, any: E) returns (accumulator: A)
    requires |elems| < StlVector.WORD
    ensures accumulator == FoldLeft(body, initial, Indexed(elems))
  {
    var iter := new StlVector.Iterator(elems, any);
    accumulator := initial;
    var more := iter.Next();
    while more
      invariant fresh(iter) && iter.Valid() && iter.elems == elems
      invariant more ==> iter.it >= 1 && iter.index == iter.it - 1 && iter.val == elems[iter.index]
      invariant !more ==> iter.it == |elems|
      invariant accumulator == FoldLeft(body, initial, Indexed(elems)[..if more then iter.it - 1 else iter.it])
      decreases |elems| - iter.it, more
    {
      FoldPrefix(body, initial, Indexed(elems), iter.it - 1);
      accumulator := body(accumulator, iter.index, iter.val);
      more := iter.Next();
    }
    assert Indexed(elems)[..|elems|] == Indexed(elems);
  }

  method FoldVectorReverse<A, E>(body: (A, nat, E) -> A, initial: A, elems: seq<E>, any: E) returns (accumulator: A)
    requires |elems| < StlVector.WORD
    ensures accumulator == FoldLeft(body, initial, IndexedReverse(elems))
  {
    var iter := new StlVector.ReverseIterator(elems, any);
    accumulator := initial;
    var more := iter.Next();
    while more
      invariant fresh(iter) && iter.Valid() && iter.elems == elems
      invariant more ==> iter.it >= 1 && iter.val == elems[iter.index]
      invariant !more ==> iter.it == |elems|
      invariant accumulator == FoldLeft(body, initial, IndexedReverse(elems)[..if more then iter.it - 1 else iter.it])
      decreases |elems| - iter.it, more
    {
      FoldPrefix(body, initial, IndexedReverse(elems), iter.it - 1);
      accumulator := body(accumulator, iter.index, iter.val);
      more := iter.Next();
    }
    assert IndexedReverse(elems)[..|elems|] == IndexedReverse(elems);
  }

  /** A fold step over one more key. */
  lemma FoldKey<A, E>(body: (A, nat, E) -> A, initial: A, s: Store<E>, keys: seq<nat>, key: nat)
    ensures FoldLeft(body, initial, ItemsOf(s, keys + [key]))
        == body(FoldLeft(body, initial, ItemsOf(s, keys)), key, s.Get(key))
  {
    FoldStep(body, initial, ItemsOf(s, keys), (key, s.Get(key)));
    assert ItemsOf(s, keys + [key]) == ItemsOf(s, keys) + [(key, s.Get(key))];
  }

  /** The fold over the present keys in ascending order; there is just one such order. */
  ghost predicate AscendingFold<A, E>(body: (A, nat, E) -> A, initial: A, s: Store<E>, result: A) {
    exists keys :: Enumerates(keys, s.present) && result == FoldLeft(body, initial, ItemsOf(s, keys))
  }

  lemma FoldIsUnique<A, E>(body: (A, nat, E) -> A, initial: A, s: Store<E>, keys: seq<nat>, result: A)
    requires Enumerates(keys, s.present)
    ensures AscendingFold(body, initial, s, result) <==> result == FoldLeft(body, initial, ItemsOf(s, keys))
  {
    if AscendingFold(body, initial, s, result) {
      var others :| Enumerates(others, s.present) && result == FoldLeft(body, initial, ItemsOf(s, others));
      EnumerationUnique(keys, others, s.present);
    }
  }

  method FoldTwined<A, E>(body: (A, nat, E) -> A, initial: A, bitmap: TwinedBitMap.TwinedBitMap<E>)
    returns (accumulator: A)
    requires bitmap.Valid()
    ensures AscendingFold(body, initial, bitmap.model, accumulator)
  {
    var iter := new TwinedBitMap.Iterator(bitmap);
    accumulator := initial;
    ghost var keys: seq<nat> := [];
    assert ItemsOf(bitmap.model, keys) == [];
    var more := iter.Next();
    bitmap.AllBelow();
    while more
      invariant iter.bitmap == bitmap && fresh(iter) && TwinedBitMap.GoneThrough(iter, keys, more)
      invariant accumulator == FoldLeft(body, initial, ItemsOf(bitmap.model, keys))
      decreases if more then |bitmap.chunks| * CHUNK - iter.key else 0
    {
      FoldKey(body, initial, bitmap.model, keys, iter.key);
      OneKeyMore(keys, bitmap.model.present, iter.key, iter.Cursor());
      accumulator := body(accumulator, iter.key, iter.val);
      keys := keys + [iter.key];
      more := iter.Next();
    }
    AllBelowBound(keys, bitmap.model.present, iter.Cursor());
    FoldIsUnique(body, initial, bitmap.model, keys, accumulator);
  }

  method FoldBitMap<A, E>(body: (A, nat, E) -> A, initial: A, bitmap: BitMap.BitMap<E>)
    returns (accumulator: A)
    requires bitmap.Valid()
    ensures AscendingFold(body, initial, bitmap.model, accumulator)
  {
    var iter := new BitMap.Iterator(bitmap);
    accumulator := initial;
    ghost var keys: seq<nat> := [];
    assert ItemsOf(bitmap.model, keys) == [];
    BitMap.NextPresent(bitmap.bits, bitmap.vals, bitmap.model, 0);
    bitmap.AllBelow();
    var more := iter.Next();
    while more
      invariant iter.bitmap == bitmap && fresh(iter) && BitMap.GoneThrough(iter, keys, more)
      invariant accumulator == FoldLeft(body, initial, ItemsOf(bitmap.model, keys))
      decreases if more then |bitmap.bits| - iter.key else 0
    {
      FoldKey(body, initial, bitmap.model, keys, iter.key);
      BitMap.NextPresent(bitmap.bits, bitmap.vals, bitmap.model, iter.key + 1);
      OneKeyMore(keys, bitmap.model.present, iter.key, BitMap.Bound(bitmap.bits, iter.current));
      accumulator := body(accumulator, iter.key, iter.val);
      keys := keys + [iter.key];
      more := iter.Next();
    }
    AllBelowBound(keys, bitmap.model.present, |bitmap.bits|);
    FoldIsUnique(body, initial, bitmap.model, keys, accumulator);
  }

  /**
    After the same run the three bitmaps have given the same answers, those of a finite
    map if no insert was plain, and a fold over the first two gives the same result.
   */
  method SameAnswersSameFold<A, E>(zero: E, ops: seq<Op<E>>, body: (A, nat, E) -> A, initial: A)
    returns (twinedAnswers: seq<Answer<E>>, plainAnswers: seq<Answer<E>>, sparseAnswers: seq<Answer<E>>,
             twinedFold: A, plainFold: A)
    requires AllAllowed(Empty(zero), ops)
    ensures twinedAnswers == plainAnswers == sparseAnswers && |twinedAnswers| == |ops|
    ensures (forall i :: 0 <= i < |ops| ==> !ops[i].Insert?) ==>
              forall i :: 0 <= i < |ops| ==> twinedAnswers[i] == MapAnswer(MapRun(ops[..i]), ops[i])
    ensures twinedFold == plainFold
  {
    var twined := new TwinedBitMap.TwinedBitMap(zero);
    var plain := new BitMap.BitMap(zero);
    var sparse := new SparseBitMap.SparseBitMap(zero);
    twinedAnswers := twined.PerformAll(ops);
    plainAnswers := plain.PerformAll(ops);
    sparseAnswers := sparse.PerformAll(ops);
    twinedFold := FoldTwined(body, initial, twined);
    plainFold := FoldBitMap(body, initial, plain);
    ghost var keys :| Enumerates(keys, twined.model.present) &&
        twinedFold == FoldLeft(body, initial, ItemsOf(twined.model, keys));
    FoldIsUnique(body, initial, plain.model, keys, plainFold);
    if forall i :: 0 <= i < |ops| ==> !ops[i].Insert? {
      RunIsMapRun(zero, ops);
    }
  }
}
