/** The bitmap whose bits and values share chunks of 256 keys, and its iterator. */
module TwinedBitMap {
  import opened KeyedStore
  import opened Chunks

  ghost predicate AllFull<V>(chunks: seq<Chunk<V>>) {
    forall i :: 0 <= i < |chunks| ==> chunks[i].Full()
  }

  predicate InBounds<V>(chunks: seq<Chunk<V>>, key: nat) {
    key / CHUNK < |chunks|
  }

  /** The chunks hold the key if, and only if, it is present, and its value if they reach that far. */
  ghost predicate Agrees<V>(chunks: seq<Chunk<V>>, s: Store<V>, key: nat)
    requires AllFull(chunks)
  {
    if InBounds(chunks, key) then
      (chunks[key / CHUNK].Test(key) <==> key in s.present) && chunks[key / CHUNK].Val(key) == s.Get(key)
    else key !in s.present && s.Get(key) == s.zero
  }

  ghost predicate Represents<V>(chunks: seq<Chunk<V>>, s: Store<V>) {
    AllFull(chunks) && forall key: nat {:trigger Agrees(chunks, s, key)} :: Agrees(chunks, s, key)
  }

  lemma BitIsMember<V>(chunks: seq<Chunk<V>>, s: Store<V>, i: nat, j: nat)
    requires Represents(chunks, s) && i < |chunks| && j < CHUNK
    ensures chunks[i].bits[j] <==> i * CHUNK + j in s.present
    ensures chunks[i].vals[j] == s.Get(i * CHUNK + j)
  {
    Position(i, j);
    assert Agrees(chunks, s, i * CHUNK + j);
  }

  class TwinedBitMap<V> {
    const zero: V
    var chunks: seq<Chunk<V>>
    ghost var model: Store<V>

    ghost predicate Valid()
      reads this
    {
      Represents(chunks, model) && model.zero == zero
    }

    constructor (zero: V)
      ensures Valid() && model == Empty(zero)
    {
      this.zero := zero;
      chunks := [];
      model := Empty(zero);
    }

    method Resize(key: nat)
      requires Valid()
      modifies `chunks
      ensures Valid() && InBounds(chunks, key)
    {
      if |chunks| <= key / CHUNK {
        ghost var before := chunks;
        chunks := chunks + seq(key / CHUNK + 1 - |chunks|, _ => NewChunk(zero));
        forall k: nat {:trigger Agrees(chunks, model, k)} ensures Agrees(chunks, model, k) {
          assert Agrees(before, model, k);
        }
      }
    }

    /** Of any key whose chunk there is, present or not. */
    method Read(key: nat) returns (val: V)
      requires Valid() && InBounds(chunks, key)
      ensures val == model.Get(key)
    {
      assert Agrees(chunks, model, key);
      val := chunks[key / CHUNK].Val(key);
    }

    method Write(key: nat, val: V)
      requires Valid() && InBounds(chunks, key)
      modifies this
      ensures Valid() && model == old(model).Write(key, val)
    {
      assert Agrees(chunks, model, key);
      chunks := chunks[key / CHUNK := chunks[key / CHUNK].SetVal(key, val)];
      model := model.Write(key, val);
      Changed(old(chunks), old(model), key);
    }

    method Insert(key: nat)
      requires Valid()
      modifies this
      ensures Valid() && model == old(model).Insert(key)
    {
      Resize(key);
      ghost var before := chunks;
      assert Agrees(before, model, key);
      chunks := chunks[key / CHUNK := chunks[key / CHUNK].Set(key)];
      model := model.Insert(key);
      Changed(before, old(model), key);
    }

    method InsertValue(key: nat, val: V)
      requires Valid()
      modifies this
      ensures Valid() && model == old(model).InsertValue(key, val)
    {
      Resize(key);
      ghost var before := chunks;
      chunks := chunks[key / CHUNK := chunks[key / CHUNK].Set(key).SetVal(key, val)];
      model := model.InsertValue(key, val);
      Changed(before, old(model), key);
    }

    method Remove(key: nat)
      requires Valid()
      modifies this
      ensures Valid() && model == old(model).Remove(key)
    {
      assert Agrees(chunks, model, key);
      if InBounds(chunks, key) {
        chunks := chunks[key / CHUNK := chunks[key / CHUNK].Reset(key)];
      }
      model := model.Remove(key);
      Changed(old(chunks), old(model), key);
    }

    /** Chunks and meaning still agree, when they do so on the one key that changed. */
    lemma Changed(before: seq<Chunk<V>>, was: Store<V>, key: nat)
      requires Represents(before, was) && |chunks| == |before| && AllFull(chunks) && Agrees(chunks, model, key)
      requires model.zero == was.zero == zero
      requires forall i :: 0 <= i < |chunks| && i != key / CHUNK ==> chunks[i] == before[i]
      requires key / CHUNK < |chunks| ==> forall j :: 0 <= j < CHUNK && j != key % CHUNK ==>
                  && chunks[key / CHUNK].bits[j] == before[key / CHUNK].bits[j]
                  && chunks[key / CHUNK].vals[j] == before[key / CHUNK].vals[j]
      requires forall k: nat :: k != key ==> (k in model.present <==> k in was.present) && model.Get(k) == was.Get(k)
      ensures Valid()
    {
      forall k: nat {:trigger Agrees(chunks, model, k)} ensures Agrees(chunks, model, k) {
        assert Agrees(before, was, k);
        if k / CHUNK == key / CHUNK && k % CHUNK == key % CHUNK {
          SamePlace(k, key);
        }
      }
    }

    method Clear()
      modifies this
      ensures Valid() && model == Empty(zero)
    {
      chunks := [];
      model := Empty(zero);
    }

    method Has(key: nat) returns (r: bool)
      requires Valid()
      ensures r <==> key in model.present
    {
      assert Agrees(chunks, model, key);
      r := InBounds(chunks, key) && chunks[key / CHUNK].Test(key);
    }

    method Size() returns (count: nat)
      requires Valid()
      ensures count == |model.present|
    {
      count := 0;
      for i := 0 to |chunks|
        invariant count == Tally(model.present, i * CHUNK)
      {
        forall j: nat | j < CHUNK ensures chunks[i].bits[j] <==> i * CHUNK + j in model.present {
          BitIsMember(chunks, model, i, j);
        }
        TallyStretch(model.present, i * CHUNK, chunks[i].bits);
        count := count + Ones(chunks[i].bits);
      }
      AllBelow();
      TallyIsSize(model.present, |chunks| * CHUNK);
    }

    lemma AllBelow()
      requires Valid()
      ensures forall k :: k in model.present ==> k < |chunks| * CHUNK
    {
      forall k | k in model.present ensures k < |chunks| * CHUNK {
        assert Agrees(chunks, model, k);
      }
    }

    method Perform(op: Op<V>) returns (answer: Answer<V>)
      requires Valid() && Allowed(model, op)
      modifies this
      ensures Valid() && model == After(old(model), op) && answer == AnswerTo(old(model), op)
    {
      answer := NoAnswer;
      match op {
        case Insert(k) => Insert(k);
        case InsertValue(k, v) => InsertValue(k, v);
        case Remove(k) => Remove(k);
        case Write(k, v) =>
          assert Agrees(chunks, model, k);
          Write(k, v);
        case Read(k) =>
          assert Agrees(chunks, model, k);
          var v := Read(k);
          answer := Value(v);
        case Has(k) => var b := Has(k); answer := Flag(b);
        case Size => var n := Size(); answer := Count(n);
        case Clear => Clear();
      }
    }

    /** A run gives the answers that the operations have on the keyed store. */
    method PerformAll(ops: seq<Op<V>>) returns (answers: seq<Answer<V>>)
      requires Valid() && AllAllowed(model, ops)
      modifies this
      ensures Valid() && model == Run(old(model), ops) && answers == Answers(old(model), ops)
    {
      answers := [];
      for i := 0 to |ops|
        invariant Valid() && model == Run(old(model), ops[..i]) && |answers| == i
        invariant forall k :: 0 <= k < i ==> answers[k] == Answers(old(model), ops)[k]
      {
        assert ops[..i + 1][..i] == ops[..i];
        var answer := Perform(ops[i]);
        answers := answers + [answer];
      }
      assert ops[..|ops|] == ops;
    }
  }

  class Iterator<V> {
    var key: nat
    var val: V
    const bitmap: TwinedBitMap<V>
    /** The chunk that `it` is at, and that chunk's index `i`; `j` is the next bit. */
    var it: nat
    var i: nat
    var j: nat

    /** `it` and `i` move together, and the iterator is at a present key or at the end. */
    ghost predicate Valid()
      reads this, bitmap
    {
      && bitmap.Valid() && it == i <= |bitmap.chunks|
      && (it < |bitmap.chunks| ==> j < CHUNK && i * CHUNK + j in bitmap.model.present)
    }

    /** The key that comes next, if there is one. */
    ghost function Cursor(): nat
      reads this
    {
      i * CHUNK + j
    }

    /** To begin with, the iterator is at the least present key. */
    constructor (bitmap: TwinedBitMap<V>)
      requires bitmap.Valid()
      ensures this.bitmap == bitmap && Valid()
      ensures NoneBetween(bitmap.model.present, 0, Cursor())
    {
      this.bitmap := bitmap;
      key, val, it, i, j := 0, bitmap.zero, 0, 0, 0;
      new;
      FindNext();
    }

    /** On to the first present key at or after the cursor, or to the end. */
    method FindNext()
      requires bitmap.Valid() && it == i <= |bitmap.chunks| && j <= CHUNK
      modifies `it, `i, `j
      ensures Valid() && old(Cursor()) <= Cursor()
      ensures NoneBetween(bitmap.model.present, old(Cursor()), Cursor())
    {
      while it != |bitmap.chunks|
        invariant it == i <= |bitmap.chunks| && j <= CHUNK && old(Cursor()) <= Cursor()
        invariant NoneBetween(bitmap.model.present, old(Cursor()), Cursor())
        decreases |bitmap.chunks| - it
      {
        ghost var at := it;
        while j < CHUNK
          invariant at == it == i < |bitmap.chunks| && j <= CHUNK && old(Cursor()) <= Cursor()
          invariant NoneBetween(bitmap.model.present, old(Cursor()), Cursor())
        {
          BitIsMember(bitmap.chunks, bitmap.model, i, j);
          if bitmap.chunks[it].bits[j] {
            return;
          }
          j := j + 1;
        }
        j := 0;
        it := it + 1;
        i := i + 1;
      }
    }

    /** Yields the present key at the cursor with its value, and moves on to the one after it. */
    method Next() returns (more: bool)
      requires Valid()
      modifies `key, `val, `it, `i, `j
      ensures Valid()
      ensures more <==> old(it) < |bitmap.chunks|
      ensures more ==>
                && key == old(Cursor()) && key in bitmap.model.present && val == bitmap.model.Get(key)
                && key < Cursor() && NoneBetween(bitmap.model.present, key + 1, Cursor())
      ensures !more ==> Cursor() == old(Cursor())
    {
      if it == |bitmap.chunks| {
        return false;
      }
      BitIsMember(bitmap.chunks, bitmap.model, i, j);
      key := i * CHUNK + j;
      val := bitmap.chunks[it].vals[j];
      j := j + 1;
      FindNext();
      return true;
    }
  }

  /** What `Next` has just yielded. */
  ghost predicate Yielded<V>(iter: Iterator<V>)
    reads iter, iter.bitmap
  {
    && iter.key in iter.bitmap.model.present && iter.val == iter.bitmap.model.Get(iter.key)
    && iter.key < iter.Cursor() && NoneBetween(iter.bitmap.model.present, iter.key + 1, iter.Cursor())
    && iter.key < |iter.bitmap.chunks| * CHUNK
  }

  /** The keys gone through are the present ones before the key just yielded, or all of them at the end. */
  ghost predicate GoneThrough<V>(iter: Iterator<V>, keys: seq<nat>, more: bool)
    reads iter, iter.bitmap
  {
    && iter.Valid() && EnumeratesBelow(keys, iter.bitmap.model.present, if more then iter.key else iter.Cursor())
    && (if more then Yielded(iter) else iter.it == |iter.bitmap.chunks|)
  }

  /** Started at the beginning and run to its end, the iterator yields every present key once, in order. */
  method Enumerate<V>(bitmap: TwinedBitMap<V>) returns (keys: seq<nat>, vals: seq<V>)
    requires bitmap.Valid()
    ensures Enumerates(keys, bitmap.model.present) && |keys| == |bitmap.model.present|
    ensures |vals| == |keys| && forall n :: 0 <= n < |keys| ==> vals[n] == bitmap.model.Get(keys[n])
  {
    keys, vals := [], [];
    var iter := new Iterator(bitmap);
    var more := iter.Next();
    bitmap.AllBelow();
    while more
      invariant iter.bitmap == bitmap && fresh(iter) && GoneThrough(iter, keys, more)
      invariant |vals| == |keys| && forall n :: 0 <= n < |keys| ==> vals[n] == bitmap.model.Get(keys[n])
      decreases if more then |bitmap.chunks| * CHUNK - iter.key else 0
    {
      OneKeyMore(keys, bitmap.model.present, iter.key, iter.Cursor());
      keys, vals := keys + [iter.key], vals + [iter.val];
      more := iter.Next();
    }
    AllBelowBound(keys, bitmap.model.present, iter.Cursor());
    EnumerationLength(keys, bitmap.model.present);
  }
}
