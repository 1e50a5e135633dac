/** The bitmap whose chunks are in an ordered map and made when they are first touched. */
module SparseBitMap {
  import opened KeyedStore
  import opened Chunks

  datatype ChunkId = ChunkId(n: nat)

  ghost predicate AllFull<V>(chunks: map<ChunkId, Chunk<V>>) {
    forall id :: id in chunks ==> chunks[id].Full()
  }

  function IdOf(key: nat): ChunkId {
    ChunkId(key / CHUNK)
  }

  ghost predicate Agrees<V>(chunks: map<ChunkId, Chunk<V>>, s: Store<V>, key: nat)
    requires AllFull(chunks)
  {
    if IdOf(key) in chunks then
      (chunks[IdOf(key)].Test(key) <==> key in s.present) && chunks[IdOf(key)].Val(key) == s.Get(key)
    else key !in s.present && s.Get(key) == s.zero
  }

  ghost predicate Represents<V>(chunks: map<ChunkId, Chunk<V>>, s: Store<V>) {
    AllFull(chunks) && forall key: nat {:trigger Agrees(chunks, s, key)} :: Agrees(chunks, s, key)
  }

  /** The members whose chunk is in `ids`. */
  ghost function Within(s: set<nat>, ids: set<ChunkId>): set<nat> {
    set k | k in s && IdOf(k) in ids
  }

  /** The members in one chunk are as many as its set bits. */
  lemma ChunkSize<V>(chunks: map<ChunkId, Chunk<V>>, s: Store<V>, id: ChunkId)
    requires Represents(chunks, s) && id in chunks
    ensures |Within(s.present, {id})| == Ones(chunks[id].bits)
  {
    var inside, from := Within(s.present, {id}), id.n * CHUNK;
    forall j: nat | j < CHUNK ensures chunks[id].bits[j] <==> from + j in inside {
      Position(id.n, j);
      assert Agrees(chunks, s, from + j);
    }
    TallyStretch(inside, from, chunks[id].bits);
    TallyBelow(inside, from);
    assert Below(inside, from) == {};
    TallyIsSize(inside, from + CHUNK);
  }

  class SparseBitMap<V> {
    const zero: V
    var chunks: map<ChunkId, Chunk<V>>
    ghost var model: Store<V>

    ghost predicate Valid()
      reads this
    {
      Represents(chunks, model) && model.zero == zero
    }

    constructor (zero: V)
      ensures Valid() && model == Empty(zero)
    {
      this.zero := zero;
      chunks := map[];
      model := Empty(zero);
    }

    /** Makes the chunk of a key, if it is not there. */
    method Touch(key: nat)
      requires Valid()
      modifies `chunks
      ensures Valid() && IdOf(key) in chunks
    {
      if IdOf(key) !in chunks {
        ghost var before := chunks;
        chunks := chunks[IdOf(key) := NewChunk(zero)];
        forall k: nat {:trigger Agrees(chunks, model, k)} ensures Agrees(chunks, model, k) {
          assert Agrees(before, model, k);
        }
      }
    }

    /** Chunks and meaning still agree, when they do so on the one key that changed. */
    lemma Changed(before: map<ChunkId, Chunk<V>>, was: Store<V>, key: nat)
      requires Represents(before, was) && AllFull(chunks) && Agrees(chunks, model, key)
      requires chunks.Keys == before.Keys && IdOf(key) in chunks && model.zero == was.zero == zero
      requires forall id :: id in chunks && id != IdOf(key) ==> chunks[id] == before[id]
      requires forall j :: 0 <= j < CHUNK && j != key % CHUNK ==>
                  && chunks[IdOf(key)].bits[j] == before[IdOf(key)].bits[j]
                  && chunks[IdOf(key)].vals[j] == before[IdOf(key)].vals[j]
      requires forall k: nat :: k != key ==> (k in model.present <==> k in was.present) && model.Get(k) == was.Get(k)
      ensures Valid()
    {
      forall k: nat {:trigger Agrees(chunks, model, k)} ensures Agrees(chunks, model, k) {
        assert Agrees(before, was, k);
        if k / CHUNK == key / CHUNK && k % CHUNK == key % CHUNK {
          SamePlace(k, key);
        }
      }
    }

    method Read(key: nat) returns (val: V)
      requires Valid() && key in model.present
      ensures val == model.Get(key)
    {
      assert Agrees(chunks, model, key);
      val := chunks[IdOf(key)].Val(key);
    }

    method Write(key: nat, val: V)
      requires Valid()
      modifies this
      ensures Valid() && model == old(model).Write(key, val)
    {
      Touch(key);
      ghost var before := chunks;
      assert Agrees(chunks, model, key);
      chunks := chunks[IdOf(key) := chunks[IdOf(key)].SetVal(key, val)];
      model := model.Write(key, val);
      Changed(before, old(model), key);
    }

    method Insert(key: nat)
      requires Valid()
      modifies this
      ensures Valid() && model == old(model).Insert(key)
    {
      Touch(key);
      ghost var before := chunks;
      assert Agrees(chunks, model, key);
      chunks := chunks[IdOf(key) := chunks[IdOf(key)].Set(key)];
      model := model.Insert(key);
      Changed(before, old(model), key);
    }

    method InsertValue(key: nat, val: V)
      requires Valid()
      modifies this
      ensures Valid() && model == old(model).InsertValue(key, val)
    {
      Touch(key);
      ghost var before := chunks;
      chunks := chunks[IdOf(key) := chunks[IdOf(key)].Set(key).SetVal(key, val)];
      model := model.InsertValue(key, val);
      Changed(before, old(model), key);
    }

    method Remove(key: nat)
      requires Valid()
      modifies this
      ensures Valid() && model == old(model).Remove(key)
    {
      Touch(key);
      ghost var before := chunks;
      assert Agrees(chunks, model, key);
      chunks := chunks[IdOf(key) := chunks[IdOf(key)].Reset(key)];
      model := model.Remove(key);
      Changed(before, old(model), key);
    }

    method Clear()
      modifies this
      ensures Valid() && model == Empty(zero)
    {
      chunks := map[];
      model := Empty(zero);
    }

    method Has(key: nat) returns (r: bool)
      requires Valid()
      ensures r <==> key in model.present
    {
      assert Agrees(chunks, model, key);
      r := IdOf(key) in chunks && chunks[IdOf(key)].Test(key);
    }

    method Size() returns (count: nat)
      requires Valid()
      ensures count == |model.present|
    {
      count := 0;
      var todo := chunks.Keys;
      assert Within(model.present, {}) == {};
      while todo != {}
        invariant todo <= chunks.Keys && count == |Within(model.present, chunks.Keys - todo)|
      {
        var id :| id in todo;
        ChunkSize(chunks, model, id);
        OneMoreChunk(model.present, chunks.Keys - todo, id);
        assert chunks.Keys - (todo - {id}) == chunks.Keys - todo + {id};
        count := count + Ones(chunks[id].bits);
        todo := todo - {id};
      }
      assert chunks.Keys - {} == chunks.Keys;
      assert Within(model.present, chunks.Keys) == model.present by {
        forall k | k in model.present ensures IdOf(k) in chunks {
          assert Agrees(chunks, model, k);
        }
      }
    }

    method Perform(op: Op<V>) returns (answer: Answer<V>)
      requires Valid() && Allowed(model, op)
      modifies this
      ensures Valid() && model == After(old(model), op) && answer == AnswerTo(old(model), op)
    {
      answer := NoAnswer;
      match op {
        case Insert(k) => Insert(k);
        case InsertValue(k, v) => InsertValue(k, v);
        case Remove(k) => Remove(k);
        case Write(k, v) => Write(k, v);
        case Read(k) => var v := Read(k); answer := Value(v);
        case Has(k) => var b := Has(k); answer := Flag(b);
        case Size => var n := Size(); answer := Count(n);
        case Clear => Clear();
      }
    }

    /** A run gives the answers that the operations have on the keyed store. */
    method PerformAll(ops: seq<Op<V>>) returns (answers: seq<Answer<V>>)
      requires Valid() && AllAllowed(model, ops)
      modifies this
      ensures Valid() && model == Run(old(model), ops) && answers == Answers(old(model), ops)
    {
      answers := [];
      for i := 0 to |ops|
        invariant Valid() && model == Run(old(model), ops[..i]) && |answers| == i
        invariant forall k :: 0 <= k < i ==> answers[k] == Answers(old(model), ops)[k]
      {
        assert ops[..i + 1][..i] == ops[..i];
        var answer := Perform(ops[i]);
        answers := answers + [answer];
      }
      assert ops[..|ops|] == ops;
    }
  }

  lemma OneMoreChunk(s: set<nat>, ids: set<ChunkId>, id: ChunkId)
    requires id !in ids
    ensures |Within(s, ids + {id})| == |Within(s, ids)| + |Within(s, {id})|
  {
    assert Within(s, ids + {id}) == Within(s, ids) + Within(s, {id});
    assert Within(s, ids) !! Within(s, {id});
  }
}
