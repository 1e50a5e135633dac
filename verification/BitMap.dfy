/** The bitmap over one dynamic bitset and one vector of values, and its iterator. */
module BitMap {
  import opened Wrappers
  import opened KeyedStore

  ghost predicate Agrees<V>(bits: seq<bool>, vals: seq<V>, s: Store<V>, key: nat)
    requires |bits| == |vals|
  {
    if key < |bits| then (bits[key] <==> key in s.present) && vals[key] == s.Get(key)
    else key !in s.present && s.Get(key) == s.zero
  }

  ghost predicate Represents<V>(bits: seq<bool>, vals: seq<V>, s: Store<V>) {
    |bits| == |vals| && forall key: nat {:trigger Agrees(bits, vals, s, key)} :: Agrees(bits, vals, s, key)
  }

  class BitMap<V> {
    const zero: V
    var bits: seq<bool>
    var vals: seq<V>
    ghost var model: Store<V>

    ghost predicate Valid()
      reads this
    {
      Represents(bits, vals, model) && model.zero == zero
    }

    constructor (zero: V)
      ensures Valid() && model == Empty(zero)
    {
      this.zero := zero;
      bits, vals := [], [];
      model := Empty(zero);
    }

    method Insert(key: nat)
      requires Valid()
      modifies this
      ensures Valid() && model == old(model).Insert(key) && key < |vals|
    {
      assert Agrees(bits, vals, model, key);
      if |bits| <= key {
        bits := bits + seq(key + 1 - |bits|, _ => false);
      }
      if |vals| <= key {
        vals := vals + seq(key + 1 - |vals|, _ => zero);
      }
      bits := bits[key := true];
      model := model.Insert(key);
      forall k: nat {:trigger Agrees(bits, vals, model, k)} ensures Agrees(bits, vals, model, k) {
        assert Agrees(old(bits), old(vals), old(model), k);
      }
    }

    method InsertValue(key: nat, val: V)
      requires Valid()
      modifies this
      ensures Valid() && model == old(model).InsertValue(key, val)
    {
      Insert(key);
      ghost var before := vals;
      vals := vals[key := val];
      model := old(model).InsertValue(key, val);
      forall k: nat {:trigger Agrees(bits, vals, model, k)} ensures Agrees(bits, vals, model, k) {
        assert Agrees(bits, before, old(model).Insert(key), k);
      }
    }

    method Remove(key: nat)
      requires Valid()
      modifies this
      ensures Valid() && model == old(model).Remove(key)
    {
      if key < |bits| {
        bits := bits[key := false];
      }
      model := model.Remove(key);
      forall k: nat {:trigger Agrees(bits, vals, model, k)} ensures Agrees(bits, vals, model, k) {
        assert Agrees(old(bits), vals, old(model), k);
      }
    }

    method Clear()
      modifies this
      ensures Valid() && model == Empty(zero)
    {
      bits, vals := [], [];
      model := Empty(zero);
    }

    method Has(key: nat) returns (r: bool)
      requires Valid()
      ensures r <==> key in model.present
    {
      assert Agrees(bits, vals, model, key);
      r := key < |bits| && bits[key];
    }

    method Read(key: nat) returns (val: V)
      requires Valid() && key in model.present
      ensures val == model.Get(key)
    {
      assert Agrees(bits, vals, model, key);
      val := vals[key];
    }

    method Write(key: nat, val: V)
      requires Valid() && key in model.present
      modifies this
      ensures Valid() && model == old(model).Write(key, val)
    {
      assert Agrees(bits, vals, model, key);
      vals := vals[key := val];
      model := model.Write(key, val);
      forall k: nat {:trigger Agrees(bits, vals, model, k)} ensures Agrees(bits, vals, model, k) {
        assert Agrees(bits, old(vals), old(model), k);
      }
    }

    method Size() returns (count: nat)
      requires Valid()
      ensures count == |model.present|
    {
      count := Ones(bits);
      forall j: nat | j < |bits| ensures bits[j] <==> 0 + j in model.present {
        assert Agrees(bits, vals, model, j);
      }
      TallyStretch(model.present, 0, bits);
      AllBelow();
      TallyIsSize(model.present, |bits|);
    }

    lemma AllBelow()
      requires Valid()
      ensures forall k :: k in model.present ==> k < |bits|
    {
      forall k | k in model.present ensures k < |bits| {
        assert Agrees(bits, vals, model, k);
      }
    }

    method Perform(op: Op<V>) returns (answer: Answer<V>)
      requires Valid() && Allowed(model, op)
      modifies this
      ensures Valid() && model == After(old(model), op) && answer == AnswerTo(old(model), op)
    {
      answer := NoAnswer;
      match op {
        case Insert(k) => Insert(k);
        case InsertValue(k, v) => InsertValue(k, v);
        case Remove(k) => Remove(k);
        case Write(k, v) => Write(k, v);
        case Read(k) => var v := Read(k); answer := Value(v);
        case Has(k) => var b := Has(k); answer := Flag(b);
        case Size => var n := Size(); answer := Count(n);
        case Clear => Clear();
      }
    }

    /** A run gives the answers that the operations have on the keyed store. */
    method PerformAll(ops: seq<Op<V>>) returns (answers: seq<Answer<V>>)
      requires Valid() && AllAllowed(model, ops)
      modifies this
      ensures Valid() && model == Run(old(model), ops) && answers == Answers(old(model), ops)
    {
      answers := [];
      for i := 0 to |ops|
        invariant Valid() && model == Run(old(model), ops[..i]) && |answers| == i
        invariant forall k :: 0 <= k < i ==> answers[k] == Answers(old(model), ops)[k]
      {
        assert ops[..i + 1][..i] == ops[..i];
        var answer := Perform(ops[i]);
        answers := answers + [answer];
      }
      assert ops[..|ops|] == ops;
    }
  }

  /** The first set bit at or after a position: what the bitset's `find_first` and `find_next` give. */
  function FirstSet(bits: seq<bool>, from: nat): (r: Option<nat>)
    ensures r.None? ==> forall j :: from <= j < |bits| ==> !bits[j]
    ensures r.Some? ==> from <= r.value < |bits| && bits[r.value] && forall j :: from <= j < r.value ==> !bits[j]
    decreases |bits| - from
  {
    if from >= |bits| then None else if bits[from] then Some(from) else FirstSet(bits, from + 1)
  }

  class Iterator<V> {
    var key: nat
    var val: V
    var current: Option<nat>
    const bitmap: BitMap<V>

    constructor (bitmap: BitMap<V>)
      requires bitmap.Valid()
      ensures this.bitmap == bitmap && current == FirstSet(bitmap.bits, 0)
    {
      this.bitmap := bitmap;
      key, val := 0, bitmap.zero;
      current := FirstSet(bitmap.bits, 0);
    }

    method Next() returns (more: bool)
      requires bitmap.Valid() && (current.Some? ==> current.value in bitmap.model.present)
      modifies `key, `val, `current
      ensures more <==> old(current).Some?
      ensures more ==>
                && key == old(current).value && val == bitmap.model.Get(key)
                && current == FirstSet(bitmap.bits, key + 1)
      ensures !more ==> current == None
    {
      if current == None {
        return false;
      }
      key := current.value;
      assert Agrees(bitmap.bits, bitmap.vals, bitmap.model, key);
      val := bitmap.vals[key];
      current := FirstSet(bitmap.bits, key + 1);
      return true;
    }
  }

  /** Where the next key is: past all keys, if there is none. */
  function Bound(bits: seq<bool>, current: Option<nat>): nat {
    if current.Some? then current.value else |bits|
  }

  /** What the next key is, and that it is present. */
  lemma NextPresent<V>(bits: seq<bool>, vals: seq<V>, s: Store<V>, from: nat)
    requires Represents(bits, vals, s) && from <= |bits|
    ensures FirstSet(bits, from).Some? ==> FirstSet(bits, from).value in s.present
    ensures from <= Bound(bits, FirstSet(bits, from)) && NoneBetween(s.present, from, Bound(bits, FirstSet(bits, from)))
  {
    var found := FirstSet(bits, from);
    assert found.Some? ==> Agrees(bits, vals, s, found.value);
    forall k | k in s.present ensures k < from || Bound(bits, found) <= k {
      assert Agrees(bits, vals, s, k);
    }
  }

  /** What `Next` has just yielded. */
  ghost predicate Yielded<V>(iter: Iterator<V>)
    reads iter, iter.bitmap
  {
    && iter.key in iter.bitmap.model.present && iter.val == iter.bitmap.model.Get(iter.key)
    && iter.current == FirstSet(iter.bitmap.bits, iter.key + 1) && iter.key < |iter.bitmap.bits|
  }

  /** The keys gone through are the present ones before the key just yielded, or all of them at the end. */
  ghost predicate GoneThrough<V>(iter: Iterator<V>, keys: seq<nat>, more: bool)
    reads iter, iter.bitmap
  {
    && iter.bitmap.Valid()
    && EnumeratesBelow(keys, iter.bitmap.model.present, if more then iter.key else |iter.bitmap.bits|)
    && (more ==> Yielded(iter))
  }

  /** Started at the beginning and run to its end, the iterator yields every present key once, in order. */
  method Enumerate<V>(bitmap: BitMap<V>) returns (keys: seq<nat>, vals: seq<V>)
    requires bitmap.Valid()
    ensures Enumerates(keys, bitmap.model.present) && |keys| == |bitmap.model.present|
    ensures |vals| == |keys| && forall n :: 0 <= n < |keys| ==> vals[n] == bitmap.model.Get(keys[n])
  {
    keys, vals := [], [];
    var iter := new Iterator(bitmap);
    NextPresent(bitmap.bits, bitmap.vals, bitmap.model, 0);
    bitmap.AllBelow();
    var more := iter.Next();
    while more
      invariant iter.bitmap == bitmap && fresh(iter) && GoneThrough(iter, keys, more)
      invariant |vals| == |keys| && forall n :: 0 <= n < |keys| ==> vals[n] == bitmap.model.Get(keys[n])
      decreases if more then |bitmap.bits| - iter.key else 0
    {
      NextPresent(bitmap.bits, bitmap.vals, bitmap.model, iter.key + 1);
      OneKeyMore(keys, bitmap.model.present, iter.key, Bound(bitmap.bits, iter.current));
      keys, vals := keys + [iter.key], vals + [iter.val];
      more := iter.Next();
    }
    AllBelowBound(keys, bitmap.model.present, |bitmap.bits|);
    EnumerationLength(keys, bitmap.model.present);
  }
}
