/** What a bitmap-backed collection is: a set of present keys, and values that outlive removals. */
module KeyedStore {

  datatype Store<V> = Store(zero: V, present: set<nat>, values: map<nat, V>) {
    function Get(k: nat): V {
      if k in values then values[k] else zero
    }

    function Insert(k: nat): Store<V> {
      this.(present := present + {k})
    }

    function InsertValue(k: nat, v: V): Store<V> {
      this.(present := present + {k}, values := values[k := v])
    }

    function Remove(k: nat): Store<V> {
      this.(present := present - {k})
    }

    function Write(k: nat, v: V): Store<V> {
      this.(values := values[k := v])
    }

    /** The finite map that the present keys make up. */
    ghost function AsMap(): map<nat, V> {
      map k | k in present :: Get(k)
    }
  }

  function Empty<V>(zero: V): Store<V> {
    Store(zero, {}, map[])
  }

  datatype Op<V> =
    | Insert(key: nat)
    | InsertValue(key: nat, val: V)
    | Remove(key: nat)
    | Write(key: nat, val: V)
    | Read(key: nat)
    | Has(key: nat)
    | Size
    | Clear

  datatype Answer<V> = NoAnswer | Value(v: V) | Flag(b: bool) | Count(n: nat)

  /** Reads and writes are of present keys. */
  predicate Allowed<V>(s: Store<V>, op: Op<V>) {
    op.Read? || op.Write? ==> op.key in s.present
  }

  ghost function After<V>(s: Store<V>, op: Op<V>): Store<V> {
    match op
    case Insert(k) => s.Insert(k)
    case InsertValue(k, v) => s.InsertValue(k, v)
    case Remove(k) => s.Remove(k)
    case Write(k, v) => s.Write(k, v)
    case Clear => Empty(s.zero)
    case _ => s
  }

  ghost function AnswerTo<V>(s: Store<V>, op: Op<V>): Answer<V> {
    match op
    case Read(k) => Value(s.Get(k))
    case Has(k) => Flag(k in s.present)
    case Size => Count(|s.present|)
    case _ => NoAnswer
  }

  ghost function Run<V>(s: Store<V>, ops: seq<Op<V>>): Store<V> {
    if ops == [] then s else After(Run(s, ops[..|ops| - 1]), ops[|ops| - 1])
  }

  ghost predicate AllAllowed<V>(s: Store<V>, ops: seq<Op<V>>) {
    forall i :: 0 <= i < |ops| ==> Allowed(Run(s, ops[..i]), ops[i])
  }

  /** What a run answers, one operation after the other. */
  ghost function Answers<V>(s: Store<V>, ops: seq<Op<V>>): seq<Answer<V>> {
    seq(|ops|, i requires 0 <= i < |ops| => AnswerTo(Run(s, ops[..i]), ops[i]))
  }

  // ---- against a finite map ----

  ghost function MapAfter<V>(m: map<nat, V>, op: Op<V>): map<nat, V> {
    match op
    case InsertValue(k, v) => m[k := v]
    case Remove(k) => m - {k}
    case Write(k, v) => m[k := v]
    case Clear => map[]
    case _ => m
  }

  ghost function MapRun<V>(ops: seq<Op<V>>): map<nat, V> {
    if ops == [] then map[] else MapAfter(MapRun(ops[..|ops| - 1]), ops[|ops| - 1])
  }

  ghost function MapAnswer<V>(m: map<nat, V>, op: Op<V>): Answer<V> {
    match op
    case Read(k) => if k in m then Value(m[k]) else NoAnswer
    case Has(k) => Flag(k in m)
    case Size => Count(|m|)
    case _ => NoAnswer
  }

  /** One operation other than a plain insert does to the store what it does to its map. */
  lemma StepIsMapStep<V>(s: Store<V>, op: Op<V>)
    requires Allowed(s, op) && !op.Insert?
    ensures After(s, op).AsMap() == MapAfter(s.AsMap(), op)
    ensures AnswerTo(s, op) == MapAnswer(s.AsMap(), op)
  {
    assert s.AsMap().Keys == s.present;
  }

  lemma RunSplit<V>(s: Store<V>, ops: seq<Op<V>>, n: nat)
    requires AllAllowed(s, ops) && n <= |ops|
    ensures AllAllowed(s, ops[..n])
  {
    assert forall i :: 0 <= i < n ==> ops[..n][..i] == ops[..i];
  }

  lemma {:induction false} RunMap<V>(zero: V, ops: seq<Op<V>>)
    requires AllAllowed(Empty(zero), ops) && forall i :: 0 <= i < |ops| ==> !ops[i].Insert?
    ensures Run(Empty(zero), ops).AsMap() == MapRun(ops)
  {
    if ops != [] {
      var last := |ops| - 1;
      RunSplit(Empty(zero), ops, last);
      RunMap(zero, ops[..last]);
      StepIsMapStep(Run(Empty(zero), ops[..last]), ops[last]);
    }
  }

  /**
    When every insert gives a value and only present keys are read and written, a run
    cannot be told from the same run on a finite map.
   */
  lemma RunIsMapRun<V>(zero: V, ops: seq<Op<V>>)
    requires AllAllowed(Empty(zero), ops) && forall i :: 0 <= i < |ops| ==> !ops[i].Insert?
    ensures Run(Empty(zero), ops).AsMap() == MapRun(ops)
    ensures forall i :: 0 <= i < |ops| ==> Answers(Empty(zero), ops)[i] == MapAnswer(MapRun(ops[..i]), ops[i])
  {
    RunMap(zero, ops);
    forall i | 0 <= i < |ops|
      ensures AnswerTo(Run(Empty(zero), ops[..i]), ops[i]) == MapAnswer(MapRun(ops[..i]), ops[i])
    {
      RunSplit(Empty(zero), ops, i);
      RunMap(zero, ops[..i]);
      StepIsMapStep(Run(Empty(zero), ops[..i]), ops[i]);
    }
  }

  // ---- against what happened to each key ----

  /** The last operation on the key, if any since the last clear, was an insert. */
  ghost predicate LastIn<V>(ops: seq<Op<V>>, key: nat) {
    ops != [] &&
      match ops[|ops| - 1]
      case Insert(k) => k == key || LastIn(ops[..|ops| - 1], key)
      case InsertValue(k, _) => k == key || LastIn(ops[..|ops| - 1], key)
      case Remove(k) => k != key && LastIn(ops[..|ops| - 1], key)
      case Clear => false
      case _ => LastIn(ops[..|ops| - 1], key)
  }

  /** The value last given or written to the key since the last clear; a plain insert and a remove leave it. */
  ghost function LastValue<V>(zero: V, ops: seq<Op<V>>, key: nat): V {
    if ops == [] then zero
    else
      match ops[|ops| - 1]
      case InsertValue(k, v) => if k == key then v else LastValue(zero, ops[..|ops| - 1], key)
      case Write(k, v) => if k == key then v else LastValue(zero, ops[..|ops| - 1], key)
      case Clear => zero
      case _ => LastValue(zero, ops[..|ops| - 1], key)
  }

  /** What each operation does, written on the present keys and the values. */
  lemma EachOperation<V>(s: Store<V>, k: nat, v: V, j: nat)
    ensures s.Insert(k).present == s.present + {k} && s.Insert(k).Get(j) == s.Get(j)
    ensures s.InsertValue(k, v).present == s.present + {k}
    ensures s.InsertValue(k, v).Get(j) == if j == k then v else s.Get(j)
    ensures s.Remove(k).present == s.present - {k} && s.Remove(k).Get(j) == s.Get(j)
    ensures s.Write(k, v).present == s.present && s.Write(k, v).Get(j) == if j == k then v else s.Get(j)
    ensures Empty(v).present == {} && Empty(v).Get(j) == v
  {
  }

  lemma {:induction false} RunZero<V>(s: Store<V>, ops: seq<Op<V>>)
    ensures Run(s, ops).zero == s.zero
  {
    if ops != [] {
      RunZero(s, ops[..|ops| - 1]);
    }
  }

  /** After any run, plain inserts and all, the key is present if it was last put in, and has the value last given. */
  lemma {:induction false} RunIsHistory<V>(zero: V, ops: seq<Op<V>>, key: nat)
    ensures key in Run(Empty(zero), ops).present <==> LastIn(ops, key)
    ensures Run(Empty(zero), ops).Get(key) == LastValue(zero, ops, key)
  {
    if ops != [] {
      var before := ops[..|ops| - 1];
      RunIsHistory(zero, before, key);
      RunZero(Empty(zero), before);
    }
  }

  ghost predicate AreLastIn<V>(ops: seq<Op<V>>, keys: set<nat>) {
    forall k: nat :: k in keys <==> LastIn(ops, k)
  }

  /** And so has, read and size are answered. */
  lemma AnswersAreHistory<V>(zero: V, ops: seq<Op<V>>, i: nat)
    requires i < |ops|
    ensures ops[i].Has? ==> Answers(Empty(zero), ops)[i] == Flag(LastIn(ops[..i], ops[i].key))
    ensures ops[i].Read? ==> Answers(Empty(zero), ops)[i] == Value(LastValue(zero, ops[..i], ops[i].key))
    ensures ops[i].Size? ==>
              exists keys :: AreLastIn(ops[..i], keys) && Answers(Empty(zero), ops)[i] == Count(|keys|)
    ensures !ops[i].Has? && !ops[i].Read? && !ops[i].Size? ==> Answers(Empty(zero), ops)[i] == NoAnswer
  {
    var s := Run(Empty(zero), ops[..i]);
    if ops[i].Has? || ops[i].Read? {
      RunIsHistory(zero, ops[..i], ops[i].key);
    }
    forall k: nat ensures k in s.present <==> LastIn(ops[..i], k) {
      RunIsHistory(zero, ops[..i], k);
    }
    assert AreLastIn(ops[..i], s.present);
  }

  // ---- keys in ascending order ----

  ghost predicate Ascending(keys: seq<nat>) {
    forall i, j :: 0 <= i < j < |keys| ==> keys[i] < keys[j]
  }

  /** The present keys, from the least to the greatest. */
  ghost predicate Enumerates(keys: seq<nat>, present: set<nat>) {
    Ascending(keys) && forall k :: k in keys <==> k in present
  }

  /** No present key lies at or above `from` and below `to`. */
  ghost predicate NoneBetween(present: set<nat>, from: nat, to: nat) {
    forall k :: k in present ==> k < from || to <= k
  }

  /** The present keys below a bound, from the least to the greatest. */
  ghost predicate EnumeratesBelow(keys: seq<nat>, present: set<nat>, bound: nat) {
    Ascending(keys) && forall k :: k in keys <==> k in present && k < bound
  }

  /** The key at the bound, and no other before the next bound. */
  lemma OneKeyMore(keys: seq<nat>, present: set<nat>, key: nat, next: nat)
    requires EnumeratesBelow(keys, present, key) && key in present && key < next && NoneBetween(present, key + 1, next)
    ensures EnumeratesBelow(keys + [key], present, next)
  {
    assert forall i :: 0 <= i < |keys| ==> keys[i] in keys;
  }

  lemma AllBelowBound(keys: seq<nat>, present: set<nat>, bound: nat)
    requires EnumeratesBelow(keys, present, bound) && forall k :: k in present ==> k < bound
    ensures Enumerates(keys, present)
  {
  }

  lemma {:induction false} EnumerationLength(keys: seq<nat>, present: set<nat>)
    requires Enumerates(keys, present)
    ensures |keys| == |present|
  {
    if keys == [] {
      assert present == {};
    } else {
      var last := |keys| - 1;
      assert keys == keys[..last] + [keys[last]];
      EnumerationLength(keys[..last], present - {keys[last]});
    }
  }

  lemma LastIsGreatest(keys: seq<nat>, present: set<nat>)
    requires Enumerates(keys, present) && keys != []
    ensures var n := |keys| - 1;
      keys[n] in present && (forall k :: k in present ==> k <= keys[n]) && Enumerates(keys[..n], present - {keys[n]})
  {
    var n := |keys| - 1;
    assert keys == keys[..n] + [keys[n]];
  }

  lemma {:induction false} EnumerationUnique(a: seq<nat>, b: seq<nat>, present: set<nat>)
    requires Enumerates(a, present) && Enumerates(b, present)
    ensures a == b
  {
    EnumerationLength(a, present);
    EnumerationLength(b, present);
    if a != [] {
      var n := |a| - 1;
      LastIsGreatest(a, present);
      LastIsGreatest(b, present);
      EnumerationUnique(a[..n], b[..n], present - {a[n]});
      assert a == a[..n] + [a[n]] && b == b[..n] + [b[n]];
    }
  }

  // ---- counting bits ----

  /** How many members lie below `n`. */
  ghost function Tally(s: set<nat>, n: nat): nat {
    if n == 0 then 0 else Tally(s, n - 1) + if n - 1 in s then 1 else 0
  }

  ghost function Below(s: set<nat>, n: nat): set<nat> {
    set k | k in s && k < n
  }

  lemma {:induction false} TallyBelow(s: set<nat>, n: nat)
    ensures Tally(s, n) == |Below(s, n)|
  {
    if n == 0 {
      assert Below(s, 0) == {};
    } else {
      TallyBelow(s, n - 1);
      assert Below(s, n) == Below(s, n - 1) + if n - 1 in s then {n - 1} else {};
    }
  }

  lemma TallyIsSize(s: set<nat>, n: nat)
    requires forall k :: k in s ==> k < n
    ensures Tally(s, n) == |s|
  {
    TallyBelow(s, n);
    assert Below(s, n) == s;
  }

  /** The number of set bits, which `std::bitset::count` and `boost::dynamic_bitset::count` return. */
  function Ones(bits: seq<bool>): nat {
    if bits == [] then 0 else Ones(bits[..|bits| - 1]) + if bits[|bits| - 1] then 1 else 0
  }

  /** A stretch of bits adds its set bits to the tally. */
  lemma {:induction false} TallyStretch(s: set<nat>, from: nat, bits: seq<bool>)
    requires forall j: nat :: j < |bits| ==> (bits[j] <==> from + j in s)
    ensures Tally(s, from + |bits|) == Tally(s, from) + Ones(bits)
  {
    if bits != [] {
      TallyStretch(s, from, bits[..|bits| - 1]);
    }
  }
}
