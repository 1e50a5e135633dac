/** The linker's speculative isomorphism check on cyclic types. */
module TypeMap {
  import opened Wrappers
  import opened Paths

  datatype TypeId = TypeId(address: nat)

  datatype TypeInfo =
    | Integer(width: nat)
    | Pointer(pointee: TypeId, addressSpace: nat)
    | Function(result: TypeId, params: seq<TypeId>, varArg: bool)
    | Struct(elements: seq<TypeId>, isOpaque: bool, literal: bool, packed: bool)
    | Array(element: TypeId, numElements: nat)
    | Vector(element: TypeId, scalable: bool, minElements: nat)
    | Other(tag: nat, contained: seq<TypeId>)

  type Types = map<TypeId, TypeInfo>

  type Mapping = map<TypeId, TypeId>

  function Contained(t: TypeInfo): seq<TypeId> {
    match t
    case Integer(_) => []
    case Pointer(pointee, _) => [pointee]
    case Function(result, params, _) => [result] + params
    case Struct(elements, isOpaque, _, _) => if isOpaque then [] else elements
    case Array(element, _) => [element]
    case Vector(element, _, _) => [element]
    case Other(_, contained) => contained
  }

  predicate SameKind(d: TypeInfo, s: TypeInfo) {
    match d
    case Integer(_) => s.Integer?
    case Pointer(_, _) => s.Pointer?
    case Function(_, _, _) => s.Function?
    case Struct(_, _, _, _) => s.Struct?
    case Array(_, _) => s.Array?
    case Vector(_, scalable, _) => s.Vector? && s.scalable == scalable
    case Other(tag, _) => s.Other? && s.tag == tag
  }

  /** The properties of a type other than what it contains; two integer types never agree. */
  predicate SameProperties(d: TypeInfo, s: TypeInfo)
    requires SameKind(d, s)
  {
    match d
    case Integer(_) => false
    case Pointer(_, space) => s.addressSpace == space
    case Function(_, _, varArg) => s.varArg == varArg
    case Struct(_, _, literal, packed) => s.literal == literal && s.packed == packed
    case Array(_, n) => s.numElements == n
    case Vector(_, _, n) => s.minElements == n
    case Other(_, _) => true
  }

  predicate OpaqueStruct(t: TypeInfo) {
    t.Struct? && t.isOpaque
  }

  ghost predicate KnownContents(types: Types, t: TypeId)
    requires t in types
  {
    forall i :: 0 <= i < |Contained(types[t])| ==> Contained(types[t])[i] in types
  }

  /** Every type that is contained in a type is a type. */
  ghost predicate WellFormed(types: Types) {
    forall t {:trigger KnownContents(types, t)} :: t in types ==> KnownContents(types, t)
  }

  ghost function Contains(types: Types): Relation<TypeId> {
    set t, i | t in types && 0 <= i < |Contained(types[t])| :: (t, Contained(types[t])[i])
  }

  // ---- what a mapping has to satisfy ----

  ghost predicate Typed(types: Types, m: Mapping) {
    m.Keys <= types.Keys && forall s :: s in m ==> m[s] in types
  }

  ghost predicate ContentsMapped(types: Types, m: Mapping, s: TypeId, d: TypeId)
    requires s in types && d in types
  {
    && |Contained(types[s])| == |Contained(types[d])|
    && forall i :: 0 <= i < |Contained(types[s])| ==>
         Contained(types[s])[i] in m && m[Contained(types[s])[i]] == Contained(types[d])[i]
  }

  /** The entry of `s` is the identity, settled by an opaque struct, or maps contents to contents. */
  ghost predicate Settled(types: Types, m: Mapping, s: TypeId)
    requires Typed(types, m)
  {
    s in m && m[s] != s ==>
      var d := m[s];
      && SameKind(types[d], types[s])
      && (OpaqueStruct(types[s]) || OpaqueStruct(types[d])
          || (SameProperties(types[d], types[s]) && ContentsMapped(types, m, s, d)))
  }

  /** `s` is a struct with a body whose entry is a struct without one. */
  predicate GivesBody(types: Types, m: Mapping, s: TypeId) {
    && s in m && s in types && m[s] in types && m[s] != s
    && types[s].Struct? && !types[s].isOpaque && OpaqueStruct(types[m[s]])
  }

  ghost predicate OneBody(types: Types, m: Mapping, s: TypeId, t: TypeId) {
    GivesBody(types, m, s) && GivesBody(types, m, t) && m[s] == m[t] ==> s == t
  }

  ghost predicate SettledExcept(types: Types, m: Mapping, open: set<TypeId>)
    requires Typed(types, m)
  {
    forall s {:trigger Settled(types, m, s)} :: s !in open ==> Settled(types, m, s)
  }

  ghost predicate Unshared(types: Types, m: Mapping) {
    forall s, t {:trigger OneBody(types, m, s, t)} :: OneBody(types, m, s, t)
  }

  /** A mapping between isomorphic type graphs. */
  ghost predicate Consistent(types: Types, m: Mapping) {
    Typed(types, m) && SettledExcept(types, m, {}) && Unshared(types, m)
  }

  ghost predicate Extends(m: Mapping, more: Mapping) {
    m.Keys <= more.Keys && forall s :: s in m ==> more[s] == m[s]
  }

  /** `r` is a consistent mapping that keeps `m` and takes `src` to `dst`. */
  ghost predicate Admits(types: Types, m: Mapping, dst: TypeId, src: TypeId, r: Mapping) {
    Consistent(types, r) && Extends(m, r) && src in r && r[src] == dst
  }

  // ---- the same, kind by kind ----

  /** The types of one list go to those of another, one by one. */
  ghost predicate GoTo(m: Mapping, from: seq<TypeId>, to: seq<TypeId>) {
    |from| == |to| && forall i :: 0 <= i < |from| ==> from[i] in m && m[from[i]] == to[i]
  }

  /** Two types that are built alike, of parts that are mapped to each other. */
  ghost predicate LinesUp(m: Mapping, d: TypeInfo, s: TypeInfo) {
    || (d.Pointer? && s.Pointer? && d.addressSpace == s.addressSpace && GoTo(m, [s.pointee], [d.pointee]))
    || (d.Function? && s.Function? && d.varArg == s.varArg
        && GoTo(m, [s.result], [d.result]) && GoTo(m, s.params, d.params))
    || (d.Struct? && s.Struct? && d.literal == s.literal && d.packed == s.packed && GoTo(m, s.elements, d.elements))
    || (d.Array? && s.Array? && d.numElements == s.numElements && GoTo(m, [s.element], [d.element]))
    || (d.Vector? && s.Vector? && d.scalable == s.scalable && d.minElements == s.minElements
        && GoTo(m, [s.element], [d.element]))
    || (d.Other? && s.Other? && d.tag == s.tag && GoTo(m, s.contained, d.contained))
  }

  lemma ContentsIff(types: Types, m: Mapping, s: TypeId, d: TypeId)
    requires s in types && d in types
    ensures ContentsMapped(types, m, s, d) <==> GoTo(m, Contained(types[s]), Contained(types[d]))
  {
  }

  /**
    An entry that is no identity lines up, or goes between structs of which one is opaque; no
    integer goes to another.
   */
  lemma SettledIff(types: Types, m: Mapping, s: TypeId)
    requires Typed(types, m) && s in m && m[s] != s
    ensures Settled(types, m, s) <==>
              if types[s].Struct? && types[m[s]].Struct? && (types[s].isOpaque || types[m[s]].isOpaque) then true
              else LinesUp(m, types[m[s]], types[s])
  {
    var d := m[s];
    ContentsIff(types, m, s, d);
    if types[s].Function? && types[d].Function? {
      FunctionContents(m, types[s], types[d]);
    }
  }

  /** Of a function the result comes first, then the parameters. */
  lemma FunctionContents(m: Mapping, s: TypeInfo, d: TypeInfo)
    requires s.Function? && d.Function?
    ensures GoTo(m, Contained(s), Contained(d)) <==> GoTo(m, [s.result], [d.result]) && GoTo(m, s.params, d.params)
  {
    var xs, ys := Contained(s), Contained(d);
    assert xs[0] == s.result && ys[0] == d.result;
    assert forall i :: 0 <= i < |s.params| ==> xs[i + 1] == s.params[i];
    assert forall i :: 0 <= i < |d.params| ==> ys[i + 1] == d.params[i];
    if GoTo(m, xs, ys) {
      forall i | 0 <= i < |s.params| ensures s.params[i] in m && m[s.params[i]] == d.params[i] {
        assert xs[i + 1] in m && m[xs[i + 1]] == ys[i + 1];
      }
    }
    if GoTo(m, [s.result], [d.result]) && GoTo(m, s.params, d.params) {
      assert [s.result][0] in m && m[[s.result][0]] == [d.result][0];
      forall i | 0 <= i < |xs| ensures xs[i] in m && m[xs[i]] == ys[i] {
        assert i > 0 ==> xs[i] == s.params[i - 1] && ys[i] == d.params[i - 1];
      }
    }
  }

  /** An opaque struct is given at most one body. */
  ghost predicate GivenOnce(types: Types, m: Mapping, s: TypeId, t: TypeId) {
    (&& s in m && t in m && m[s] == m[t] && m[s] != s && m[t] != t
     && s in types && t in types && m[s] in types && types[m[s]].Struct? && types[m[s]].isOpaque
     && types[s].Struct? && types[t].Struct? && !types[s].isOpaque && !types[t].isOpaque) ==> s == t
  }

  ghost predicate EntryLinesUp(types: Types, m: Mapping, s: TypeId) {
    s in m && m[s] != s && s in types && m[s] in types ==>
      || (types[s].Struct? && types[m[s]].Struct? && (types[s].isOpaque || types[m[s]].isOpaque))
      || LinesUp(m, types[m[s]], types[s])
  }

  /** What a consistent mapping is, kind by kind. */
  lemma ConsistentIff(types: Types, m: Mapping)
    ensures Consistent(types, m) <==>
              && (forall s :: s in m ==> s in types && m[s] in types)
              && (forall s {:trigger EntryLinesUp(types, m, s)} :: EntryLinesUp(types, m, s))
              && forall s, t {:trigger GivenOnce(types, m, s, t)} :: GivenOnce(types, m, s, t)
  {
    assert Typed(types, m) <==> forall s :: s in m ==> s in types && m[s] in types;
    if Typed(types, m) {
      forall s {:trigger Settled(types, m, s)} {:trigger EntryLinesUp(types, m, s)}
        ensures Settled(types, m, s) <==> EntryLinesUp(types, m, s)
      {
        if s in m && m[s] != s {
          SettledIff(types, m, s);
        }
      }
      forall s, t {:trigger OneBody(types, m, s, t)} {:trigger GivenOnce(types, m, s, t)}
        ensures OneBody(types, m, s, t) <==> GivenOnce(types, m, s, t)
      {
      }
    }
  }

  // ---- the state and its bookkeeping ----

  datatype Snapshot = Snapshot(
    mapped: Mapping,
    speculative: seq<TypeId>,
    speculativeDstOpaque: seq<TypeId>,
    srcDefinitions: seq<TypeId>,
    dstResolved: set<TypeId>)

  ghost predicate ListsBodies(types: Types, m: Mapping, definitions: seq<TypeId>) {
    forall s :: s in definitions <==> GivesBody(types, m, s)
  }

  ghost predicate ListsResolved(types: Types, m: Mapping, resolved: set<TypeId>) {
    forall d :: d in resolved <==> Filled(types, m, d)
  }

  /** Some struct gives `d` a body. */
  ghost predicate Filled(types: Types, m: Mapping, d: TypeId) {
    exists s :: GivesBody(types, m, s) && m[s] == d
  }

  /** The two lists of opaque types say what the mapping says. */
  ghost predicate Recorded(types: Types, now: Snapshot) {
    && Typed(types, now.mapped) && Unshared(types, now.mapped)
    && ListsBodies(types, now.mapped, now.srcDefinitions)
    && ListsResolved(types, now.mapped, now.dstResolved)
  }

  /** What was added since `base` is in the speculative lists, except for identities. */
  ghost predicate Undoable(base: Snapshot, now: Snapshot) {
    && Extends(base.mapped, now.mapped)
    && (forall s :: s in now.mapped ==> s in base.mapped || now.mapped[s] == s || s in now.speculative)
    && (forall s :: s in now.speculative ==> s !in base.mapped && s in now.mapped && now.mapped[s] != s)
    && |base.srcDefinitions| + |now.speculativeDstOpaque| == |now.srcDefinitions|
    && base.srcDefinitions == now.srcDefinitions[..|base.srcDefinitions|]
    && (forall d :: d in now.speculativeDstOpaque ==> d !in base.dstResolved)
    && now.dstResolved == base.dstResolved + Elements(now.speculativeDstOpaque)
  }

  ghost function Elements<T>(s: seq<T>): set<T> {
    set x | x in s
  }

  ghost predicate Books(types: Types, base: Snapshot, now: Snapshot) {
    Recorded(types, now) && Undoable(base, now)
  }

  /** An entry that gives no struct a body changes nothing that the two lists record. */
  lemma QuietEntry(types: Types, m: Mapping, dst: TypeId, src: TypeId)
    requires Typed(types, m) && src in types && dst in types && src !in m && !GivesBody(types, m[src := dst], src)
    ensures forall s :: GivesBody(types, m[src := dst], s) <==> GivesBody(types, m, s)
    ensures Unshared(types, m) ==> Unshared(types, m[src := dst])
    ensures forall d :: Filled(types, m[src := dst], d) <==> Filled(types, m, d)
  {
    var m' := m[src := dst];
    forall s ensures GivesBody(types, m', s) <==> GivesBody(types, m, s) {
    }
    if Unshared(types, m) {
      forall s, t {:trigger OneBody(types, m', s, t)} ensures OneBody(types, m', s, t) {
        assert OneBody(types, m, s, t);
      }
    }
    forall d ensures Filled(types, m', d) <==> Filled(types, m, d) {
      if Filled(types, m, d) {
        var s :| GivesBody(types, m, s) && m[s] == d;
        assert GivesBody(types, m', s) && m'[s] == d;
      }
      if Filled(types, m', d) {
        var s :| GivesBody(types, m', s) && m'[s] == d;
        assert GivesBody(types, m, s) && m[s] == d;
      }
    }
  }

  /** The entry is the identity: nothing to undo. */
  lemma IdentityStep(types: Types, base: Snapshot, now: Snapshot, t: TypeId)
    requires Books(types, base, now) && t in types && t !in now.mapped
    ensures Books(types, base, now.(mapped := now.mapped[t := t]))
  {
    QuietEntry(types, now.mapped, t, t);
  }

  /** The entry gives no struct a body: only the speculative types grow. */
  lemma SpeculateStep(types: Types, base: Snapshot, now: Snapshot, dst: TypeId, src: TypeId)
    requires Books(types, base, now) && src in types && dst in types && src !in now.mapped && src != dst
    requires !GivesBody(types, now.mapped[src := dst], src)
    ensures Books(types, base, now.(mapped := now.mapped[src := dst], speculative := now.speculative + [src]))
  {
    QuietEntry(types, now.mapped, dst, src);
  }

  /** The entry gives an opaque destination its only body. */
  lemma ResolveStep(types: Types, base: Snapshot, now: Snapshot, dst: TypeId, src: TypeId)
    requires Books(types, base, now) && src in types && dst in types && src !in now.mapped && src != dst
    requires GivesBody(types, now.mapped[src := dst], src) && dst !in now.dstResolved
    ensures Books(types, base, Snapshot(
      now.mapped[src := dst], now.speculative + [src], now.speculativeDstOpaque + [dst],
      now.srcDefinitions + [src], now.dstResolved + {dst}))
  {
    var m, m' := now.mapped, now.mapped[src := dst];
    assert forall s :: GivesBody(types, m', s) <==> GivesBody(types, m, s) || s == src;
    forall s, u {:trigger OneBody(types, m', s, u)} ensures OneBody(types, m', s, u) {
      assert OneBody(types, m, s, u);
    }
    forall d ensures Filled(types, m', d) <==> Filled(types, m, d) || d == dst {
      if Filled(types, m, d) {
        var s :| GivesBody(types, m, s) && m[s] == d;
        assert GivesBody(types, m', s) && m'[s] == d;
      }
      if Filled(types, m', d) {
        var s :| GivesBody(types, m', s) && m'[s] == d;
        assert s != src ==> GivesBody(types, m, s) && m[s] == d;
      }
      assert GivesBody(types, m', src) && m'[src] == dst;
    }
    assert Elements(now.speculativeDstOpaque + [dst]) == Elements(now.speculativeDstOpaque) + {dst};
  }

  // ---- growing a mapping ----

  /** Entries stay settled when the mapping grows. */
  lemma SettledGrows(types: Types, m: Mapping, more: Mapping, open: set<TypeId>)
    requires Typed(types, m) && Typed(types, more) && Extends(m, more)
    requires SettledExcept(types, m, open)
    requires forall s :: s in more && s !in m && s !in open ==> Settled(types, more, s)
    ensures SettledExcept(types, more, open)
  {
    forall s {:trigger Settled(types, more, s)} | s !in open ensures Settled(types, more, s) {
      assert Settled(types, m, s);
    }
  }

  /** The two ends of the entries added for a pair lie below the pair. */
  ghost predicate Below(types: Types, dst: TypeId, src: TypeId, s: TypeId, d: TypeId) {
    Reach(Contains(types), src, s) && Reach(Contains(types), dst, d)
  }

  ghost predicate AddedBelow(types: Types, before: Mapping, after: Mapping, dst: TypeId, src: TypeId) {
    forall s :: s in after && s !in before ==> Below(types, dst, src, s, after[s])
  }

  lemma BelowItself(types: Types, dst: TypeId, src: TypeId)
    ensures Below(types, dst, src, src, dst)
  {
    ReachRefl(Contains(types), src);
    ReachRefl(Contains(types), dst);
  }

  lemma AddedBelowChild(types: Types, before: Mapping, middle: Mapping, after: Mapping, dst: TypeId, src: TypeId,
          i: nat)
    requires dst in types && src in types && i < |Contained(types[src])| && i < |Contained(types[dst])|
    requires Extends(before, middle) && Extends(middle, after)
    requires AddedBelow(types, before, middle, dst, src)
    requires AddedBelow(types, middle, after, Contained(types[dst])[i], Contained(types[src])[i])
    ensures AddedBelow(types, before, after, dst, src)
  {
    var c := Contains(types);
    var d, s := Contained(types[dst])[i], Contained(types[src])[i];
    assert (dst, d) in c && (src, s) in c;
    forall t | t in after && t !in middle ensures Below(types, dst, src, t, after[t]) {
      assert Below(types, d, s, t, after[t]);
      ReachCons(c, dst, d, after[t]);
      ReachCons(c, src, s, t);
    }
    assert forall t :: t in middle && t !in before ==> Below(types, dst, src, t, middle[t]);
  }

  /** What a consistent mapping that relates two types says about the types they contain. */
  lemma AdmitsContents(types: Types, m: Mapping, now: Mapping, dst: TypeId, src: TypeId, r: Mapping, i: nat)
    requires Admits(types, m, dst, src, r) && Extends(now, r) && src in types && dst in types && src != dst
    requires !OpaqueStruct(types[src]) && !OpaqueStruct(types[dst])
    requires i < |Contained(types[src])| && i < |Contained(types[dst])|
    ensures Admits(types, now, Contained(types[dst])[i], Contained(types[src])[i], r)
  {
    assert Settled(types, r, src);
  }

  /** The answer is yes if some consistent mapping agrees, and `after` is then within all of those. */
  ghost predicate Least(types: Types, before: Mapping, dst: TypeId, src: TypeId, same: bool, after: Mapping) {
    forall r {:trigger Admits(types, before, dst, src, r)} :: Admits(types, before, dst, src, r) ==>
        same && Extends(after, r)
  }

  /** What one comparison leaves behind. */
  ghost predicate Outcome(types: Types, base: Snapshot, open: set<TypeId>, before: Mapping, dst: TypeId, src: TypeId,
                          same: bool, now: Snapshot) {
    && Books(types, base, now) && Extends(before, now.mapped)
    && AddedBelow(types, before, now.mapped, dst, src)
    && Least(types, before, dst, src, same, now.mapped)
    && (same ==> SettledExcept(types, now.mapped, open) && src in now.mapped && now.mapped[src] == dst)
  }

  /** What a consistent mapping that relates two types says about the two. */
  lemma RelatedTypes(types: Types, m: Mapping, dst: TypeId, src: TypeId, r: Mapping)
    requires Admits(types, m, dst, src, r) && src in types && dst in types
    ensures SameKind(types[dst], types[src])
    ensures src in m ==> m[src] == dst
    ensures src != dst && !OpaqueStruct(types[src]) && !OpaqueStruct(types[dst]) ==>
              SameProperties(types[dst], types[src]) && |Contained(types[src])| == |Contained(types[dst])|
  {
    assert Settled(types, r, src);
  }

  /** Types that differ in kind, in their entry or in shape are related by no consistent mapping. */
  lemma Refuse(types: Types, base: Snapshot, open: set<TypeId>, dst: TypeId, src: TypeId, now: Snapshot)
    requires Books(types, base, now) && src in types && dst in types
    requires !SameKind(types[dst], types[src]) || (src in now.mapped && now.mapped[src] != dst)
             || (src != dst && !OpaqueStruct(types[src]) && !OpaqueStruct(types[dst])
                 && (|Contained(types[src])| != |Contained(types[dst])| || !SameProperties(types[dst], types[src])))
    ensures Outcome(types, base, open, now.mapped, dst, src, false, now)
  {
    forall r {:trigger Admits(types, now.mapped, dst, src, r)} | Admits(types, now.mapped, dst, src, r) ensures false {
      RelatedTypes(types, now.mapped, dst, src, r);
    }
  }

  /** No consistent mapping gives an opaque struct a second body. */
  lemma RefuseSecondBody(types: Types, base: Snapshot, open: set<TypeId>, dst: TypeId, src: TypeId, now: Snapshot)
    requires Books(types, base, now) && src in types && dst in types && src != dst && src !in now.mapped
    requires types[src].Struct? && !types[src].isOpaque && OpaqueStruct(types[dst]) && dst in now.dstResolved
    ensures Outcome(types, base, open, now.mapped, dst, src, false, now)
  {
    assert Filled(types, now.mapped, dst);
    var s :| GivesBody(types, now.mapped, s) && now.mapped[s] == dst;
    assert forall r {:trigger Admits(types, now.mapped, dst, src, r)} ::
        Admits(types, now.mapped, dst, src, r) ==> !OneBody(types, r, s, src);
  }

  /** A new entry for the pair itself, which is settled at once. */
  lemma Accept(types: Types, base: Snapshot, open: set<TypeId>, before: Mapping, dst: TypeId, src: TypeId,
          now: Snapshot)
    requires Books(types, base, now) && src in types && dst in types && src !in before &&
        now.mapped == before[src := dst]
    requires Typed(types, before) && SettledExcept(types, before, open) && SameKind(types[dst], types[src])
    requires src == dst || OpaqueStruct(types[src]) || OpaqueStruct(types[dst])
    ensures Outcome(types, base, open, before, dst, src, true, now)
  {
    BelowItself(types, dst, src);
    SettledGrows(types, before, now.mapped, open);
  }

  /** An entry that gives an opaque destination its body. */
  lemma AcceptBody(types: Types, base: Snapshot, open: set<TypeId>, dst: TypeId, src: TypeId, now: Snapshot)
    requires Books(types, base, now) && src in types && dst in types && src !in now.mapped && src != dst
    requires GivesBody(types, now.mapped[src := dst], src) && dst !in now.dstResolved
    requires Typed(types, now.mapped) && SettledExcept(types, now.mapped, open)
    requires SameKind(types[dst], types[src]) && OpaqueStruct(types[dst])
    ensures Outcome(types, base, open, now.mapped, dst, src, true, Snapshot(
      now.mapped[src := dst], now.speculative + [src], now.speculativeDstOpaque + [dst],
      now.srcDefinitions + [src], now.dstResolved + {dst}))
  {
    ResolveStep(types, base, now, dst, src);
    Accept(types, base, open, now.mapped, dst, src, Snapshot(
      now.mapped[src := dst], now.speculative + [src], now.speculativeDstOpaque + [dst],
      now.srcDefinitions + [src], now.dstResolved + {dst}));
  }

  /** An entry for a pair whose contents have yet to be compared. */
  lemma Suppose(types: Types, base: Snapshot, open: set<TypeId>, dst: TypeId, src: TypeId, now: Snapshot)
    requires Books(types, base, now) && src in types && dst in types && src !in now.mapped && src != dst
    requires SettledExcept(types, now.mapped, open) && !GivesBody(types, now.mapped[src := dst], src)
    requires |Contained(types[src])| == |Contained(types[dst])|
    ensures InProgress(types, base, open + {src}, now.mapped, dst, src, 0,
      now.(mapped := now.mapped[src := dst], speculative := now.speculative + [src]))
  {
    BelowItself(types, dst, src);
    SpeculateStep(types, base, now, dst, src);
    SettledGrows(types, now.mapped, now.mapped[src := dst], open + {src});
  }

  /** The pair has an entry; some of what it contains has been compared. */
  ghost predicate InProgress(types: Types, base: Snapshot, open: set<TypeId>, before: Mapping, dst: TypeId, src: TypeId,
                             i: nat, now: Snapshot)
    requires src in types && dst in types
  {
    && Books(types, base, now) && SettledExcept(types, now.mapped, open)
    && Extends(before, now.mapped) && src in now.mapped && now.mapped[src] == dst
    && AddedBelow(types, before, now.mapped, dst, src)
    && Least(types, before, dst, src, true, now.mapped)
    && MappedUpTo(types, now.mapped, src, dst, i)
  }

  /** The first `i` types contained in `s` have been mapped to those in `d`. */
  ghost predicate MappedUpTo(types: Types, m: Mapping, s: TypeId, d: TypeId, i: nat)
    requires s in types && d in types
  {
    && i <= |Contained(types[s])| == |Contained(types[d])|
    && forall k :: 0 <= k < i ==> Contained(types[s])[k] in m && m[Contained(types[s])[k]] == Contained(types[d])[k]
  }

  /** The comparison of the `i`-th contained types settles the pair, or takes it a step further. */
  lemma CompareNext(types: Types, base: Snapshot, open: set<TypeId>, before: Mapping, dst: TypeId, src: TypeId,
                    middle: Snapshot, i: nat, same: bool, now: Snapshot)
    requires src in types && dst in types && src != dst && !OpaqueStruct(types[src]) && !OpaqueStruct(types[dst])
    requires i < |Contained(types[src])|
    requires InProgress(types, base, open, before, dst, src, i, middle)
    requires Outcome(types, base, open, middle.mapped, Contained(types[dst])[i], Contained(types[src])[i], same, now)
    ensures same ==> InProgress(types, base, open, before, dst, src, i + 1, now)
    ensures !same ==> forall any :: Outcome(types, base, any, before, dst, src, false, now)
  {
    AddedBelowChild(types, before, middle.mapped, now.mapped, dst, src, i);
    forall r {:trigger Admits(types, before, dst, src, r)} | Admits(types, before, dst, src, r)
      ensures same && Extends(now.mapped, r)
    {
      AdmitsContents(types, before, middle.mapped, dst, src, r, i);
    }
  }

  /** All contents agree. */
  lemma Conclude(types: Types, base: Snapshot, open: set<TypeId>, before: Mapping, dst: TypeId, src: TypeId,
          now: Snapshot)
    requires src in types && dst in types && SameKind(types[dst], types[src]) && SameProperties(types[dst], types[src])
    requires InProgress(types, base, open + {src}, before, dst, src, |Contained(types[src])|, now)
    ensures Outcome(types, base, open, before, dst, src, true, now)
  {
    assert Settled(types, now.mapped, src);
  }

  /** A larger mapping leaves fewer types to map. */
  lemma FewerLeft(types: Types, before: Mapping, now: Mapping, src: TypeId)
    requires src in types && src !in before && src in now && Extends(before, now)
    ensures |types.Keys - now.Keys| < |types.Keys - before.Keys|
  {
    FewerMembers(types.Keys - now.Keys, types.Keys - before.Keys, src);
  }

  lemma FewerMembers(left: set<TypeId>, was: set<TypeId>, t: TypeId)
    requires left <= was && t in was && t !in left
    ensures |left| < |was|
  {
    assert was == left + (was - left);
    assert t in was - left;
  }

  /** Identities that are added to a consistent mapping leave it consistent, and the lists right. */
  lemma IdentitiesAdded(types: Types, base: Snapshot, now: Snapshot)
    requires Consistent(types, base.mapped) && Recorded(types, base)
    requires Extends(base.mapped, now.mapped) && Typed(types, now.mapped)
    requires forall s :: s in now.mapped && s !in base.mapped ==> now.mapped[s] == s
    requires now.srcDefinitions == base.srcDefinitions && now.dstResolved == base.dstResolved
    ensures Consistent(types, now.mapped) && Recorded(types, now)
  {
    var m, m' := base.mapped, now.mapped;
    assert forall s :: GivesBody(types, m', s) <==> GivesBody(types, m, s);
    forall s, t {:trigger OneBody(types, m', s, t)} ensures OneBody(types, m', s, t) {
      assert OneBody(types, m, s, t);
    }
    forall d ensures Filled(types, m', d) <==> Filled(types, m, d) {
      if Filled(types, m, d) {
        var s :| GivesBody(types, m, s) && m[s] == d;
        assert GivesBody(types, m', s) && m'[s] == d;
      }
      if Filled(types, m', d) {
        var s :| GivesBody(types, m', s) && m'[s] == d;
        assert GivesBody(types, m, s) && m[s] == d;
      }
    }
    SettledGrows(types, m, m', {});
  }

  /** A failed request leaves no trace at all when no unmapped type lies below both of its types. */
  lemma RestoredExactly(types: Types, before: Mapping, after: Mapping, dst: TypeId, src: TypeId)
    requires Extends(before, after) && AddedBelow(types, before, after, dst, src)
    requires forall s :: s in after && s !in before ==> after[s] == s
    requires forall t :: t !in before ==> !Below(types, dst, src, t, t)
    ensures after == before
  {
    assert forall s :: s in after ==> s in before;
  }

  // ---- what a consistent mapping means ----

  /** The type that a path of positions leads to. */
  ghost function TypeAt(types: Types, t: TypeId, path: seq<nat>): Option<TypeId>
    decreases |path|
  {
    if path == [] then Some(t)
    else if t in types && path[0] < |Contained(types[t])| then TypeAt(types, Contained(types[t])[path[0]], path[1..])
    else None
  }

  /** The path passes neither an opaque struct nor a type that is its own image. */
  ghost predicate Transparent(types: Types, m: Mapping, s: TypeId, path: seq<nat>)
    requires Typed(types, m)
    decreases |path|
  {
    path == [] ||
    (s in m && m[s] != s && !OpaqueStruct(types[s]) && !OpaqueStruct(types[m[s]])
     && (path[0] < |Contained(types[s])| ==> Transparent(types, m, Contained(types[s])[path[0]], path[1..])))
  }

  /** Unrolled to any depth, the two type graphs have types in the same places, mapped to each other. */
  lemma {:induction false} SameUnrolling(types: Types, m: Mapping, s: TypeId, path: seq<nat>)
    requires Consistent(types, m) && s in m && Transparent(types, m, s, path)
    ensures TypeAt(types, s, path).Some? <==> TypeAt(types, m[s], path).Some?
    ensures TypeAt(types, s, path).Some? ==>
              && TypeAt(types, s, path).value in m
              && m[TypeAt(types, s, path).value] == TypeAt(types, m[s], path).value
    decreases |path|
  {
    if path != [] {
      assert Settled(types, m, s);
      if path[0] < |Contained(types[s])| {
        SameUnrolling(types, m, Contained(types[s])[path[0]], path[1..]);
      }
    }
  }

  class TypeMapTy {
    const types: Types
    var mapped: Mapping
    var speculative: seq<TypeId>
    var speculativeDstOpaque: seq<TypeId>
    var srcDefinitions: seq<TypeId>
    var dstResolved: set<TypeId>

    ghost function Now(): Snapshot
      reads this
    {
      Snapshot(mapped, speculative, speculativeDstOpaque, srcDefinitions, dstResolved)
    }

    /** Between requests the mapping is consistent and nothing is speculative. */
    ghost predicate Valid()
      reads this
    {
      && WellFormed(types) && Consistent(types, mapped) && Recorded(types, Now())
      && speculative == [] && speculativeDstOpaque == []
    }

    constructor (types: Types)
      requires WellFormed(types)
      ensures Valid() && this.types == types && mapped == map[]
    {
      this.types := types;
      mapped, speculative, speculativeDstOpaque, srcDefinitions, dstResolved := map[], [], [], [], {};
    }

    /**
      Whether `src` can be mapped to `dst`: yes, with the least mapping that does it, if
      some consistent mapping does, and no otherwise. Types in `open` have been mapped
      before what they contain.
     */
    method AreTypesIsomorphic(dst: TypeId, src: TypeId, ghost base: Snapshot, ghost open: set<TypeId>)
      returns (same: bool)
      requires WellFormed(types) && dst in types && src in types
      requires Books(types, base, Now()) && SettledExcept(types, mapped, open)
      modifies this
      ensures Outcome(types, base, open, old(mapped), dst, src, same, Now())
      decreases |types.Keys - mapped.Keys|
    {
      if !SameKind(types[dst], types[src]) {
        Refuse(types, base, open, dst, src, Now());
        return false;
      }
      if src in mapped {
        if mapped[src] != dst {
          Refuse(types, base, open, dst, src, Now());
        }
        return mapped[src] == dst;
      }
      if dst == src {
        IdentityStep(types, base, Now(), src);
        mapped := mapped[src := dst];
        Accept(types, base, open, old(mapped), dst, src, Now());
        return true;
      }
      if types[src].Struct? {
        if types[src].isOpaque {
          SpeculateStep(types, base, Now(), dst, src);
          mapped := mapped[src := dst];
          speculative := speculative + [src];
          Accept(types, base, open, old(mapped), dst, src, Now());
          return true;
        }
        if types[dst].isOpaque {
          if dst in dstResolved {
            RefuseSecondBody(types, base, open, dst, src, Now());
            return false;
          }
          AcceptBody(types, base, open, dst, src, Now());
          dstResolved := dstResolved + {dst};
          srcDefinitions := srcDefinitions + [src];
          speculative := speculative + [src];
          speculativeDstOpaque := speculativeDstOpaque + [dst];
          mapped := mapped[src := dst];
          return true;
        }
      }
      if |Contained(types[src])| != |Contained(types[dst])| || !SameProperties(types[dst], types[src]) {
        Refuse(types, base, open, dst, src, Now());
        return false;
      }
      same := SpeculateContents(dst, src, base, open);
    }

    /** Takes it that the two types line up, and checks what they contain. */
    method SpeculateContents(dst: TypeId, src: TypeId, ghost base: Snapshot, ghost open: set<TypeId>)
      returns (same: bool)
      requires WellFormed(types) && dst in types && src in types && src != dst && src !in mapped
      requires SameKind(types[dst], types[src]) && SameProperties(types[dst], types[src])
      requires !OpaqueStruct(types[src]) && !OpaqueStruct(types[dst])
      requires |Contained(types[src])| == |Contained(types[dst])|
      requires Books(types, base, Now()) && SettledExcept(types, mapped, open)
      modifies this
      ensures Outcome(types, base, open, old(mapped), dst, src, same, Now())
      decreases |types.Keys - mapped.Keys|, 0
    {
      Suppose(types, base, open, dst, src, Now());
      mapped := mapped[src := dst];
      speculative := speculative + [src];
      for i := 0 to |Contained(types[src])|
        invariant InProgress(types, base, open + {src}, old(mapped), dst, src, i, Now())
      {
        ghost var middle := Now();
        assert KnownContents(types, src) && KnownContents(types, dst);
        FewerLeft(types, old(mapped), mapped, src);
        var sameElement := AreTypesIsomorphic(Contained(types[dst])[i], Contained(types[src])[i], base, open + {src});
        CompareNext(types, base, open + {src}, old(mapped), dst, src, middle, i, sameElement, Now());
        if !sameElement {
          return false;
        }
      }
      Conclude(types, base, open, old(mapped), dst, src, Now());
      return true;
    }

    /**
      Maps `src` to `dst` if, and only if, some consistent mapping keeps what is there and
      does so; then the mapping is the least such. Otherwise only identities are added,
      for types that lie below both.
     */
    method AddTypeMapping(dst: TypeId, src: TypeId)
      requires Valid() && dst in types && src in types
      modifies this
      ensures Valid()
      ensures src in mapped && mapped[src] == dst <==> exists r :: Admits(types, old(mapped), dst, src, r)
      ensures forall r :: Admits(types, old(mapped), dst, src, r) ==> Extends(mapped, r)
      ensures Extends(old(mapped), mapped) && AddedBelow(types, old(mapped), mapped, dst, src)
      ensures !(src in mapped && mapped[src] == dst) ==>
                && srcDefinitions == old(srcDefinitions) && dstResolved == old(dstResolved)
                && forall s :: s in mapped && s !in old(mapped) ==> mapped[s] == s
    {
      var same := AreTypesIsomorphic(dst, src, Now(), {});
      if !same {
        RollBack(old(Now()));
        IdentitiesAdded(types, old(Now()), Now());
      }
      speculative := [];
      speculativeDstOpaque := [];
      assert src in mapped && mapped[src] == dst ==> Admits(types, old(mapped), dst, src, mapped);
      assert same || forall r :: !Admits(types, old(mapped), dst, src, r);
    }

    /** Discards the request: everything that was speculative goes. */
    method RollBack(ghost base: Snapshot)
      requires Books(types, base, Now())
      modifies `mapped, `srcDefinitions, `dstResolved
      ensures Extends(base.mapped, mapped) && Extends(mapped, old(mapped))
      ensures forall s :: s in mapped && s !in base.mapped ==> mapped[s] == s
      ensures srcDefinitions == base.srcDefinitions && dstResolved == base.dstResolved
    {
      for i := 0 to |speculative|
        invariant Extends(mapped, old(mapped)) && Extends(base.mapped, mapped)
        invariant forall s :: s in mapped ==> s in base.mapped || mapped[s] == s || s in speculative[i..]
        invariant srcDefinitions == old(srcDefinitions) && dstResolved == old(dstResolved)
      {
        assert speculative[i..] == [speculative[i]] + speculative[i + 1..];
        mapped := mapped - {speculative[i]};
      }
      srcDefinitions := srcDefinitions[..|srcDefinitions| - |speculativeDstOpaque|];
      ghost var kept := mapped;
      for i := 0 to |speculativeDstOpaque|
        invariant mapped == kept && srcDefinitions == base.srcDefinitions
        invariant base.dstResolved <= dstResolved <= base.dstResolved + Elements(speculativeDstOpaque[i..])
      {
        dstResolved := dstResolved - {speculativeDstOpaque[i]};
      }
    }

    /** A whole run of requests, one after the other. */
    method AddTypeMappings(requests: seq<(TypeId, TypeId)>)
      requires Valid() && forall i :: 0 <= i < |requests| ==> requests[i].0 in types && requests[i].1 in types
      modifies this
      ensures Valid() && Extends(old(mapped), mapped)
    {
      for i := 0 to |requests|
        invariant Valid() && Extends(old(mapped), mapped)
      {
        AddTypeMapping(requests[i].0, requests[i].1);
      }
    }
  }
}
