/**
  Accesses with several indices: a chain of gets and reads for the outer ones, and one
  operation on the object they reach.
 */
module NestedAccess {
  import opened Wrappers
  import opened NestedObjects

  // ---- one access along a whole path ----

  ghost function At(v: Nest, path: seq<int>): Option<Nest>
    decreases |path|
  {
    if path == [] then Some(v)
    else if v.Node? && path[0] in v.parts then At(v.parts[path[0]], path[1..])
    else None
  }

  ghost function Put(v: Nest, path: seq<int>, w: Nest): Nest
    decreases |path|
  {
    if path == [] then w
    else if v.Node? && path[0] in v.parts then Node(v.parts[path[0] := Put(v.parts[path[0]], path[1..], w)])
    else v
  }

  /** What has been put at the end of a path is there. */
  lemma {:induction false} AtPut(v: Nest, path: seq<int>, w: Nest)
    requires At(v, path).Some?
    ensures At(Put(v, path, w), path) == Some(w)
    decreases |path|
  {
    if path != [] {
      AtPut(v.parts[path[0]], path[1..], w);
    }
  }

  ghost predicate Parts(path: seq<int>, other: seq<int>, k: nat) {
    k < |path| && k < |other| && path[..k] == other[..k] && path[k] != other[k]
  }

  /** And nothing changes at the end of a path that leaves it. */
  lemma {:induction false} AtOtherPut(v: Nest, path: seq<int>, w: Nest, other: seq<int>, k: nat)
    requires At(v, path).Some? && Parts(path, other, k)
    ensures At(Put(v, path, w), other) == At(v, other)
    decreases k
  {
    if k > 0 {
      assert path[0] == path[..k][0] && other[0] == other[..k][0];
      assert path[..k][1..] == path[1..][..k - 1] && other[..k][1..] == other[1..][..k - 1];
      AtOtherPut(v.parts[path[0]], path[1..], w, other[1..], k - 1);
    }
  }

  // ---- addresses: an object in a cell, or inside one ----

  datatype Address = Address(cell: Cell, steps: seq<int>)

  ghost predicate Follows(s: Stored, steps: seq<int>)
    decreases |steps|
  {
    steps == [] || (s.Inline? && steps[0] in s.parts && Follows(s.parts[steps[0]], steps[1..]))
  }

  ghost function LoadAt(s: Stored, steps: seq<int>): Stored
    requires Follows(s, steps)
    decreases |steps|
  {
    if steps == [] then s else LoadAt(s.parts[steps[0]], steps[1..])
  }

  ghost function StoreAt(s: Stored, steps: seq<int>, w: Stored): Stored
    requires Follows(s, steps)
    decreases |steps|
  {
    if steps == [] then w else Inline(s.parts[steps[0] := StoreAt(s.parts[steps[0]], steps[1..], w)])
  }

  lemma {:induction false} OneStepFurther(s: Stored, steps: seq<int>, i: int, w: Stored)
    requires Follows(s, steps) && LoadAt(s, steps).Inline? && i in LoadAt(s, steps).parts
    ensures Follows(s, steps + [i]) && LoadAt(s, steps + [i]) == LoadAt(s, steps).parts[i]
    ensures StoreAt(s, steps + [i], w) == StoreAt(s, steps, Inline(LoadAt(s, steps).parts[i := w]))
    decreases |steps|
  {
    if steps == [] {
      assert (steps + [i])[1..] == [];
    } else {
      assert (steps + [i])[1..] == steps[1..] + [i];
      OneStepFurther(s.parts[steps[0]], steps[1..], i, w);
    }
  }

  lemma {:induction false} StoredIsLoaded(s: Stored, steps: seq<int>, w: Stored)
    requires Follows(s, steps)
    ensures Follows(StoreAt(s, steps, w), steps) && LoadAt(StoreAt(s, steps, w), steps) == w
    decreases |steps|
  {
    if steps != [] {
      StoredIsLoaded(s.parts[steps[0]], steps[1..], w);
    }
  }

  lemma {:induction false} StoreBack(s: Stored, steps: seq<int>)
    requires Follows(s, steps)
    ensures StoreAt(s, steps, LoadAt(s, steps)) == s
    decreases |steps|
  {
    if steps != [] {
      StoreBack(s.parts[steps[0]], steps[1..]);
      assert s.parts[steps[0] := s.parts[steps[0]]] == s.parts;
    }
  }

  ghost predicate Valid(heap: Heap, a: Address) {
    a.cell in heap && Follows(heap[a.cell], a.steps)
  }

  ghost function Load(heap: Heap, a: Address): Stored
    requires Valid(heap, a)
  {
    LoadAt(heap[a.cell], a.steps)
  }

  ghost function Store(heap: Heap, a: Address, w: Stored): Heap
    requires Valid(heap, a)
  {
    heap[a.cell := StoreAt(heap[a.cell], a.steps, w)]
  }

  // ---- the calls that are emitted ----

  datatype Access = FieldGet(i: int) | ElementGet(i: int) | ElementRead(i: int)

  ghost function Perform(heap: Heap, a: Address, access: Access): Option<Address> {
    if !Valid(heap, a) || !Load(heap, a).Inline? || access.i !in Load(heap, a).parts then None
    else
      var part := Load(heap, a).parts[access.i];
      if !access.ElementRead? then Some(Address(a.cell, a.steps + [access.i]))
      else if part.Pointer? && part.cell in heap then Some(Address(part.cell, []))
      else None
  }

  ghost function PerformAll(heap: Heap, a: Address, chain: seq<Access>): Option<Address>
    decreases |chain|
  {
    if chain == [] then Some(a)
    else match Perform(heap, a, chain[0])
      case None => None
      case Some(b) => PerformAll(heap, b, chain[1..])
  }

  predicate TypedPath(t: Type, path: seq<int>)
    decreases |path|
  {
    path == [] || (HasChild(t, path[0]) && TypedPath(ChildType(t, path[0]), path[1..]))
  }

  function TypeAt(t: Type, path: seq<int>): Type
    requires TypedPath(t, path)
    decreases |path|
  {
    if path == [] then t else TypeAt(ChildType(t, path[0]), path[1..])
  }

  function AccessFor(t: Type, i: int): Access {
    if t.Tuple? then FieldGet(i) else if ByPointer(t) then ElementRead(i) else ElementGet(i)
  }

  /** The calls that reach what lies at the end of a path. */
  ghost function Chain(t: Type, path: seq<int>): seq<Access>
    requires TypedPath(t, path)
    decreases |path|
  {
    if path == [] then [] else [AccessFor(t, path[0])] + Chain(ChildType(t, path[0]), path[1..])
  }

  lemma {:induction false} PathStep(t: Type, path: seq<int>, k: nat)
    requires TypedPath(t, path) && k < |path|
    ensures TypedPath(t, path[..k]) && TypedPath(t, path[..k + 1])
    ensures HasChild(TypeAt(t, path[..k]), path[k])
    ensures TypeAt(t, path[..k + 1]) == ChildType(TypeAt(t, path[..k]), path[k])
    ensures Chain(t, path[..k + 1]) == Chain(t, path[..k]) + [AccessFor(TypeAt(t, path[..k]), path[k])]
    decreases k
  {
    assert path[..k + 1][1..] == path[1..][..k];
    if k > 0 {
      assert path[..k][1..] == path[1..][..k - 1];
      PathStep(ChildType(t, path[0]), path[1..], k - 1);
    }
  }

  datatype NestedObject = NestedObject(chain: seq<Access>, type_: Type, suffix: seq<int>)

  const DIMENSIONS: nat := 1

  /** The type whose part the last index selects. */
  function LastContainer(t: Type, path: seq<int>): (last: Type)
    requires TypedPath(t, path) && path != []
    ensures HasChild(last, path[|path| - 1])
  {
    PathStep(t, path, |path| - 1);
    TypeAt(t, path[..|path| - 1])
  }

  /** One index is left over: a field that is no object, or what the collection's own operation takes. */
  predicate LeavesOne(t: Type, path: seq<int>, fullyQualified: bool)
    requires TypedPath(t, path)
  {
    path != [] &&
      var last := LastContainer(t, path);
      if last.Tuple? then ChildType(last, path[|path| - 1]).Primitive? else !fullyQualified
  }

  /**
    Splits the indices of an access: a chain of calls for the outer ones, and those left
    to the operation. There is no answer if the object reached is no object.
   */
  method GetNestedObject(objectType: Type, indices: seq<int>, fullyQualified: bool) returns (info: Option<NestedObject>)
    requires TypedPath(objectType, indices)
    ensures info.Some? <==> LeavesOne(objectType, indices, fullyQualified) || !TypeAt(objectType, indices).Primitive?
    ensures info.Some? ==>
              var k := |indices| - if LeavesOne(objectType, indices, fullyQualified) then 1 else 0;
              && TypedPath(objectType, indices[..k])
              && info.value == NestedObject(Chain(objectType, indices[..k]), TypeAt(objectType, indices[..k]),
                  indices[k..])
  {
    var type_ := objectType;
    var chain: seq<Access> := [];
    var it := 0;
    while it < |indices|
      invariant it <= |indices| && TypedPath(objectType, indices[..it])
      invariant type_ == TypeAt(objectType, indices[..it]) && chain == Chain(objectType, indices[..it])
      invariant it == |indices| > 0 ==> !LeavesOne(objectType, indices, fullyQualified)
    {
      PathStep(objectType, indices, it);
      var remaining := |indices| - it;
      if type_.Tuple? {
        var fieldType := type_.fields[indices[it]];
        if fieldType.Primitive? {
          assert remaining == 1 by {
            NothingBelowPrimitive(objectType, indices, it);
          }
          return Some(NestedObject(chain, type_, indices[it..]));
        }
        chain := chain + [FieldGet(indices[it])];
        type_ := fieldType;
        it := it + 1;
      } else {
        if (fullyQualified && DIMENSIONS > remaining) || (!fullyQualified && DIMENSIONS >= remaining) {
          return Some(NestedObject(chain, type_, indices[it..]));
        }
        chain := chain + [if type_.element.Collection? then ElementRead(indices[it]) else ElementGet(indices[it])];
        type_ := type_.element;
        it := it + DIMENSIONS;
      }
    }
    assert indices[..it] == indices && indices[it..] == [];
    if type_.Primitive? {
      return None;
    }
    return Some(NestedObject(chain, type_, []));
  }

  /** A path goes no further than a primitive type. */
  lemma NothingBelowPrimitive(t: Type, path: seq<int>, k: nat)
    requires TypedPath(t, path) && k < |path|
    ensures TypedPath(t, path[..k + 1]) && (TypeAt(t, path[..k + 1]).Primitive? ==> k + 1 == |path|)
  {
    PathStep(t, path, k);
    if k + 1 < |path| {
      PathStep(t, path, k + 1);
    }
  }

  // ---- running the chain ----

  /** An object in memory: well typed, and what hangs below it a tree that does not hold its own cell. */
  ghost predicate Stands(heap: Heap, a: Address, t: Type) {
    && Valid(heap, a) && Typed(heap, t, Load(heap, a)) && Separate(heap, t, Load(heap, a))
    && a.cell !in Cells(heap, t, Load(heap, a))
  }

  ghost function MeaningAt(heap: Heap, a: Address, t: Type): Nest
    requires Stands(heap, a, t)
  {
    Meaning(heap, t, Load(heap, a))
  }

  /** The address of one part of an object. */
  ghost function PartAddress(heap: Heap, a: Address, t: Type, i: int): Address
    requires Valid(heap, a) && Reaches(heap, t, Load(heap, a), i)
  {
    if ByPointer(t) then Address(Load(heap, a).parts[i].cell, []) else Address(a.cell, a.steps + [i])
  }

  /** The call for one index leads to the part, which stands as the whole does. */
  lemma OneAccess(heap: Heap, a: Address, t: Type, i: int)
    requires Stands(heap, a, t) && !t.Primitive? && i in Load(heap, a).parts
    ensures Reaches(heap, t, Load(heap, a), i)
    ensures var b := PartAddress(heap, a, t, i);
      && Perform(heap, a, AccessFor(t, i)) == Some(b)
      && Stands(heap, b, ChildType(t, i)) && Load(heap, b) == Child(heap, t, Load(heap, a), i)
      && b.cell in {a.cell} + ChildCells(heap, t, Load(heap, a), i)
      && Cells(heap, ChildType(t, i), Load(heap, b)) <= ChildCells(heap, t, Load(heap, a), i)
          <= Cells(heap, t, Load(heap, a))
      && MeaningAt(heap, a, t).parts[i] == MeaningAt(heap, b, ChildType(t, i))
  {
    var s := Load(heap, a);
    assert ChildTyped(heap, t, s, i) && ChildSeparate(heap, t, s, i);
    ChildCellsWithin(heap, t, s, i);
    assert ChildMeaning(heap, t, s, i) == Meaning(heap, ChildType(t, i), Child(heap, t, s, i));
    if !ByPointer(t) {
      OneStepFurther(heap[a.cell], a.steps, i, s);
    }
  }

  /** The chain for a path leads to what lies at its end. */
  lemma {:induction false} ChainReaches(heap: Heap, a: Address, t: Type, path: seq<int>)
    requires Stands(heap, a, t) && TypedPath(t, path) && At(MeaningAt(heap, a, t), path).Some?
    ensures var r := PerformAll(heap, a, Chain(t, path));
      && r.Some? && Stands(heap, r.value, TypeAt(t, path))
      && At(MeaningAt(heap, a, t), path) == Some(MeaningAt(heap, r.value, TypeAt(t, path)))
    decreases |path|
  {
    if path != [] {
      OneAccess(heap, a, t, path[0]);
      var b := PartAddress(heap, a, t, path[0]);
      ChainReaches(heap, b, ChildType(t, path[0]), path[1..]);
      assert Chain(t, path)[1..] == Chain(ChildType(t, path[0]), path[1..]);
    }
  }

  // ---- reading ----

  lemma {:induction false} AtStep(v: Nest, path: seq<int>, k: nat)
    requires k < |path| && At(v, path[..k + 1]).Some?
    ensures At(v, path[..k]).Some? && At(v, path[..k]).value.Node? && path[k] in At(v, path[..k]).value.parts
    ensures At(v, path[..k + 1]) == Some(At(v, path[..k]).value.parts[path[k]])
    decreases k
  {
    assert path[..k + 1][1..] == path[1..][..k];
    if k > 0 {
      assert path[..k][1..] == path[1..][..k - 1];
      AtStep(v.parts[path[0]], path[1..], k - 1);
    }
  }

  /** The read that follows the chain: of a field, or of an element. */
  ghost function FinalRead(heap: Heap, a: Address, suffix: seq<int>): Option<Stored> {
    if suffix != [] && Valid(heap, a) && Load(heap, a).Inline? && suffix[0] in Load(heap, a).parts
    then Some(Load(heap, a).parts[suffix[0]])
    else None
  }

  /** The object that a chain reaches, for a path that can be followed. */
  ghost function Reached(heap: Heap, a: Address, t: Type, path: seq<int>): (b: Address)
    requires Stands(heap, a, t) && TypedPath(t, path) && At(MeaningAt(heap, a, t), path).Some?
    ensures Stands(heap, b, TypeAt(t, path)) && PerformAll(heap, a, Chain(t, path)) == Some(b)
    ensures At(MeaningAt(heap, a, t), path) == Some(MeaningAt(heap, b, TypeAt(t, path)))
  {
    ChainReaches(heap, a, t, path);
    PerformAll(heap, a, Chain(t, path)).value
  }

  /** All but the last index of a path can be followed if all can. */
  lemma Outer(v: Nest, t: Type, path: seq<int>)
    requires TypedPath(t, path) && path != [] && At(v, path).Some?
    ensures TypedPath(t, path[..|path| - 1]) && At(v, path[..|path| - 1]).Some?
    ensures At(v, path[..|path| - 1]).value.Node? && path[|path| - 1] in At(v, path[..|path| - 1]).value.parts
    ensures At(v, path) == Some(At(v, path[..|path| - 1]).value.parts[path[|path| - 1]])
    ensures TypeAt(t, path) == ChildType(LastContainer(t, path), path[|path| - 1])
  {
    assert path[..|path| - 1 + 1] == path;
    PathStep(t, path, |path| - 1);
    AtStep(v, path, |path| - 1);
  }

  /** The chain and the final read get what one read along the whole path gets. */
  lemma ReadIsRead(heap: Heap, a: Address, t: Type, path: seq<int>)
    requires Stands(heap, a, t) && TypedPath(t, path) && path != [] && At(MeaningAt(heap, a, t), path).Some?
    ensures TypedPath(t, path[..|path| - 1]) && At(MeaningAt(heap, a, t), path[..|path| - 1]).Some?
    ensures var b, i, last := Reached(heap, a, t, path[..|path| - 1]), path[|path| - 1], LastContainer(t, path);
      && ChildTyped(heap, last, Load(heap, b), i)
      && FinalRead(heap, b, [i]) == Some(Load(heap, b).parts[i])
      && At(MeaningAt(heap, a, t), path) == Some(Meaning(heap, ChildType(last, i), Child(heap, last, Load(heap, b), i)))
    ensures TypeAt(t, path).Primitive? ==>
      var read := FinalRead(heap, Reached(heap, a, t, path[..|path| - 1]), path[|path| - 1..]);
      read.Some? && read.value.Word? && At(MeaningAt(heap, a, t), path) == Some(Scalar(read.value.n))
  {
    Outer(MeaningAt(heap, a, t), t, path);
    var b, i := Reached(heap, a, t, path[..|path| - 1]), path[|path| - 1];
    OneAccess(heap, b, LastContainer(t, path), i);
    assert ChildTyped(heap, LastContainer(t, path), Load(heap, b), i);
    assert path[|path| - 1..] == [i];
  }

  /** The read that is emitted is well formed unless the last index selects an object out of a tuple. */
  lemma ReadWellFormedIff(heap: Heap, a: Address, t: Type, path: seq<int>, k: nat)
    requires Stands(heap, a, t) && TypedPath(t, path) && path != [] && At(MeaningAt(heap, a, t), path).Some?
    requires k == |path| - if LeavesOne(t, path, false) then 1 else 0
    ensures TypedPath(t, path[..k]) && At(MeaningAt(heap, a, t), path[..k]).Some?
    ensures FinalRead(heap, Reached(heap, a, t, path[..k]), path[k..]).Some?
       <==> !(LastContainer(t, path).Tuple? && !TypeAt(t, path).Primitive?)
  {
    Outer(MeaningAt(heap, a, t), t, path);
    if LeavesOne(t, path, false) {
      ReadIsRead(heap, a, t, path);
      assert path[k..] == [path[|path| - 1]];
    } else {
      assert path[..k] == path && path[k..] == [];
    }
  }

  // ---- updating ----

  /** `s'` is `s` with one part new, and what hangs below the other parts is untouched. */
  ghost predicate OnePartNew(heap: Heap, heap': Heap, t: Type, s: Stored, s': Stored, i: int) {
    && !t.Primitive? && Typed(heap, t, s) && Separate(heap, t, s)
    && s'.Inline? && s'.parts.Keys == s.parts.Keys && i in s.parts
    && (forall j :: j in s.parts && j != i ==>
          s'.parts[j] == s.parts[j] && SameOn(heap, heap', ChildCells(heap, t, s, j)))
    && ChildTyped(heap', t, s', i) && ChildSeparate(heap', t, s', i)
    && ChildCells(heap', t, s', i) <= ChildCells(heap, t, s, i)
  }

  lemma EachPart(heap: Heap, heap': Heap, t: Type, s: Stored, s': Stored, i: int, j: int)
    requires OnePartNew(heap, heap', t, s, s', i) && j in s.parts
    ensures ChildTyped(heap', t, s', j) && ChildSeparate(heap', t, s', j)
    ensures ChildCells(heap', t, s', j) <= ChildCells(heap, t, s, j)
    ensures j != i ==> Meaning(heap', ChildType(t, j), Child(heap', t, s', j)) == ChildMeaning(heap, t, s, j)
  {
    if j != i {
      assert ChildTyped(heap, t, s, j) && ChildSeparate(heap, t, s, j);
      ChildFrame(heap, heap', t, s, j);
    }
  }

  lemma RebuildTyped(heap: Heap, heap': Heap, t: Type, s: Stored, s': Stored, i: int)
    requires OnePartNew(heap, heap', t, s, s', i)
    ensures Typed(heap', t, s')
  {
    forall j {:trigger ChildTyped(heap', t, s', j)} | j in s'.parts ensures ChildTyped(heap', t, s', j) {
      EachPart(heap, heap', t, s, s', i, j);
    }
  }

  lemma RebuildCells(heap: Heap, heap': Heap, t: Type, s: Stored, s': Stored, i: int)
    requires OnePartNew(heap, heap', t, s, s', i)
    ensures Cells(heap', t, s') <= Cells(heap, t, s)
  {
    forall c | c in Cells(heap', t, s') ensures c in Cells(heap, t, s) {
      var j :| j in s'.parts && c in ChildCells(heap', t, s', j);
      EachPart(heap, heap', t, s, s', i, j);
    }
  }

  lemma RebuildSeparate(heap: Heap, heap': Heap, t: Type, s: Stored, s': Stored, i: int)
    requires OnePartNew(heap, heap', t, s, s', i)
    ensures Separate(heap', t, s')
  {
    forall j {:trigger ChildSeparate(heap', t, s', j)} | j in s'.parts ensures ChildSeparate(heap', t, s', j) {
      EachPart(heap, heap', t, s, s', i, j);
    }
    forall j, k {:trigger Apart(heap', t, s', j, k)} | j in s'.parts && k in s'.parts ensures Apart(heap', t, s', j, k)
    {
      assert Apart(heap, t, s, j, k);
      EachPart(heap, heap', t, s, s', i, j);
      EachPart(heap, heap', t, s, s', i, k);
    }
  }

  /** The meaning of an object of which one part is new. */
  lemma RebuildMeaning(heap: Heap, heap': Heap, t: Type, s: Stored, s': Stored, i: int)
    requires OnePartNew(heap, heap', t, s, s', i) && Typed(heap', t, s')
    ensures Meaning(heap', t, s') == Node(Meaning(heap, t, s).parts[i := ChildMeaning(heap', t, s', i)])
  {
    forall j | j in s.parts && j != i ensures ChildMeaning(heap', t, s', j) == ChildMeaning(heap, t, s, j) {
      EachPart(heap, heap', t, s, s', i, j);
    }
    assert Meaning(heap', t, s').parts == Meaning(heap, t, s).parts[i := ChildMeaning(heap', t, s', i)];
  }

  /** What a store at the end of a chain does to the object that the chain starts from. */
  ghost predicate Updated(heap: Heap, heap': Heap, a: Address, t: Type, v: Nest) {
    && Stands(heap, a, t) && Stands(heap', a, t) && MeaningAt(heap', a, t) == v
    && Cells(heap', t, Load(heap', a)) <= Cells(heap, t, Load(heap, a))
    && heap'[a.cell] == StoreAt(heap[a.cell], a.steps, Load(heap', a))
  }

  /** If one part of an object has been updated, so has the object. */
  lemma UpdateUp(heap: Heap, heap': Heap, a: Address, t: Type, i: int, changed: Cell, v: Nest)
    requires Stands(heap, a, t) && !t.Primitive? && i in Load(heap, a).parts && Reaches(heap, t, Load(heap, a), i)
    requires Updated(heap, heap', PartAddress(heap, a, t, i), ChildType(t, i), v)
    requires changed in {PartAddress(heap, a, t, i).cell} + ChildCells(heap, t, Load(heap, a), i)
    requires heap'.Keys == heap.Keys && forall c :: c in heap && c != changed ==> heap'[c] == heap[c]
    ensures Updated(heap, heap', a, t, Node(MeaningAt(heap, a, t).parts[i := v]))
  {
    var s, b := Load(heap, a), PartAddress(heap, a, t, i);
    OneAccess(heap, a, t, i);
    PartStored(heap, heap', a, t, i, changed);
    var s' := Load(heap', a);
    forall j | j in s.parts && j != i ensures SameOn(heap, heap', ChildCells(heap, t, s, j)) {
      assert Apart(heap, t, s, i, j);
      OneAccess(heap, a, t, j);
      CellsInHeap(heap, t, s, j);
    }
    RebuildTyped(heap, heap', t, s, s', i);
    RebuildCells(heap, heap', t, s, s', i);
    RebuildSeparate(heap, heap', t, s, s', i);
    RebuildMeaning(heap, heap', t, s, s', i);
  }

  lemma {:induction false} CellsInHeap(heap: Heap, t: Type, s: Stored, i: int)
    requires ChildTyped(heap, t, s, i)
    ensures ChildCells(heap, t, s, i) <= heap.Keys
    decreases t
  {
    var u, r := ChildType(t, i), Child(heap, t, s, i);
    if !u.Primitive? {
      forall j | j in r.parts ensures ChildCells(heap, u, r, j) <= heap.Keys {
        assert ChildTyped(heap, u, r, j);
        CellsInHeap(heap, u, r, j);
      }
    }
  }

  /** The object itself after the update of one part: that part is new, if it lies inside. */
  lemma PartStored(heap: Heap, heap': Heap, a: Address, t: Type, i: int, changed: Cell)
    requires Stands(heap, a, t) && !t.Primitive? && i in Load(heap, a).parts && Reaches(heap, t, Load(heap, a), i)
    requires var b := PartAddress(heap, a, t, i);
      && Stands(heap, b, ChildType(t, i)) && Stands(heap', b, ChildType(t, i))
      && heap'[b.cell] == StoreAt(heap[b.cell], b.steps, Load(heap', b))
      && Cells(heap', ChildType(t, i), Load(heap', b)) <= Cells(heap, ChildType(t, i), Load(heap, b))
      && changed in {b.cell} + ChildCells(heap, t, Load(heap, a), i)
    requires heap'.Keys == heap.Keys && forall c :: c in heap && c != changed ==> heap'[c] == heap[c]
    ensures Valid(heap', a) && heap'[a.cell] == StoreAt(heap[a.cell], a.steps, Load(heap', a))
    ensures var s, s' := Load(heap, a), Load(heap', a);
      && s'.Inline? && s'.parts.Keys == s.parts.Keys &&
          (forall j :: j in s.parts && j != i ==> s'.parts[j] == s.parts[j])
      && Reaches(heap', t, s', i) && Child(heap', t, s', i) == Load(heap', PartAddress(heap, a, t, i))
      && ChildTyped(heap', t, s', i) && ChildSeparate(heap', t, s', i)
      && ChildCells(heap', t, s', i) <= ChildCells(heap, t, s, i)
  {
    var s, b := Load(heap, a), PartAddress(heap, a, t, i);
    var part := Load(heap', b);
    ChildCellsWithin(heap, t, s, i);
    if ByPointer(t) {
      assert heap'[a.cell] == heap[a.cell];
      StoreBack(heap[a.cell], a.steps);
    } else {
      OneStepFurther(heap[a.cell], a.steps, i, part);
      StoredIsLoaded(heap[a.cell], a.steps, Inline(s.parts[i := part]));
    }
  }

  /** A store at the end of a chain is a put along the path. */
  lemma {:induction false} StoreIsPut(heap: Heap, a: Address, t: Type, path: seq<int>, b: Address, w: Stored)
    requires Stands(heap, a, t) && TypedPath(t, path) && At(MeaningAt(heap, a, t), path).Some?
    requires PerformAll(heap, a, Chain(t, path)) == Some(b) && Stands(heap, b, TypeAt(t, path))
    requires Stands(Store(heap, b, w), b, TypeAt(t, path))
    requires Cells(Store(heap, b, w), TypeAt(t, path), w) <= Cells(heap, TypeAt(t, path), Load(heap, b))
    requires Typed(Store(heap, b, w), TypeAt(t, path), w)
    ensures Updated(heap, Store(heap, b, w), a, t,
      Put(MeaningAt(heap, a, t), path, Meaning(Store(heap, b, w), TypeAt(t, path), w)))
    ensures b.cell in {a.cell} + Cells(heap, t, Load(heap, a))
    decreases |path|
  {
    var heap' := Store(heap, b, w);
    if path == [] {
      StoredIsLoaded(heap[b.cell], b.steps, w);
    } else {
      OneAccess(heap, a, t, path[0]);
      var c := PartAddress(heap, a, t, path[0]);
      assert Chain(t, path)[1..] == Chain(ChildType(t, path[0]), path[1..]);
      StoreIsPut(heap, c, ChildType(t, path[0]), path[1..], b, w);
      UpdateUp(heap, heap', a, t, path[0], b.cell, Put(MeaningAt(heap, c, ChildType(t, path[0])), path[1..],
        Meaning(heap', TypeAt(t, path), w)));
    }
  }

  // ---- the operations that end a chain ----

  /** A part is one that was there, from wherever it came, or a word where a primitive belongs. */
  predicate KeptOrWord(t: Type, old_: map<int, Stored>, new_: map<int, Stored>, from: map<int, int>, i: int) {
    i in new_ ==>
      if i in from then from[i] in old_ && new_[i] == old_[from[i]] && (t.Tuple? ==> from[i] == i)
      else new_[i].Word? && HasChild(t, i) && ChildType(t, i).Primitive?
  }

  /** `from` says which of the old parts each part is; no part is kept twice. */
  ghost predicate FlatChange(t: Type, old_: map<int, Stored>, new_: map<int, Stored>, from: map<int, int>) {
    && !t.Primitive? && (t.Tuple? ==> new_.Keys == old_.Keys)
    && (forall i, j :: i in from && j in from && i != j ==> from[i] != from[j])
    && forall i {:trigger KeptOrWord(t, old_, new_, from, i)} :: KeptOrWord(t, old_, new_, from, i)
  }

  ghost function ChangedMeaning(was: map<int, Nest>, new_: map<int, Stored>, from: map<int, int>): Nest {
    Node(map i | i in new_ :: if i in from && from[i] in was then was[from[i]] else WordMeans(new_[i]))
  }

  function WordMeans(s: Stored): Nest {
    Scalar(if s.Word? then s.n else 0)
  }

  lemma FlatPart(heap: Heap, heap': Heap, t: Type, s: Stored, w: Stored, from: map<int, int>, i: int)
    requires Typed(heap, t, s) && Separate(heap, t, s) && s.Inline? && w.Inline?
    requires FlatChange(t, s.parts, w.parts, from)
    requires SameOn(heap, heap', Cells(heap, t, s)) && i in w.parts
    ensures i in from ==> from[i] in s.parts && !t.Primitive?
    ensures ChildTyped(heap', t, w, i) && ChildSeparate(heap', t, w, i)
    ensures ChildCells(heap', t, w, i) == (if i in from then ChildCells(heap, t, s, from[i]) else {})
    ensures Meaning(heap', ChildType(t, i), Child(heap', t, w, i))
         == if i in from then ChildMeaning(heap, t, s, from[i]) else WordMeans(w.parts[i])
  {
    assert KeptOrWord(t, s.parts, w.parts, from, i);
    if i in from {
      assert ChildTyped(heap, t, s, from[i]) && ChildSeparate(heap, t, s, from[i]);
      ChildCellsWithin(heap, t, s, from[i]);
      ChildFrame(heap, heap', t, s, from[i]);
    }
  }

  lemma FlatApart(heap: Heap, heap': Heap, t: Type, s: Stored, w: Stored, from: map<int, int>, i: int, j: int)
    requires Typed(heap, t, s) && Separate(heap, t, s) && s.Inline? && w.Inline?
    requires FlatChange(t, s.parts, w.parts, from)
    requires SameOn(heap, heap', Cells(heap, t, s)) && i in w.parts && j in w.parts
    ensures Apart(heap', t, w, i, j)
  {
    FlatPart(heap, heap', t, s, w, from, i);
    FlatPart(heap, heap', t, s, w, from, j);
    if i in from && j in from {
      assert Apart(heap, t, s, from[i], from[j]);
    }
  }

  /** A flat change leaves an object that stands, with the meaning changed in the same way. */
  lemma FlatUpdate(heap: Heap, b: Address, t: Type, w: Stored, from: map<int, int>)
    requires Stands(heap, b, t) && Load(heap, b).Inline? && w.Inline?
    requires FlatChange(t, Load(heap, b).parts, w.parts, from)
    ensures Stands(Store(heap, b, w), b, t) && Load(Store(heap, b, w), b) == w
    ensures Cells(Store(heap, b, w), t, w) <= Cells(heap, t, Load(heap, b))
    ensures MeaningAt(Store(heap, b, w), b, t) == ChangedMeaning(MeaningAt(heap, b, t).parts, w.parts, from)
  {
    var heap', s := Store(heap, b, w), Load(heap, b);
    StoredIsLoaded(heap[b.cell], b.steps, w);
    BelowInHeap(heap, t, s);
    forall i | i in w.parts
      ensures ChildTyped(heap', t, w, i) && ChildSeparate(heap', t, w, i)
      ensures ChildCells(heap', t, w, i) <= Cells(heap, t, s)
    {
      FlatPart(heap, heap', t, s, w, from, i);
      if i in from {
        ChildCellsWithin(heap, t, s, from[i]);
      }
    }
    forall i, j {:trigger Apart(heap', t, w, i, j)} | i in w.parts && j in w.parts ensures Apart(heap', t, w, i, j) {
      FlatApart(heap, heap', t, s, w, from, i, j);
    }
    assert Typed(heap', t, w) by {
      assert forall i {:trigger ChildTyped(heap', t, w, i)} :: i in w.parts ==> ChildTyped(heap', t, w, i);
    }
    forall i | i in w.parts
      ensures i in from ==> from[i] in s.parts
      ensures Meaning(heap', t, w).parts[i]
           == if i in from then Meaning(heap, t, s).parts[from[i]] else WordMeans(w.parts[i])
    {
      FlatPart(heap, heap', t, s, w, from, i);
    }
    FlatMeaning(Meaning(heap, t, s).parts, Meaning(heap', t, w).parts, w.parts, from);
  }

  lemma FlatMeaning(was: map<int, Nest>, is_: map<int, Nest>, w: map<int, Stored>, from: map<int, int>)
    requires is_.Keys == w.Keys && forall i :: i in w && i in from ==> from[i] in was
    requires forall i :: i in w ==> is_[i] == if i in from then was[from[i]] else WordMeans(w[i])
    ensures Node(is_) == ChangedMeaning(was, w, from)
  {
    var v := ChangedMeaning(was, w, from).parts;
    assert v.Keys == w.Keys;
    forall i | i in w ensures is_[i] == v[i] {
      assert i in w.Keys;
    }
    assert is_ == v;
  }

  lemma BelowInHeap(heap: Heap, t: Type, s: Stored)
    requires Typed(heap, t, s)
    ensures Cells(heap, t, s) <= heap.Keys
  {
    if !t.Primitive? {
      forall i | i in s.parts ensures ChildCells(heap, t, s, i) <= heap.Keys {
        assert ChildTyped(heap, t, s, i);
        CellsInHeap(heap, t, s, i);
      }
    }
  }

  /** An in-place change at the end of a chain is the same change at the end of the path. */
  lemma UpdateIsUpdate(heap: Heap, a: Address, t: Type, path: seq<int>, w: Stored, from: map<int, int>)
    requires Stands(heap, a, t) && TypedPath(t, path) && At(MeaningAt(heap, a, t), path).Some?
    requires var s := Load(heap, Reached(heap, a, t, path));
      s.Inline? && w.Inline? && FlatChange(TypeAt(t, path), s.parts, w.parts, from)
    ensures var b, v := Reached(heap, a, t, path), MeaningAt(heap, a, t);
      Updated(heap, Store(heap, b, w), a, t, Put(v, path, ChangedMeaning(At(v, path).value.parts, w.parts, from)))
  {
    var b := Reached(heap, a, t, path);
    FlatUpdate(heap, b, TypeAt(t, path), w, from);
    StoreIsPut(heap, a, t, path, b, w);
  }

  lemma {:induction false} PutStep(v: Nest, path: seq<int>, k: nat, w: Nest)
    requires k < |path| && At(v, path[..k]).Some? && At(v, path[..k]).value.Node?
    requires path[k] in At(v, path[..k]).value.parts
    ensures Put(v, path[..k + 1], w) == Put(v, path[..k], Node(At(v, path[..k]).value.parts[path[k] := w]))
    decreases k
  {
    assert path[..k + 1][1..] == path[1..][..k];
    if k > 0 {
      assert path[..k][1..] == path[1..][..k - 1];
      PutStep(v.parts[path[0]], path[1..], k - 1, w);
    }
  }

  function Identity(keys: set<int>): map<int, int> {
    map i | i in keys :: i
  }

  lemma WriteIsFlat(t: Type, parts: map<int, Stored>, i: int, n: int)
    requires !t.Primitive? && i in parts && HasChild(t, i) && ChildType(t, i).Primitive?
    ensures FlatChange(t, parts, parts[i := Word(n)], Identity(parts.Keys - {i}))
  {
  }

  lemma WriteMeans(was: map<int, Nest>, parts: map<int, Stored>, i: int, n: int)
    requires was.Keys == parts.Keys && i in parts
    ensures ChangedMeaning(was, parts[i := Word(n)], Identity(parts.Keys - {i})) == Node(was[i := Scalar(n)])
  {
    assert ChangedMeaning(was, parts[i := Word(n)], Identity(parts.Keys - {i})).parts == was[i := Scalar(n)];
  }

  /** The chain and the final write of a word put it at the end of the path, and change nothing else. */
  lemma WriteIsWrite(heap: Heap, a: Address, t: Type, path: seq<int>, n: int)
    requires Stands(heap, a, t) && TypedPath(t, path) && path != [] && At(MeaningAt(heap, a, t), path).Some?
    requires TypeAt(t, path).Primitive?
    ensures TypedPath(t, path[..|path| - 1]) && At(MeaningAt(heap, a, t), path[..|path| - 1]).Some?
    ensures var b := Reached(heap, a, t, path[..|path| - 1]);
      && Load(heap, b).Inline? && path[|path| - 1] in Load(heap, b).parts
      && var w := Inline(Load(heap, b).parts[path[|path| - 1] := Word(n)]);
         Updated(heap, Store(heap, b, w), a, t, Put(MeaningAt(heap, a, t), path, Scalar(n)))
  {
    var v, k, i := MeaningAt(heap, a, t), |path| - 1, path[|path| - 1];
    Outer(v, t, path);
    var b, last := Reached(heap, a, t, path[..k]), LastContainer(t, path);
    OneAccess(heap, b, last, i);
    var s, was := Load(heap, b), At(v, path[..k]).value.parts;
    var w, from := Inline(s.parts[i := Word(n)]), Identity(s.parts.Keys - {i});
    assert ChildTyped(heap, last, s, i);
    WriteIsFlat(last, s.parts, i, n);
    UpdateIsUpdate(heap, a, t, path[..k], w, from);
    WriteMeans(was, s.parts, i, n);
    PutStep(v, path, k, Scalar(n));
    assert path[..k + 1] == path;
  }

  // ---- inserting and removing, which move the elements of a sequence ----

  function ClosedKeys(keys: set<int>, i: int): (r: set<int>)
    ensures forall k {:trigger k in r} :: k in r <==> Later(i, k) in keys
  {
    var r := (set k | k in keys && k < i) + (set k | k in keys && k > i :: k - 1);
    assert forall k {:trigger k in r} :: k in r <==> Later(i, k) in keys by {
      forall k {:trigger k in r} ensures k in r <==> Later(i, k) in keys {
        assert Later(i, k) > i ==> k == Later(i, k) - 1;
      }
    }
    r
  }

  function OpenedKeys(keys: set<int>, i: int): (r: set<int>)
    ensures forall k {:trigger k in r} :: k in r <==> k != i && Earlier(i, k) in keys
  {
    var r := (set k | k in keys && k < i) + (set k | k in keys && k >= i :: k + 1);
    assert forall k {:trigger k in r} :: k in r <==> k != i && Earlier(i, k) in keys by {
      forall k {:trigger k in r} ensures k in r <==> k != i && Earlier(i, k) in keys {
        assert k > i ==> k == Earlier(i, k) + 1;
      }
    }
    r
  }

  /** Without the `i`-th part; in a sequence the later ones move down. */
  function Removed<T>(keyed: bool, parts: map<int, T>, i: int): map<int, T> {
    if keyed then parts - {i} else map k | k in ClosedKeys(parts.Keys, i) :: parts[Later(i, k)]
  }

  /** With `w` as the `i`-th part; in a sequence the later ones move up. */
  function Inserted<T>(keyed: bool, parts: map<int, T>, i: int, w: T): map<int, T> {
    if keyed then parts[i := w] else (map k | k in OpenedKeys(parts.Keys, i) :: parts[Earlier(i, k)])[i := w]
  }

  /** Where the element at `k` comes from when the `i`-th has gone, or has come. */
  function Later(i: int, k: int): int {
    if k < i then k else k + 1
  }

  function Earlier(i: int, k: int): int {
    if k < i then k else k - 1
  }

  /** The new part is at `i`; a keyed collection keeps all other keys, and in a sequence the later ones are one up. */
  lemma InsertedParts<T>(keyed: bool, parts: map<int, T>, i: int, w: T, k: int)
    ensures i in Inserted(keyed, parts, i, w) && Inserted(keyed, parts, i, w)[i] == w
    ensures k != i ==>
              var from := if keyed || k < i then k else k - 1;
              && (k in Inserted(keyed, parts, i, w) <==> from in parts)
              && (from in parts ==> Inserted(keyed, parts, i, w)[k] == parts[from])
  {
    if !keyed {
      assert k in OpenedKeys(parts.Keys, i) <==> k != i && Earlier(i, k) in parts.Keys;
    }
  }

  lemma RemovedParts<T>(keyed: bool, parts: map<int, T>, i: int, k: int)
    ensures var from := if keyed || k < i then k else k + 1;
      && (k in Removed(keyed, parts, i) <==> from in parts && !(keyed && k == i))
      && (k in Removed(keyed, parts, i) ==> Removed(keyed, parts, i)[k] == parts[from])
  {
    if !keyed {
      assert k in ClosedKeys(parts.Keys, i) <==> Later(i, k) in parts.Keys;
    }
  }

  /** A remove undoes an insert, of a key that was not there or anywhere in a sequence. */
  lemma RemoveUndoesInsert<T>(keyed: bool, parts: map<int, T>, i: int, w: T)
    requires keyed ==> i !in parts
    ensures Removed(keyed, Inserted(keyed, parts, i, w), i) == parts
  {
    if !keyed {
      var more := Inserted(keyed, parts, i, w);
      forall k ensures k in ClosedKeys(more.Keys, i) <==> k in parts {
        assert Earlier(i, Later(i, k)) == k && Later(i, k) != i;
        assert Later(i, k) in more <==> Later(i, k) in OpenedKeys(parts.Keys, i);
      }
      forall k | k in parts ensures Removed(keyed, more, i)[k] == parts[k] {
        assert k in ClosedKeys(more.Keys, i) && Earlier(i, Later(i, k)) == k;
      }
    }
  }

  function RemovedFrom(keyed: bool, keys: set<int>, i: int): map<int, int> {
    Removed(keyed, Identity(keys), i)
  }

  lemma RemoveIsFlat(t: Type, parts: map<int, Stored>, i: int)
    requires t.Collection?
    ensures FlatChange(t, parts, Removed(t.keyed, parts, i), RemovedFrom(t.keyed, parts.Keys, i))
  {
  }

  lemma RemoveMeans(keyed: bool, was: map<int, Nest>, parts: map<int, Stored>, i: int)
    requires was.Keys == parts.Keys
    ensures ChangedMeaning(was, Removed(keyed, parts, i), RemovedFrom(keyed, parts.Keys, i))
         == Node(Removed(keyed, was, i))
  {
    var v := ChangedMeaning(was, Removed(keyed, parts, i), RemovedFrom(keyed, parts.Keys, i));
    assert v.parts == Removed(keyed, was, i);
  }

  /** The chain and the final remove take the element away at the end of the path, and a sequence closes up. */
  lemma RemoveIsRemove(heap: Heap, a: Address, t: Type, path: seq<int>, i: int)
    requires Stands(heap, a, t) && TypedPath(t, path) && At(MeaningAt(heap, a, t), path).Some?
    requires TypeAt(t, path).Collection?
    ensures var b, v, keyed := Reached(heap, a, t, path), MeaningAt(heap, a, t), TypeAt(t, path).keyed;
      && Load(heap, b).Inline? && At(v, path).value.Node?
      && Updated(heap, Store(heap, b, Inline(Removed(keyed, Load(heap, b).parts, i))), a, t,
                 Put(v, path, Node(Removed(keyed, At(v, path).value.parts, i))))
  {
    var b, was := Reached(heap, a, t, path), At(MeaningAt(heap, a, t), path).value;
    var s, keyed := Load(heap, b), TypeAt(t, path).keyed;
    var from := RemovedFrom(keyed, s.parts.Keys, i);
    assert was.parts.Keys == s.parts.Keys;
    RemoveIsFlat(TypeAt(t, path), s.parts, i);
    RemoveMeans(keyed, was.parts, s.parts, i);
    UpdateIsUpdate(heap, a, t, path, Inline(Removed(keyed, s.parts, i)), from);
  }

  function InsertedFrom(keyed: bool, keys: set<int>, i: int): map<int, int> {
    Inserted(keyed, Identity(keys), i, 0) - {i}
  }

  lemma InsertIsFlat(t: Type, parts: map<int, Stored>, i: int, n: int)
    requires t.Collection? && t.element.Primitive?
    ensures FlatChange(t, parts, Inserted(t.keyed, parts, i, Word(n)), InsertedFrom(t.keyed, parts.Keys, i))
  {
  }

  lemma InsertMeans(keyed: bool, was: map<int, Nest>, parts: map<int, Stored>, i: int, n: int)
    requires was.Keys == parts.Keys
    ensures ChangedMeaning(was, Inserted(keyed, parts, i, Word(n)), InsertedFrom(keyed, parts.Keys, i))
         == Node(Inserted(keyed, was, i, Scalar(n)))
  {
    var v := ChangedMeaning(was, Inserted(keyed, parts, i, Word(n)), InsertedFrom(keyed, parts.Keys, i));
    assert v.parts == Inserted(keyed, was, i, Scalar(n));
  }

  /** The chain and the final insert of a word put it in at the end of the path, and a sequence opens up. */
  lemma InsertIsInsert(heap: Heap, a: Address, t: Type, path: seq<int>, i: int, n: int)
    requires Stands(heap, a, t) && TypedPath(t, path) && At(MeaningAt(heap, a, t), path).Some?
    requires TypeAt(t, path).Collection? && TypeAt(t, path).element.Primitive?
    ensures var b, v, keyed := Reached(heap, a, t, path), MeaningAt(heap, a, t), TypeAt(t, path).keyed;
      && Load(heap, b).Inline? && At(v, path).value.Node?
      && Updated(heap, Store(heap, b, Inline(Inserted(keyed, Load(heap, b).parts, i, Word(n)))), a, t,
                 Put(v, path, Node(Inserted(keyed, At(v, path).value.parts, i, Scalar(n)))))
  {
    var b, was := Reached(heap, a, t, path), At(MeaningAt(heap, a, t), path).value;
    var s, keyed := Load(heap, b), TypeAt(t, path).keyed;
    var from := InsertedFrom(keyed, s.parts.Keys, i);
    assert was.parts.Keys == s.parts.Keys;
    InsertIsFlat(TypeAt(t, path), s.parts, i, n);
    InsertMeans(keyed, was.parts, s.parts, i, n);
    UpdateIsUpdate(heap, a, t, path, Inline(Inserted(keyed, s.parts, i, Word(n))), from);
  }

  /** The chain for a fully qualified clear empties the collection at the end of the path. */
  lemma ClearIsClear(heap: Heap, a: Address, t: Type, path: seq<int>)
    requires Stands(heap, a, t) && TypedPath(t, path) && At(MeaningAt(heap, a, t), path).Some?
    requires TypeAt(t, path).Collection?
    ensures Load(heap, Reached(heap, a, t, path)).Inline?
    ensures Updated(heap, Store(heap, Reached(heap, a, t, path), Inline(map[])), a, t,
                    Put(MeaningAt(heap, a, t), path, Node(map[])))
  {
    UpdateIsUpdate(heap, a, t, path, Inline(map[]), map[]);
  }

  /** The chain for a fully qualified size, or for has, asks the collection at the end of the path. */
  lemma SizeIsSizeHasIsHas(heap: Heap, a: Address, t: Type, path: seq<int>, i: int)
    requires Stands(heap, a, t) && TypedPath(t, path) && At(MeaningAt(heap, a, t), path).Some?
    requires TypeAt(t, path).Collection?
    ensures var s, v := Load(heap, Reached(heap, a, t, path)), At(MeaningAt(heap, a, t), path).value;
      s.Inline? && v.Node? && |s.parts| == |v.parts| && (i in s.parts <==> i in v.parts)
  {
    var s, v := Load(heap, Reached(heap, a, t, path)), At(MeaningAt(heap, a, t), path).value;
    assert v.parts.Keys == s.parts.Keys;
  }

  // ---- the visitors: the indices split, the chain run, the operation performed ----

  /** What the emitted read gets. */
  ghost function ReadAlong(heap: Heap, a: Address, info: NestedObject): Option<Stored> {
    match PerformAll(heap, a, info.chain)
    case None => None
    case Some(b) => FinalRead(heap, b, info.suffix)
  }

  datatype Mutation = Write(n: int) | Insert(n: int) | Remove | Clear

  /** The parts that a mutating operation leaves of an object, given the indices that are left over for it. */
  function Mutate(t: Type, parts: map<int, Stored>, suffix: seq<int>, op: Mutation): Option<map<int, Stored>> {
    match op
    case Write(n) => if |suffix| == 1 && suffix[0] in parts then Some(parts[suffix[0] := Word(n)]) else None
    case Insert(n) =>
      if |suffix| == 1 && t.Collection? then Some(Inserted(t.keyed, parts, suffix[0], Word(n))) else None
    case Remove => if |suffix| == 1 && t.Collection? then Some(Removed(t.keyed, parts, suffix[0])) else None
    case Clear => if suffix == [] && t.Collection? then Some(map[]) else None
  }

  /** What the emitted chain and operation make of memory. */
  ghost function MutateAlong(heap: Heap, a: Address, info: NestedObject, op: Mutation): Option<Heap> {
    match PerformAll(heap, a, info.chain)
    case None => None
    case Some(b) =>
      if !Valid(heap, b) || !Load(heap, b).Inline? then None
      else
        match Mutate(info.type_, Load(heap, b).parts, info.suffix, op)
        case None => None
        case Some(parts) => Some(Store(heap, b, Inline(parts)))
  }

  ghost predicate CanFollow(heap: Heap, a: Address, t: Type, path: seq<int>) {
    Stands(heap, a, t) && TypedPath(t, path) && At(MeaningAt(heap, a, t), path).Some?
  }

  /** The whole object afterwards is `v`. */
  ghost predicate Becomes(heap: Heap, heap': Option<Heap>, a: Address, t: Type, v: Nest) {
    heap'.Some? && Updated(heap, heap'.value, a, t, v)
  }

  lemma SplitLast(t: Type, path: seq<int>, i: int)
    requires TypedPath(t, path) && HasChild(TypeAt(t, path), i)
    ensures TypedPath(t, path + [i]) && TypeAt(t, path + [i]) == ChildType(TypeAt(t, path), i)
    ensures LastContainer(t, path + [i]) == TypeAt(t, path)
    ensures (path + [i])[..|path|] == path && (path + [i])[|path|..] == [i]
    decreases |path|
  {
    assert (path + [i])[..|path|] == path;
    if path == [] {
      assert (path + [i])[1..] == [];
    } else {
      assert (path + [i])[1..] == path[1..] + [i];
      SplitLast(ChildType(t, path[0]), path[1..], i);
      assert (path + [i])[0] == path[0];
      PathStep(t, path + [i], |path|);
    }
  }

  /** A read of a word, emitted for any path to one, reads along the whole path. */
  method VisitRead(t: Type, indices: seq<int>, ghost heap: Heap, ghost a: Address) returns (info: NestedObject)
    requires indices != [] && CanFollow(heap, a, t, indices) && TypeAt(t, indices).Primitive?
    ensures var read := ReadAlong(heap, a, info);
      read.Some? && read.value.Word? && At(MeaningAt(heap, a, t), indices) == Some(Scalar(read.value.n))
  {
    Outer(MeaningAt(heap, a, t), t, indices);
    var nested := GetNestedObject(t, indices, false);
    ReadIsRead(heap, a, t, indices);
    return nested.value;
  }

  /** A write of a word puts it at the end of the whole path. */
  method VisitWrite(t: Type, indices: seq<int>, n: int, ghost heap: Heap, ghost a: Address) returns (info: NestedObject)
    requires indices != [] && CanFollow(heap, a, t, indices) && TypeAt(t, indices).Primitive?
    ensures Becomes(heap, MutateAlong(heap, a, info, Write(n)), a, t, Put(MeaningAt(heap, a, t), indices, Scalar(n)))
  {
    Outer(MeaningAt(heap, a, t), t, indices);
    var nested := GetNestedObject(t, indices, false);
    WriteIsWrite(heap, a, t, indices, n);
    return nested.value;
  }

  /** An insert of a word inserts it into the collection that all but the last index lead to. */
  method VisitInsert(t: Type, path: seq<int>, i: int, n: int, ghost heap: Heap, ghost a: Address)
    returns (info: NestedObject)
    requires CanFollow(heap, a, t, path) && TypeAt(t, path).Collection? && TypeAt(t, path).element.Primitive?
    ensures var v := MeaningAt(heap, a, t);
      && At(v, path).value.Node?
      && Becomes(heap, MutateAlong(heap, a, info, Insert(n)), a, t,
                 Put(v, path, Node(Inserted(TypeAt(t, path).keyed, At(v, path).value.parts, i, Scalar(n)))))
  {
    SplitLast(t, path, i);
    var nested := GetNestedObject(t, path + [i], false);
    InsertIsInsert(heap, a, t, path, i, n);
    return nested.value;
  }

  /** A remove takes the element away from the collection that all but the last index lead to. */
  method VisitRemove(t: Type, path: seq<int>, i: int, ghost heap: Heap, ghost a: Address) returns (info: NestedObject)
    requires CanFollow(heap, a, t, path) && TypeAt(t, path).Collection?
    ensures var v := MeaningAt(heap, a, t);
      && At(v, path).value.Node?
      && Becomes(heap, MutateAlong(heap, a, info, Remove), a, t,
                 Put(v, path, Node(Removed(TypeAt(t, path).keyed, At(v, path).value.parts, i))))
  {
    SplitLast(t, path, i);
    var nested := GetNestedObject(t, path + [i], false);
    RemoveIsRemove(heap, a, t, path, i);
    return nested.value;
  }

  lemma NothingLeft(t: Type, path: seq<int>)
    requires TypedPath(t, path) && TypeAt(t, path).Collection?
    ensures !LeavesOne(t, path, true) && path[..|path|] == path && path[|path|..] == []
  {
    if path != [] {
      PathStep(t, path, |path| - 1);
      assert path[..|path| - 1 + 1] == path;
    }
  }

  /** A clear empties the collection at the end of the whole path. */
  method VisitClear(t: Type, indices: seq<int>, ghost heap: Heap, ghost a: Address) returns (info: NestedObject)
    requires CanFollow(heap, a, t, indices) && TypeAt(t, indices).Collection?
    ensures Becomes(heap, MutateAlong(heap, a, info, Clear), a, t, Put(MeaningAt(heap, a, t), indices, Node(map[])))
  {
    NothingLeft(t, indices);
    var nested := GetNestedObject(t, indices, true);
    ClearIsClear(heap, a, t, indices);
    return nested.value;
  }

  /** What the emitted size and has answer. */
  ghost function SizeAlong(heap: Heap, a: Address, info: NestedObject): Option<nat> {
    match PerformAll(heap, a, info.chain)
    case None => None
    case Some(b) =>
      if info.suffix == [] && Valid(heap, b) && Load(heap, b).Inline? then Some(|Load(heap, b).parts|) else None
  }

  ghost function HasAlong(heap: Heap, a: Address, info: NestedObject): Option<bool> {
    match PerformAll(heap, a, info.chain)
    case None => None
    case Some(b) =>
      if |info.suffix| == 1 && Valid(heap, b) && Load(heap, b).Inline? then Some(info.suffix[0] in Load(heap, b).parts)
      else None
  }

  /** A size asks the collection at the end of the whole path. */
  method VisitSize(t: Type, indices: seq<int>, ghost heap: Heap, ghost a: Address) returns (info: NestedObject)
    requires CanFollow(heap, a, t, indices) && TypeAt(t, indices).Collection?
    ensures var v := At(MeaningAt(heap, a, t), indices).value;
      v.Node? && SizeAlong(heap, a, info) == Some(|v.parts|)
  {
    NothingLeft(t, indices);
    var nested := GetNestedObject(t, indices, true);
    SizeIsSizeHasIsHas(heap, a, t, indices, 0);
    return nested.value;
  }

  /** A has asks the collection that all but the last index lead to for the last. */
  method VisitHas(t: Type, path: seq<int>, i: int, ghost heap: Heap, ghost a: Address) returns (info: NestedObject)
    requires CanFollow(heap, a, t, path) && TypeAt(t, path).Collection?
    ensures var v := At(MeaningAt(heap, a, t), path).value;
      v.Node? && HasAlong(heap, a, info) == Some(i in v.parts)
  {
    SplitLast(t, path, i);
    var nested := GetNestedObject(t, path + [i], false);
    SizeIsSizeHasIsHas(heap, a, t, path, i);
    return nested.value;
  }
}
