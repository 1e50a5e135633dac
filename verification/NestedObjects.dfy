/**
  How nested objects lie in memory. Fields of tuples, and tuples in collections, lie
  inside the object that holds them; collections in collections are held by pointer. What
  an object means is the tree of values that hangs below it, as long as no two of its
  parts share a cell.
 */
module NestedObjects {

  /** A collection is keyed, or a sequence whose elements move when one is inserted or removed. */
  datatype Type = Primitive | Tuple(fields: seq<Type>) | Collection(element: Type, keyed: bool)

  datatype Cell = Cell(id: nat)

  datatype Stored = Word(n: int) | Pointer(cell: Cell) | Inline(parts: map<int, Stored>)

  type Heap = map<Cell, Stored>

  /** The value of an object: the fields of a tuple or the elements of a collection, by position. */
  datatype Nest = Scalar(n: int) | Node(parts: map<int, Nest>)

  predicate HasChild(t: Type, i: int) {
    t.Collection? || (t.Tuple? && 0 <= i < |t.fields|)
  }

  function ChildType(t: Type, i: int): (c: Type)
    requires HasChild(t, i)
    ensures c < t
  {
    if t.Tuple? then t.fields[i] else t.element
  }

  /** What a type holds by pointer. */
  predicate ByPointer(t: Type) {
    t.Collection? && t.element.Collection?
  }

  /** What is stored for the `i`-th part of an object, behind the pointer if there is one. */
  predicate Reaches(heap: Heap, t: Type, s: Stored, i: int) {
    s.Inline? && i in s.parts && HasChild(t, i) && (ByPointer(t) ==> s.parts[i].Pointer? && s.parts[i].cell in heap)
  }

  function Child(heap: Heap, t: Type, s: Stored, i: int): Stored
    requires Reaches(heap, t, s, i)
  {
    if ByPointer(t) then heap[s.parts[i].cell] else s.parts[i]
  }

  ghost predicate ChildTyped(heap: Heap, t: Type, s: Stored, i: int)
    decreases t, 0
  {
    Reaches(heap, t, s, i) && Typed(heap, ChildType(t, i), Child(heap, t, s, i))
  }

  ghost predicate Typed(heap: Heap, t: Type, s: Stored)
    decreases t, 1
  {
    if t.Primitive? then s.Word?
    else
      && s.Inline? && (t.Tuple? ==> forall i :: i in s.parts <==> 0 <= i < |t.fields|)
      && forall i {:trigger ChildTyped(heap, t, s, i)} :: i in s.parts ==> ChildTyped(heap, t, s, i)
  }

  ghost function Meaning(heap: Heap, t: Type, s: Stored): Nest
    requires Typed(heap, t, s)
    decreases t, 1
  {
    if t.Primitive? then Scalar(s.n)
    else Node(map i | i in s.parts :: ChildMeaning(heap, t, s, i))
  }

  ghost function ChildMeaning(heap: Heap, t: Type, s: Stored, i: int): Nest
    requires !t.Primitive? && Typed(heap, t, s) && i in s.parts
    decreases t, 0
  {
    assert ChildTyped(heap, t, s, i);
    Meaning(heap, ChildType(t, i), Child(heap, t, s, i))
  }

  // ---- the cells below an object ----

  ghost function Cells(heap: Heap, t: Type, s: Stored): set<Cell>
    decreases t, 1
  {
    if t.Primitive? || !s.Inline? then {} else set i, c | i in s.parts && c in ChildCells(heap, t, s, i) :: c
  }

  ghost function ChildCells(heap: Heap, t: Type, s: Stored, i: int): set<Cell>
    decreases t, 0
  {
    if !Reaches(heap, t, s, i) then {}
    else (if ByPointer(t) then {s.parts[i].cell} else {}) + Cells(heap, ChildType(t, i), Child(heap, t, s, i))
  }

  ghost predicate Apart(heap: Heap, t: Type, s: Stored, i: int, j: int) {
    i != j ==> ChildCells(heap, t, s, i) !! ChildCells(heap, t, s, j)
  }

  ghost predicate ChildSeparate(heap: Heap, t: Type, s: Stored, i: int)
    decreases t, 0
  {
    Reaches(heap, t, s, i) ==>
      && Separate(heap, ChildType(t, i), Child(heap, t, s, i))
      && (ByPointer(t) ==> s.parts[i].cell !in Cells(heap, ChildType(t, i), Child(heap, t, s, i)))
  }

  /** No two parts share a cell: what hangs below an object is a tree. */
  ghost predicate Separate(heap: Heap, t: Type, s: Stored)
    decreases t, 1
  {
    t.Primitive? || !s.Inline? ||
    ((forall i {:trigger ChildSeparate(heap, t, s, i)} :: i in s.parts ==> ChildSeparate(heap, t, s, i))
     && forall i, j {:trigger Apart(heap, t, s, i, j)} :: i in s.parts && j in s.parts ==> Apart(heap, t, s, i, j))
  }

  /** The cells in `kept` hold the same in both heaps. */
  ghost predicate SameOn(heap: Heap, heap': Heap, kept: set<Cell>) {
    forall c :: c in kept ==> c in heap && c in heap' && heap[c] == heap'[c]
  }

  /** All that one object is, as far as the objects above it care. */
  ghost predicate SameObject(heap: Heap, heap': Heap, t: Type, s: Stored)
    requires Typed(heap, t, s)
  {
    && Typed(heap', t, s) && Meaning(heap', t, s) == Meaning(heap, t, s)
    && Cells(heap', t, s) == Cells(heap, t, s) && (Separate(heap, t, s) ==> Separate(heap', t, s))
  }

  ghost predicate SameChild(heap: Heap, heap': Heap, t: Type, s: Stored, i: int)
    requires Reaches(heap, t, s, i)
  {
    && Reaches(heap', t, s, i) && Child(heap', t, s, i) == Child(heap, t, s, i)
    && Typed(heap, ChildType(t, i), Child(heap, t, s, i))
    && SameObject(heap, heap', ChildType(t, i), Child(heap, t, s, i))
  }

  lemma ChildCellsWithin(heap: Heap, t: Type, s: Stored, i: int)
    requires !t.Primitive? && s.Inline? && i in s.parts
    ensures ChildCells(heap, t, s, i) <= Cells(heap, t, s)
  {
  }

  /** A part keeps its meaning when the cells below it do not change. */
  lemma {:induction false} ChildFrame(heap: Heap, heap': Heap, t: Type, s: Stored, i: int)
    requires ChildTyped(heap, t, s, i) && SameOn(heap, heap', ChildCells(heap, t, s, i))
    ensures SameChild(heap, heap', t, s, i) && ChildCells(heap', t, s, i) == ChildCells(heap, t, s, i)
    ensures ChildSeparate(heap, t, s, i) ==> ChildSeparate(heap', t, s, i)
    decreases t, 0
  {
    Frame(heap, heap', ChildType(t, i), Child(heap, t, s, i));
  }

  /** An object keeps its meaning when the cells below it do not change. */
  lemma {:induction false} Frame(heap: Heap, heap': Heap, t: Type, s: Stored)
    requires Typed(heap, t, s) && SameOn(heap, heap', Cells(heap, t, s))
    ensures SameObject(heap, heap', t, s)
    decreases t, 1
  {
    if !t.Primitive? {
      forall i | i in s.parts
        ensures ChildTyped(heap, t, s, i) && SameChild(heap, heap', t, s, i)
        ensures ChildTyped(heap', t, s, i) && ChildCells(heap', t, s, i) == ChildCells(heap, t, s, i)
        ensures ChildSeparate(heap, t, s, i) ==> ChildSeparate(heap', t, s, i)
      {
        assert ChildTyped(heap, t, s, i);
        ChildCellsWithin(heap, t, s, i);
        ChildFrame(heap, heap', t, s, i);
      }
      FrameParts(heap, heap', t, s);
    }
  }

  lemma FrameParts(heap: Heap, heap': Heap, t: Type, s: Stored)
    requires !t.Primitive? && Typed(heap, t, s)
    requires forall i {:trigger ChildTyped(heap', t, s, i)} :: i in s.parts ==>
               && ChildTyped(heap, t, s, i) && SameChild(heap, heap', t, s, i)
               && ChildTyped(heap', t, s, i) && ChildCells(heap', t, s, i) == ChildCells(heap, t, s, i)
               && (ChildSeparate(heap, t, s, i) ==> ChildSeparate(heap', t, s, i))
    ensures SameObject(heap, heap', t, s)
  {
    assert forall i {:trigger ChildTyped(heap', t, s, i)} :: i in s.parts ==> ChildTyped(heap', t, s, i);
    assert Typed(heap', t, s);
    forall i | i in s.parts ensures ChildMeaning(heap', t, s, i) == ChildMeaning(heap, t, s, i) {
      assert ChildTyped(heap', t, s, i);
    }
    assert Cells(heap', t, s) == Cells(heap, t, s) by {
      assert forall i :: i in s.parts ==> ChildTyped(heap', t, s, i);
    }
    if Separate(heap, t, s) {
      forall i {:trigger ChildSeparate(heap', t, s, i)} | i in s.parts ensures ChildSeparate(heap', t, s, i) {
        assert ChildTyped(heap', t, s, i) && ChildSeparate(heap, t, s, i);
      }
      forall i, j {:trigger Apart(heap', t, s, i, j)} | i in s.parts && j in s.parts ensures Apart(heap', t, s, i, j) {
        assert ChildTyped(heap', t, s, i) && ChildTyped(heap', t, s, j) && Apart(heap, t, s, i, j);
      }
    }
  }
}
