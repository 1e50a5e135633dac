/** The layout of a tuple, whose bit fields share integers. */
module TypeLayout {
  import opened NextSize
  import opened Powers

  /** The layout of a field's type: a bit field, or a type of its own. */
  datatype Field = Bits(width: nat) | Whole(kind: nat)

  /** A struct element: a field's own type, or an integer that a run of bit fields shares. */
  datatype Element = Own(field: nat) | Shared(width: nat)

  datatype Layout = Layout(offsets: seq<nat>, ranges: map<nat, (nat, nat)>, elements: seq<Element>)

  /** An integer whose width is not its rounded size is a bit field. */
  function VisitIntegerType(bitwidth: nat): Field {
    if bitwidth == GetNextSize(bitwidth) then Whole(bitwidth) else Bits(bitwidth)
  }

  /** An integer is a bit field exactly when its width is no power of two bytes. */
  lemma BitFieldIff(w: nat)
    requires w >= 1
    ensures VisitIntegerType(w).Bits? <==> forall k :: w != 8 * Pow2(k)
  {
    if w >= 8 {
      SmearFixedIff(w / 8 - 1);
      if k: nat :| w / 8 - 1 == Pow2(k) - 1 {
        assert w == 8 * Pow2(k) <==> w % 8 == 0;
      }
    } else {
      assert forall k :: 8 * Pow2(k) >= 8;
    }
  }

  predicate IsSize(n: nat) {
    n == 8 || n == 16 || n == 32 || n == 64 || n == 128
  }

  ghost predicate WellFormed(fields: seq<Field>) {
    forall i :: 0 <= i < |fields| && fields[i].Bits? ==> fields[i].width >= 1
  }

  // ---- runs of bit fields ----

  /** The width of the open run before the `i`-th field. */
  function RunBefore(fields: seq<Field>, i: nat): nat
    requires i <= |fields|
    decreases i, 0
  {
    if i == 0 then 0 else if Completes(fields, i - 1) then 0 else RunWith(fields, i - 1)
  }

  /** The width of the run that the `i`-th field is in, up to its own end. */
  function RunWith(fields: seq<Field>, i: nat): nat
    requires i < |fields|
    decreases i, 1
  {
    if fields[i].Bits? then RunBefore(fields, i) + fields[i].width else 0
  }

  /** The `i`-th field fills its run up to the size of an integer type. */
  predicate Completes(fields: seq<Field>, i: nat)
    requires i < |fields|
    decreases i, 1
  {
    fields[i].Bits? && IsSize(RunBefore(fields, i) + fields[i].width)
  }

  /** The `i`-th field completes no run. */
  predicate LeavesOpen(fields: seq<Field>, i: nat) {
    i < |fields| ==> !Completes(fields, i)
  }

  lemma RunStep(fields: seq<Field>, n: nat)
    requires n < |fields|
    ensures RunBefore(fields, n + 1) == if Completes(fields, n) then 0 else RunWith(fields, n)
  {
  }

  // ---- what a layout has to be ----

  ghost predicate Disjoint(fields: seq<Field>, l: Layout, i: nat, j: nat) {
    i < j < |l.offsets| && j < |fields| && l.offsets[i] == l.offsets[j] ==>
      && fields[i].Bits? && fields[j].Bits? && i in l.ranges && j in l.ranges
      && l.ranges[i].1 <= l.ranges[j].0
  }

  ghost predicate HasRange(fields: seq<Field>, l: Layout, i: nat) {
    i < |l.offsets| && i < |fields| && fields[i].Bits? ==>
      i in l.ranges && l.ranges[i].0 + fields[i].width == l.ranges[i].1
  }

  /** The element at a field's offset was made for it: its own type, or the integer of its run. */
  ghost predicate MadeFor(fields: seq<Field>, l: Layout, i: nat) {
    i < |l.offsets| && i < |fields| ==>
      && l.offsets[i] < |l.elements|
      && if fields[i].Bits? then l.elements[l.offsets[i]].Shared? else l.elements[l.offsets[i]] == Own(i)
  }

  /** The integer at a bit field's offset holds all its bits. */
  ghost predicate WideEnough(fields: seq<Field>, l: Layout, i: nat) {
    i < |l.offsets| && i < |fields| && fields[i].Bits? && i in l.ranges ==>
      l.offsets[i] < |l.elements| && l.elements[l.offsets[i]].Shared? && l.ranges[i].1 <= l.elements[l.offsets[i]].width
  }

  // ---- what holds while the fields are gone through ----

  /** Only bit fields of the open run are at the current offset. */
  ghost predicate InRun(fields: seq<Field>, l: Layout, offset: nat, width: nat, i: nat) {
    i < |l.offsets| && i < |fields| ==>
      && l.offsets[i] <= offset
      && (l.offsets[i] == offset ==> fields[i].Bits? && width > 0 && i in l.ranges && l.ranges[i].1 <= width)
  }

  ghost predicate Open(fields: seq<Field>, l: Layout, offset: nat, width: nat, n: nat) {
    n <= |fields| && width == RunBefore(fields, n) && Placed(fields, l, offset, width, n)
  }

  ghost predicate Placed(fields: seq<Field>, l: Layout, offset: nat, width: nat, n: nat) {
    && |l.offsets| == n <= |fields|
    && (forall i: nat {:trigger InRun(fields, l, offset, width, i)} :: InRun(fields, l, offset, width, i))
    && (forall i: nat, j: nat {:trigger Disjoint(fields, l, i, j)} :: Disjoint(fields, l, i, j))
    && (forall i: nat {:trigger HasRange(fields, l, i)} :: HasRange(fields, l, i))
    && (width > 0 ==> n > 0 && fields[n - 1].Bits? && l.offsets[n - 1] == offset
                      && n - 1 in l.ranges && l.ranges[n - 1].1 == width)
  }

  ghost predicate Built(fields: seq<Field>, l: Layout, offset: nat, i: nat) {
    i < |l.offsets| && l.offsets[i] < offset ==> MadeFor(fields, l, i) && WideEnough(fields, l, i)
  }

  ghost predicate BuiltBelow(fields: seq<Field>, l: Layout, offset: nat, i: nat) {
    i < |l.offsets| && l.offsets[i] < offset && MadeFor(fields, l, i) && WideEnough(fields, l, i)
  }

  /** No field has completed a run: there is one element for each offset, made for the fields there. */
  ghost predicate Clean(fields: seq<Field>, l: Layout, offset: nat, n: nat) {
    && |l.elements| == offset
    && (forall i: nat {:trigger Built(fields, l, offset, i)} :: Built(fields, l, offset, i))
    && forall i: nat {:trigger LeavesOpen(fields, i)} :: i < n ==> LeavesOpen(fields, i)
  }

  /** The `f`-th field was the first to complete a run, and left an element that no offset stands for. */
  ghost predicate Spoiled(fields: seq<Field>, l: Layout, offset: nat, width: nat, n: nat, f: nat) {
    && f < n == |l.offsets| <= |fields| && Completes(fields, f) &&
        (forall i: nat {:trigger LeavesOpen(fields, i)} :: i < f ==> LeavesOpen(fields, i))
    && (forall i: nat {:trigger BuiltBelow(fields, l, offset, i)} :: i <= f ==> BuiltBelow(fields, l, offset, i))
    && l.offsets[f] + 1 < |l.elements| && l.elements[l.offsets[f] + 1] == Own(f)
    && (if f + 1 < n then l.offsets[f + 1] == l.offsets[f] + 1 else offset == l.offsets[f] + 1 && width == 0)
  }

  /** `l'` says the same as `l` about the first `n` fields, and has at least its elements. */
  ghost predicate Continues(l: Layout, l': Layout, n: nat) {
    && n == |l.offsets| <= |l'.offsets| && l.offsets <= l'.offsets && l.elements <= l'.elements
    && forall i :: 0 <= i < n ==>
        ((i in l.ranges <==> i in l'.ranges) && (i in l.ranges ==> l'.ranges[i] == l.ranges[i]))
  }

  lemma BuiltStays(fields: seq<Field>, l: Layout, l': Layout, offset: nat, offset': nat, n: nat, i: nat)
    requires Continues(l, l', n) && i < n <= |fields| && BuiltBelow(fields, l, offset, i) && offset <= offset'
    ensures BuiltBelow(fields, l', offset', i)
  {
  }

  lemma SpoiledStays(fields: seq<Field>, l: Layout, l': Layout, offset: nat, width: nat, offset': nat, width': nat,
          n: nat, f: nat)
    requires Spoiled(fields, l, offset, width, n, f) && Continues(l, l', n) && offset <= offset'
    requires |l'.offsets| == n + 1 <= |fields| && (width == 0 ==> l'.offsets[n] == offset)
    ensures Spoiled(fields, l', offset', width', n + 1, f)
  {
    forall i: nat {:trigger BuiltBelow(fields, l', offset', i)} | i <= f ensures BuiltBelow(fields, l', offset', i) {
      assert BuiltBelow(fields, l, offset, i);
      BuiltStays(fields, l, l', offset, offset', n, i);
    }
  }

  // ---- the four ways to place a field ----

  function AddBits(l: Layout, n: nat, offset: nat, width: nat, w: nat): Layout {
    Layout(l.offsets + [offset], l.ranges[n := (width, width + w)], l.elements)
  }

  function AddOwn(l: Layout, n: nat, offset: nat): Layout {
    Layout(l.offsets + [offset], l.ranges, l.elements + [Own(n)])
  }

  function AddElement(l: Layout, e: Element): Layout {
    l.(elements := l.elements + [e])
  }

  /** A field of its own type, when no run is open. */
  lemma PlaceOwn(fields: seq<Field>, l: Layout, offset: nat, n: nat)
    requires n < |fields| && Placed(fields, l, offset, 0, n) && !fields[n].Bits?
    ensures Open(fields, AddOwn(l, n, offset), offset + 1, 0, n + 1)
    ensures Clean(fields, l, offset, n) ==> Clean(fields, AddOwn(l, n, offset), offset + 1, n + 1)
    ensures forall f: nat :: Spoiled(fields, l, offset, 0, n, f) ==>
        Spoiled(fields, AddOwn(l, n, offset), offset + 1, 0, n + 1, f)
  {
    var l' := AddOwn(l, n, offset);
    RunStep(fields, n);
    forall i: nat {:trigger InRun(fields, l', offset + 1, 0, i)} ensures InRun(fields, l', offset + 1, 0, i) {
      assert InRun(fields, l, offset, 0, i);
    }
    forall i: nat, j: nat {:trigger Disjoint(fields, l', i, j)} ensures Disjoint(fields, l', i, j) {
      assert Disjoint(fields, l, i, j) && InRun(fields, l, offset, 0, i);
    }
    forall i: nat {:trigger HasRange(fields, l', i)} ensures HasRange(fields, l', i) {
      assert HasRange(fields, l, i);
    }
    if Clean(fields, l, offset, n) {
      forall i: nat {:trigger Built(fields, l', offset + 1, i)} ensures Built(fields, l', offset + 1, i) {
        assert Built(fields, l, offset, i) && InRun(fields, l, offset, 0, i);
        if i < n {
          BuiltStays(fields, l, l', offset, offset + 1, n, i);
        }
      }
    }
    forall f: nat | Spoiled(fields, l, offset, 0, n, f) ensures Spoiled(fields, l', offset + 1, 0, n + 1, f) {
      SpoiledStays(fields, l, l', offset, 0, offset + 1, 0, n, f);
    }
  }

  /** A bit field that leaves its run open. */
  lemma PlaceBits(fields: seq<Field>, l: Layout, offset: nat, width: nat, n: nat)
    requires n < |fields| && WellFormed(fields) && Open(fields, l, offset, width, n)
    requires fields[n].Bits? && !Completes(fields, n)
    ensures Open(fields, AddBits(l, n, offset, width, fields[n].width), offset, width + fields[n].width, n + 1)
  {
    var l', width' := AddBits(l, n, offset, width, fields[n].width), width + fields[n].width;
    BitsApart(fields, l, offset, width, n);
    RunStep(fields, n);
    forall i: nat {:trigger InRun(fields, l', offset, width', i)} ensures InRun(fields, l', offset, width', i) {
      assert InRun(fields, l, offset, width, i);
    }
  }

  lemma BitsClean(fields: seq<Field>, l: Layout, offset: nat, width: nat, n: nat)
    requires n < |fields| && Open(fields, l, offset, width, n) && !Completes(fields, n) && Clean(fields, l, offset, n)
    ensures Clean(fields, AddBits(l, n, offset, width, if fields[n].Bits? then fields[n].width else 0), offset, n + 1)
  {
    var l' := AddBits(l, n, offset, width, if fields[n].Bits? then fields[n].width else 0);
    forall i: nat {:trigger Built(fields, l', offset, i)} ensures Built(fields, l', offset, i) {
      assert Built(fields, l, offset, i);
      if i < n && l.offsets[i] < offset {
        BuiltStays(fields, l, l', offset, offset, n, i);
      }
    }
  }

  /** The range of a new bit field begins where those at its offset end. */
  lemma BitsApart(fields: seq<Field>, l: Layout, offset: nat, width: nat, n: nat)
    requires n < |fields| && Open(fields, l, offset, width, n) && fields[n].Bits?
    ensures var l' := AddBits(l, n, offset, width, fields[n].width);
      && (forall i: nat, j: nat {:trigger Disjoint(fields, l', i, j)} :: Disjoint(fields, l', i, j))
      && (forall i: nat {:trigger HasRange(fields, l', i)} :: HasRange(fields, l', i))
  {
    var l' := AddBits(l, n, offset, width, fields[n].width);
    forall i: nat, j: nat {:trigger Disjoint(fields, l', i, j)} ensures Disjoint(fields, l', i, j) {
      assert Disjoint(fields, l, i, j) && InRun(fields, l, offset, width, i);
    }
    forall i: nat {:trigger HasRange(fields, l', i)} ensures HasRange(fields, l', i) {
      assert HasRange(fields, l, i);
    }
  }

  /** What a bit field that completes its run leaves: the run's integer, and an element too many. */
  function Complete(l: Layout, n: nat, offset: nat, width: nat, w: nat): Layout {
    AddElement(AddElement(AddBits(l, n, offset, width, w), Shared(width + w)), Own(n))
  }

  lemma CompleteOpen(fields: seq<Field>, l: Layout, offset: nat, width: nat, n: nat)
    requires n < |fields| && WellFormed(fields) && Open(fields, l, offset, width, n) && Completes(fields, n)
    ensures Open(fields, Complete(l, n, offset, width, fields[n].width), offset + 1, 0, n + 1)
  {
    var added := AddBits(l, n, offset, width, fields[n].width);
    var l' := Complete(l, n, offset, width, fields[n].width);
    BitsApart(fields, l, offset, width, n);
    RunStep(fields, n);
    forall i: nat {:trigger InRun(fields, l', offset + 1, 0, i)} ensures InRun(fields, l', offset + 1, 0, i) {
      assert InRun(fields, l, offset, width, i);
    }
    forall i: nat, j: nat {:trigger Disjoint(fields, l', i, j)} ensures Disjoint(fields, l', i, j) {
      assert Disjoint(fields, added, i, j);
    }
    forall i: nat {:trigger HasRange(fields, l', i)} ensures HasRange(fields, l', i) {
      assert HasRange(fields, added, i);
    }
  }

  lemma CompleteBuilt(fields: seq<Field>, l: Layout, offset: nat, width: nat, n: nat, i: nat)
    requires n < |fields| && Open(fields, l, offset, width, n) && Completes(fields, n) && |l.elements| == offset
    requires i <= n && Built(fields, l, offset, i)
    ensures BuiltBelow(fields, Complete(l, n, offset, width, fields[n].width), offset + 1, i)
  {
    var l' := Complete(l, n, offset, width, fields[n].width);
    assert l'.elements[offset] == Shared(width + fields[n].width) && l'.offsets[n] == offset;
    assert l'.ranges[n] == (width, width + fields[n].width);
    assert InRun(fields, l, offset, width, i);
    if i < n {
      assert l'.offsets[i] == l.offsets[i];
      if l.offsets[i] < offset {
        BuiltStays(fields, l, l', offset, offset + 1, n, i);
      } else {
        assert l'.ranges[i] == l.ranges[i];
      }
    }
  }

  /** The first field to complete a run spoils the layout for the field that comes next. */
  lemma CompleteSpoils(fields: seq<Field>, l: Layout, offset: nat, width: nat, n: nat)
    requires n < |fields| && Open(fields, l, offset, width, n) && Completes(fields, n) && Clean(fields, l, offset, n)
    ensures Spoiled(fields, Complete(l, n, offset, width, fields[n].width), offset + 1, 0, n + 1, n)
  {
    var l' := Complete(l, n, offset, width, fields[n].width);
    forall i: nat {:trigger BuiltBelow(fields, l', offset + 1, i)} | i <= n
      ensures BuiltBelow(fields, l', offset + 1, i)
    {
      assert Built(fields, l, offset, i);
      CompleteBuilt(fields, l, offset, width, n, i);
    }
  }

  /** The spoiled layout stays spoiled whatever comes after. */
  lemma CompleteSpoiled(fields: seq<Field>, l: Layout, offset: nat, width: nat, n: nat, f: nat)
    requires n < |fields| && Open(fields, l, offset, width, n) && Completes(fields, n)
    requires Spoiled(fields, l, offset, width, n, f)
    ensures Spoiled(fields, Complete(l, n, offset, width, fields[n].width), offset + 1, 0, n + 1, f)
  {
    SpoiledStays(fields, l, Complete(l, n, offset, width, fields[n].width), offset, width, offset + 1, 0, n, f);
  }

  /** A run that ends gets its integer; it is wide enough if the integer is. */
  lemma Commit(fields: seq<Field>, l: Layout, offset: nat, width: nat, n: nat, size: nat)
    requires Placed(fields, l, offset, width, n) && width > 0
    ensures Placed(fields, AddElement(l, Shared(size)), offset + 1, 0, n)
    ensures Clean(fields, l, offset, n) && width <= size ==> Clean(fields, AddElement(l, Shared(size)), offset + 1, n)
    ensures forall f: nat :: Spoiled(fields, l, offset, width, n, f) ==>
              f + 1 < n && Spoiled(fields, AddElement(l, Shared(size)), offset + 1, 0, n, f)
  {
    var l' := AddElement(l, Shared(size));
    forall i: nat {:trigger InRun(fields, l', offset + 1, 0, i)} ensures InRun(fields, l', offset + 1, 0, i) {
      assert InRun(fields, l, offset, width, i);
    }
    forall i: nat, j: nat {:trigger Disjoint(fields, l', i, j)} ensures Disjoint(fields, l', i, j) {
      assert Disjoint(fields, l, i, j);
    }
    forall i: nat {:trigger HasRange(fields, l', i)} ensures HasRange(fields, l', i) {
      assert HasRange(fields, l, i);
    }
    if Clean(fields, l, offset, n) && width <= size {
      forall i: nat {:trigger Built(fields, l', offset + 1, i)} ensures Built(fields, l', offset + 1, i) {
        assert Built(fields, l, offset, i) && InRun(fields, l, offset, width, i);
      }
    }
    forall f: nat | Spoiled(fields, l, offset, width, n, f)
      ensures f + 1 < n && Spoiled(fields, l', offset + 1, 0, n, f)
    {
      forall i: nat {:trigger BuiltBelow(fields, l', offset + 1, i)} | i <= f
        ensures BuiltBelow(fields, l', offset + 1, i)
      {
        assert BuiltBelow(fields, l, offset, i);
      }
    }
  }

  // ---- the layout ----

  /** No field but the last completes a run. */
  ghost predicate NoneCompletesEarly(fields: seq<Field>) {
    forall i: nat {:trigger LeavesOpen(fields, i)} :: i < |fields| - 1 ==> LeavesOpen(fields, i)
  }

  ghost predicate AllMadeFor(fields: seq<Field>, l: Layout) {
    forall i: nat {:trigger MadeFor(fields, l, i)} :: MadeFor(fields, l, i)
  }

  ghost predicate AllWideEnough(fields: seq<Field>, l: Layout) {
    forall i: nat {:trigger WideEnough(fields, l, i)} :: WideEnough(fields, l, i)
  }

  /** Fields at one offset are bit fields with ranges that do not meet. */
  ghost predicate NoOverlap(fields: seq<Field>, l: Layout) {
    && (forall i: nat, j: nat {:trigger Disjoint(fields, l, i, j)} :: Disjoint(fields, l, i, j))
    && (forall i: nat {:trigger HasRange(fields, l, i)} :: HasRange(fields, l, i))
  }

  /** What the open run at the end gets. */
  function Close(l: Layout, width: nat): Layout {
    if width != 0 then AddElement(l, Shared(GetNextSize(width))) else l
  }

  lemma SpoiledNotMade(fields: seq<Field>, l: Layout, offset: nat, f: nat)
    requires Spoiled(fields, l, offset, 0, |fields|, f) && f + 1 < |fields|
    ensures !AllMadeFor(fields, l) && !NoneCompletesEarly(fields)
  {
    assert !MadeFor(fields, l, f + 1);
    assert !LeavesOpen(fields, f);
  }

  lemma SpoiledAtEnd(fields: seq<Field>, l: Layout, offset: nat)
    requires fields != [] && Spoiled(fields, l, offset, 0, |fields|, |fields| - 1)
    ensures AllMadeFor(fields, l) && AllWideEnough(fields, l) && NoneCompletesEarly(fields)
  {
    forall i: nat ensures MadeFor(fields, l, i) && WideEnough(fields, l, i) {
      assert i < |fields| ==> BuiltBelow(fields, l, offset, i);
    }
  }

  lemma CleanAtEnd(fields: seq<Field>, l: Layout, offset: nat, width: nat)
    requires Open(fields, l, offset, width, |fields|) && Clean(fields, l, offset, |fields|)
    ensures AllMadeFor(fields, Close(l, width)) && NoneCompletesEarly(fields)
    ensures AllWideEnough(fields, Close(l, width)) <==> width == 0 || width <= GetNextSize(width)
  {
    var l' := Close(l, width);
    forall i: nat ensures MadeFor(fields, l', i) {
      assert Built(fields, l, offset, i) && InRun(fields, l, offset, width, i);
    }
    if width == 0 || width <= GetNextSize(width) {
      forall i: nat ensures WideEnough(fields, l', i) {
        assert Built(fields, l, offset, i) && InRun(fields, l, offset, width, i);
      }
    } else {
      assert !WideEnough(fields, l', |fields| - 1);
    }
  }

  // ---- the way through the fields ----

  datatype Progress = Progress(layout: Layout, offset: nat, width: nat)

  /** Part of the way: either no run has been completed, or `first` was the first field to do so. */
  ghost predicate Going(fields: seq<Field>, p: Progress, n: nat, first: nat) {
    match p
    case Progress(l, offset, width) =>
      && Open(fields, l, offset, width, n)
      && if first < n then Spoiled(fields, l, offset, width, n, first) else Clean(fields, l, offset, n)
  }

  /** As `Going`, with no run open any more. */
  ghost predicate Between(fields: seq<Field>, p: Progress, n: nat, first: nat) {
    match p
    case Progress(l, offset, width) =>
      && Placed(fields, l, offset, width, n) && width == 0
      && if first < n then Spoiled(fields, l, offset, width, n, first) else Clean(fields, l, offset, n)
  }

  /** A run that is open when a field of its own type comes is given its integer. */
  function CommitRun(p: Progress): Progress {
    if p.width == 0 then p else Progress(AddElement(p.layout, Shared(p.width)), p.offset + 1, 0)
  }

  function PlaceField(fields: seq<Field>, n: nat, p: Progress): Progress
    requires n < |fields|
  {
    var f := fields[n];
    if !f.Bits? then Progress(AddOwn(p.layout, n, p.offset), p.offset + 1, 0)
    else if IsSize(p.width + f.width) then Progress(Complete(p.layout, n, p.offset, p.width, f.width), p.offset + 1, 0)
    else Progress(AddBits(p.layout, n, p.offset, p.width, f.width), p.offset, p.width + f.width)
  }

  /** The first `n` fields placed, one after the other. */
  function PlaceAll(fields: seq<Field>, n: nat): Progress
    requires n <= |fields|
  {
    if n == 0 then Progress(Layout([], map[], []), 0, 0)
    else
      var before := PlaceAll(fields, n - 1);
      PlaceField(fields, n - 1, if fields[n - 1].Bits? then before else CommitRun(before))
  }

  /** The layout of all fields. */
  function LayoutOf(fields: seq<Field>): Layout {
    Close(PlaceAll(fields, |fields|).layout, RunBefore(fields, |fields|))
  }

  lemma SizesAre(n: nat)
    ensures IsSize(n) <==> exists k: nat :: k <= 4 && n == 8 * Pow2(k)
  {
    assert Pow2(2) == 4;
    assert Pow2(3) == 8 && Pow2(4) == 16;
    if IsSize(n) {
      var k: nat := if n == 8 then 0 else if n == 16 then 1 else if n == 32 then 2 else if n == 64 then 3 else 4;
      assert n == 8 * Pow2(k);
    }
  }

  function SumOfWidths(fields: seq<Field>, start: nat, end: nat): nat
    requires start <= end <= |fields|
    decreases end
  {
    if start == end then 0 else SumOfWidths(fields, start, end - 1) + if fields[end - 1].Bits?
        then fields[end - 1].width else 0
  }

  /** A run is the sum of the widths of its fields: those since the last field that is no bit field or fills a size. */
  lemma {:induction false} RunIsSum(fields: seq<Field>, start: nat, end: nat)
    requires start <= end <= |fields|
    requires start > 0 ==> !fields[start - 1].Bits? || Completes(fields, start - 1)
    requires forall i :: start <= i < end ==> fields[i].Bits? && !Completes(fields, i)
    ensures RunBefore(fields, end) == SumOfWidths(fields, start, end)
    decreases end
  {
    if start < end {
      RunIsSum(fields, start, end - 1);
    }
  }

  lemma {:induction false} WidthIsRun(fields: seq<Field>, n: nat)
    requires n <= |fields|
    ensures PlaceAll(fields, n).width == RunBefore(fields, n)
  {
    if n > 0 {
      WidthIsRun(fields, n - 1);
    }
  }

  /**
    What one more field adds: a bit field gets the bits of its run that follow those before
    it; a run that it fills, or that a field of its own type ends, gets an integer exactly as
    wide as the run.
   */
  lemma FieldAdds(fields: seq<Field>, n: nat)
    requires n < |fields|
    ensures var l, l', run := PlaceAll(fields, n).layout, PlaceAll(fields, n + 1).layout, RunBefore(fields, n);
      && (fields[n].Bits? ==> n in l'.ranges && l'.ranges[n] == (run, run + fields[n].width))
      && (forall i :: i != n ==>
          ((i in l'.ranges <==> i in l.ranges) && (i in l.ranges ==> l'.ranges[i] == l.ranges[i])))
      && l'.elements == l.elements
         + if !fields[n].Bits? then (if run > 0 then [Shared(run)] else []) + [Own(n)]
           else if Completes(fields, n) then [Shared(run + fields[n].width), Own(n)]
           else []
  {
    WidthIsRun(fields, n);
    SizesAre(RunBefore(fields, n));
  }

  lemma GoCommit(fields: seq<Field>, p: Progress, n: nat, first: nat)
    requires Going(fields, p, n, first)
    ensures Between(fields, CommitRun(p), n, first)
  {
    if p.width != 0 {
      Commit(fields, p.layout, p.offset, p.width, n, p.width);
    }
  }

  lemma GoOwn(fields: seq<Field>, p: Progress, n: nat)
    requires n < |fields| && !fields[n].Bits? && Between(fields, p, n, First(fields))
    ensures Going(fields, PlaceField(fields, n, p), n + 1, First(fields))
  {
    FirstIsFirst(fields, n);
    PlaceOwn(fields, p.layout, p.offset, n);
  }

  lemma GoBits(fields: seq<Field>, p: Progress, n: nat)
    requires n < |fields| && WellFormed(fields) && fields[n].Bits? && Going(fields, p, n, First(fields))
    requires !Completes(fields, n)
    ensures Going(fields, PlaceField(fields, n, p), n + 1, First(fields))
  {
    FirstIsFirst(fields, n);
    PlaceBits(fields, p.layout, p.offset, p.width, n);
    if First(fields) < n {
      SpoiledStays(fields, p.layout, AddBits(p.layout, n, p.offset, p.width, fields[n].width), p.offset, p.width,
        p.offset, p.width + fields[n].width, n, First(fields));
    } else {
      BitsClean(fields, p.layout, p.offset, p.width, n);
    }
  }

  lemma GoComplete(fields: seq<Field>, p: Progress, n: nat)
    requires n < |fields| && WellFormed(fields) && Going(fields, p, n, First(fields)) && Completes(fields, n)
    ensures Going(fields, PlaceField(fields, n, p), n + 1, First(fields))
  {
    FirstIsFirst(fields, n);
    CompleteOpen(fields, p.layout, p.offset, p.width, n);
    if First(fields) < n {
      CompleteSpoiled(fields, p.layout, p.offset, p.width, n, First(fields));
    } else {
      CompleteSpoils(fields, p.layout, p.offset, p.width, n);
    }
  }

  /** One field more, after those before it. */
  lemma GoPlace(fields: seq<Field>, p: Progress, n: nat, p': Progress)
    requires WellFormed(fields) && n < |fields| && Going(fields, p, n, First(fields))
    requires p' == PlaceField(fields, n, if fields[n].Bits? then p else CommitRun(p))
    ensures Going(fields, p', n + 1, First(fields))
  {
    if !fields[n].Bits? {
      GoCommit(fields, p, n, First(fields));
      GoOwn(fields, CommitRun(p), n);
    } else if Completes(fields, n) {
      GoComplete(fields, p, n);
    } else {
      GoBits(fields, p, n);
    }
  }

  /** However many fields have been placed, the way there was right. */
  lemma {:induction false} GoAll(fields: seq<Field>, n: nat)
    requires WellFormed(fields) && n <= |fields|
    ensures Going(fields, PlaceAll(fields, n), n, First(fields))
  {
    if n > 0 {
      GoAll(fields, n - 1);
      GoPlace(fields, PlaceAll(fields, n - 1), n - 1, PlaceAll(fields, n));
    }
  }

  /** The first field that completes a run, if there is one. */
  ghost function First(fields: seq<Field>): nat {
    FirstFrom(fields, 0)
  }

  ghost function FirstFrom(fields: seq<Field>, n: nat): (f: nat)
    requires n <= |fields|
    ensures n <= f <= |fields| && (f < |fields| ==> Completes(fields, f)) &&
        forall i: nat {:trigger LeavesOpen(fields, i)} :: n <= i < f ==> LeavesOpen(fields, i)
    decreases |fields| - n
  {
    assert LeavesOpen(fields, n) <==> n == |fields| || !Completes(fields, n);
    if n == |fields| || Completes(fields, n) then n else FirstFrom(fields, n + 1)
  }

  lemma FirstIsFirst(fields: seq<Field>, n: nat)
    requires n < |fields|
    ensures First(fields) == n ==> Completes(fields, n)
    ensures First(fields) > n ==> !Completes(fields, n)
  {
    assert First(fields) > n ==> LeavesOpen(fields, n);
  }

  /** The end of the way. */
  lemma Arrive(fields: seq<Field>, p: Progress)
    requires Going(fields, p, |fields|, First(fields))
    ensures NoOverlap(fields, Close(p.layout, p.width)) && |Close(p.layout, p.width).offsets| == |fields|
    ensures AllMadeFor(fields, Close(p.layout, p.width)) <==> NoneCompletesEarly(fields)
    ensures AllMadeFor(fields, Close(p.layout, p.width)) ==>
              (AllWideEnough(fields, Close(p.layout, p.width)) <==> p.width == 0 || p.width <= GetNextSize(p.width))
  {
    var first := First(fields);
    if p.width != 0 {
      Commit(fields, p.layout, p.offset, p.width, |fields|, GetNextSize(p.width));
    }
    if first == |fields| {
      CleanAtEnd(fields, p.layout, p.offset, p.width);
    } else if first + 1 < |fields| {
      SpoiledNotMade(fields, Close(p.layout, p.width), if p.width != 0 then p.offset + 1 else p.offset, first);
    } else {
      SpoiledAtEnd(fields, p.layout, p.offset);
    }
  }

  /**
    Lays out a tuple. Fields never overlap. Each struct element is made for the fields at
    its offset exactly when no field but the last fills a run up to the size of an integer
    type; then every bit field fits exactly when the last run fits its rounded size.
   */
  method VisitTupleType(fields: seq<Field>) returns (l: Layout)
    requires WellFormed(fields)
    ensures l == LayoutOf(fields)
    ensures |l.offsets| == |fields| && NoOverlap(fields, l)
    ensures AllMadeFor(fields, l) <==> NoneCompletesEarly(fields)
    ensures AllMadeFor(fields, l) ==>
              var last := RunBefore(fields, |fields|);
              AllWideEnough(fields, l) <==> last == 0 || last <= GetNextSize(last)
    ensures var last := RunBefore(fields, |fields|);
      && (last > 0 ==> |l.elements| > 0 && l.elements[|l.elements| - 1] == Shared(GetNextSize(last)))
      && (0 < last < 16 ==> |l.elements| > 0 && l.elements[|l.elements| - 1] == Shared(8))
  {
    l := Layout([], map[], []);
    var currentFieldWidth: nat, currentFieldOffset: nat := 0, 0;
    for fieldIndex := 0 to |fields|
      invariant Progress(l, currentFieldOffset, currentFieldWidth) == PlaceAll(fields, fieldIndex)
    {
      var isBitField := fields[fieldIndex].Bits?;
      if isBitField {
        l := AddBits(l, fieldIndex, currentFieldOffset, currentFieldWidth, fields[fieldIndex].width);
        currentFieldWidth := currentFieldWidth + fields[fieldIndex].width;
        if !IsSize(currentFieldWidth) {
          continue;
        }
        l := AddElement(l, Shared(currentFieldWidth));
      } else {
        if currentFieldWidth != 0 {
          l := AddElement(l, Shared(currentFieldWidth));
          currentFieldWidth := 0;
          currentFieldOffset := currentFieldOffset + 1;
        }
        l := l.(offsets := l.offsets + [currentFieldOffset]);
      }
      currentFieldWidth := 0;
      currentFieldOffset := currentFieldOffset + 1;
      l := AddElement(l, Own(fieldIndex));
    }
    GoAll(fields, |fields|);
    Arrive(fields, PlaceAll(fields, |fields|));
    l := Close(l, currentFieldWidth);
    if currentFieldWidth < 16 {
      NextSizeIsPowerOfTwo(currentFieldWidth);
    }
  }

  /** Runs of fewer than eight bits are laid out as they should be. */
  lemma ShortRunsAreRight(fields: seq<Field>)
    requires forall i :: 0 <= i < |fields| ==> RunWith(fields, i) < 8
    ensures NoneCompletesEarly(fields)
    ensures var last := RunBefore(fields, |fields|); last == 0 || last <= GetNextSize(last)
  {
    forall i: nat {:trigger LeavesOpen(fields, i)} | i < |fields| ensures LeavesOpen(fields, i) {
      assert RunWith(fields, i) < 8;
    }
    if fields != [] {
      RunStep(fields, |fields| - 1);
    }
  }

  const PAIRS := [Bits(2), Bits(2), Bits(2), Bits(2), Whole(32)]

  lemma PairsRun()
    ensures RunBefore(PAIRS, 1) == 2 && RunBefore(PAIRS, 2) == 4 && RunBefore(PAIRS, 3) == 6
    ensures Completes(PAIRS, 3) && RunBefore(PAIRS, 4) == 0
  {
    RunStep(PAIRS, 0);
    RunStep(PAIRS, 1);
    RunStep(PAIRS, 2);
    RunStep(PAIRS, 3);
  }

  /** Four two-bit fields fill a byte, so that the next field's offset stands for an element made for the fourth. */
  lemma FourPairsSpoil()
    ensures WellFormed(PAIRS) && !AllMadeFor(PAIRS, LayoutOf(PAIRS))
    ensures LayoutOf(PAIRS).offsets == [0, 0, 0, 0, 1] && LayoutOf(PAIRS).elements == [Shared(8), Own(3), Own(4)]
  {
    PairsRun();
    RunStep(PAIRS, 4);
    var p := PlaceAll(PAIRS, 3);
    var two := AddBits(AddBits(Layout([], map[], []), 0, 0, 0, 2), 1, 0, 2, 2);
    assert p == Progress(AddBits(two, 2, 0, 4, 2), 0, 6) by {
      assert PlaceAll(PAIRS, 1) == Progress(AddBits(Layout([], map[], []), 0, 0, 0, 2), 0, 2);
      assert PlaceAll(PAIRS, 2) == PlaceField(PAIRS, 1, PlaceAll(PAIRS, 1));
    }
    assert PlaceAll(PAIRS, 4) == Progress(Complete(p.layout, 3, 0, 6, 2), 1, 0);
    assert PlaceAll(PAIRS, 5) == Progress(AddOwn(Complete(p.layout, 3, 0, 6, 2), 4, 1), 2, 0);
    assert !MadeFor(PAIRS, LayoutOf(PAIRS), 4);
  }

  const NINE := [Bits(2), Bits(2), Bits(2), Bits(1), Bits(2)]

  /** A last run of nine bits is rounded to a byte, which does not hold it. */
  lemma NineBitsDoNotFit()
    ensures WellFormed(NINE) && AllMadeFor(NINE, LayoutOf(NINE)) && !AllWideEnough(NINE, LayoutOf(NINE))
  {
    RunStep(NINE, 0);
    RunStep(NINE, 1);
    RunStep(NINE, 2);
    RunStep(NINE, 3);
    RunStep(NINE, 4);
    assert RunBefore(NINE, 2) == 4 && RunBefore(NINE, 3) == 6 && RunBefore(NINE, 4) == 7 && RunBefore(NINE, 5) == 9;
    forall i: nat {:trigger LeavesOpen(NINE, i)} | i < |NINE| - 1 ensures LeavesOpen(NINE, i) {
    }
    assert NoneCompletesEarly(NINE);
    GoAll(NINE, 5);
    Arrive(NINE, PlaceAll(NINE, 5));
    assert GetNextSize(9) == 8 by {
      NextSizeIsPowerOfTwo(9);
      assert Climb(1, 0) == 0;
    }
  }
}
