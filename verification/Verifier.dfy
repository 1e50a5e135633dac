/**
  The linearity verifier: a union-find over names, built in two passes over the program and
  then inverted, against whose parts every live set is checked. The pairs that the passes
  relate are said of the program alone, and the partition is proved to be exactly theirs.
 */
module Verifier {
  import opened Paths
  import opened Coalescing
  import opened Ssa
  import opened Linearity
  import opened Liveness
  import UnionFind

  // ---- the ordered multimap from roots to names ----

  type Groups = seq<(Name, Name)>

  ghost predicate SortedByKey(groups: Groups) {
    forall i, j :: 0 <= i < j < |groups| ==> groups[i].0.id <= groups[j].0.id
  }

  /** The multimap holds every name of the partition once, under its part. */
  ghost predicate Inverts(groups: Groups, part: Partition) {
    && SortedByKey(groups)
    && (forall i :: 0 <= i < |groups| ==> groups[i].1 in part && part[groups[i].1] == groups[i].0)
    && (forall i, j :: 0 <= i < j < |groups| ==> groups[i].1 != groups[j].1)
    && (forall v {:trigger v in part} :: v in part ==> (part[v], v) in groups)
  }

  /** The first position past `from` whose key is greater than `key`. */
  method UpperBound(groups: Groups, from: nat, key: Name) returns (at: nat)
    requires from <= |groups| && SortedByKey(groups)
    ensures from <= at <= |groups|
    ensures forall i :: from <= i < at ==> groups[i].0.id <= key.id
    ensures at < |groups| ==> key.id < groups[at].0.id
  {
    at := from;
    while at < |groups| && groups[at].0.id <= key.id
      invariant from <= at <= |groups|
      invariant forall i :: from <= i < at ==> groups[i].0.id <= key.id
    {
      at := at + 1;
    }
  }

  /** Two different positions with one key, both of whose names are live. */
  ghost predicate Clash(groups: Groups, live: set<Name>, i: nat, j: nat) {
    i < j < |groups| && groups[i].0 == groups[j].0 && groups[i].1 in live && groups[j].1 in live
  }

  ghost predicate ClashFree(groups: Groups, live: set<Name>) {
    forall i, j {:trigger Clash(groups, live, i, j)} :: !Clash(groups, live, i, j)
  }

  lemma ClashFreeIff(groups: Groups, part: Partition, live: set<Name>)
    requires Inverts(groups, part)
    ensures ClashFree(groups, live) <==> AtMostOne(part, live)
  {
    if ClashFree(groups, live) {
      forall x, y {:trigger SamePart(part, x, y)} | x in live && y in live && SamePart(part, x, y) ensures x == y {
        var i :| 0 <= i < |groups| && groups[i] == (part[x], x);
        var j :| 0 <= j < |groups| && groups[j] == (part[y], y);
        assert !Clash(groups, live, i, j) && !Clash(groups, live, j, i);
      }
    }
    if AtMostOne(part, live) {
      forall i: nat, j: nat {:trigger Clash(groups, live, i, j)} ensures !Clash(groups, live, i, j) {
        if Clash(groups, live, i, j) {
          assert SamePart(part, groups[i].1, groups[j].1);
        }
      }
    }
  }

  lemma TwoElements<T>(s: set<T>, x: T, y: T)
    requires x in s && y in s && x != y
    ensures |s| >= 2
  {
    assert s == {x, y} + (s - {x, y});
  }

  lemma FewLive(groups: Groups, part: Partition, live: set<Name>)
    requires Inverts(groups, part) && |live| <= 1
    ensures ClashFree(groups, live)
  {
    forall i: nat, j: nat {:trigger Clash(groups, live, i, j)} ensures !Clash(groups, live, i, j) {
      if Clash(groups, live, i, j) {
        TwoElements(live, groups[i].1, groups[j].1);
      }
    }
  }

  /** The names from `it` to `end` have one key; at most one of them may be live. */
  method CheckGroup(groups: Groups, live: set<Name>, start: nat, end: nat) returns (ok: bool)
    requires start <= end <= |groups|
    requires forall i, j :: start <= i < j < end ==> groups[i].0 == groups[j].0
    ensures ok <==> forall i, j {:trigger Clash(groups, live, i, j)} :: start <= i < j < end ==>
        !Clash(groups, live, i, j)
  {
    var it := start;
    ghost var found: nat := 0;
    var foundOne := false;
    while it != end
      invariant start <= it <= end
      invariant !foundOne ==> forall i :: start <= i < it ==> groups[i].1 !in live
      invariant foundOne ==> start <= found < it && groups[found].1 in live
      invariant foundOne ==> forall i :: start <= i < it && i != found ==> groups[i].1 !in live
      decreases end - it
    {
      if groups[it].1 in live {
        if foundOne {
          assert Clash(groups, live, found, it);
          return false;
        }
        foundOne, found := true, it;
      }
      it := it + 1;
    }
    return true;
  }

  /** No name before `it` clashes with any, and the keys before `it` do not come again. */
  ghost predicate CheckedTo(groups: Groups, live: set<Name>, it: nat) {
    && (forall i: nat, j: nat {:trigger Clash(groups, live, i, j)} :: i < it ==> !Clash(groups, live, i, j))
    && (forall i, j :: 0 <= i < it <= j < |groups| ==> groups[i].0.id < groups[j].0.id)
  }

  lemma GroupChecked(groups: Groups, live: set<Name>, it: nat, end: nat)
    requires SortedByKey(groups) && it < end <= |groups| && CheckedTo(groups, live, it)
    requires forall i :: it <= i < end ==> groups[i].0 == groups[it].0
    requires end < |groups| ==> groups[it].0.id < groups[end].0.id
    requires forall i, j {:trigger Clash(groups, live, i, j)} :: it <= i < j < end ==> !Clash(groups, live, i, j)
    ensures CheckedTo(groups, live, end)
  {
    forall i, j | 0 <= i < end <= j < |groups| ensures groups[i].0.id < groups[j].0.id {
      assert groups[end].0.id <= groups[j].0.id;
    }
    forall i: nat, j: nat {:trigger Clash(groups, live, i, j)} | i < end ensures !Clash(groups, live, i, j) {
      if it <= i && end <= j < |groups| {
        assert groups[i].0.id < groups[j].0.id;
      }
    }
  }

  method CheckLiveSet(groups: Groups, live: set<Name>, ghost part: Partition) returns (ok: bool)
    requires Inverts(groups, part)
    ensures ok <==> AtMostOne(part, live)
  {
    ClashFreeIff(groups, part, live);
    if |live| <= 1 {
      FewLive(groups, part, live);
      return true;
    }
    var it := 0;
    while it < |groups|
      invariant it <= |groups| && CheckedTo(groups, live, it)
    {
      var end := UpperBound(groups, it, groups[it].0);
      SameKey(groups, it, end);
      var fine := CheckGroup(groups, live, it, end);
      if !fine {
        return false;
      }
      GroupChecked(groups, live, it, end);
      it := end;
    }
    return true;
  }

  lemma SameKey(groups: Groups, it: nat, end: nat)
    requires SortedByKey(groups) && it < end <= |groups|
    requires forall i :: it <= i < end ==> groups[i].0.id <= groups[it].0.id
    ensures forall i :: it <= i < end ==> groups[i].0 == groups[it].0
  {
    forall i | it <= i < end ensures groups[i].0 == groups[it].0 {
      assert groups[i].0.id == groups[it].0.id;
    }
  }

  // ---- what the two passes relate, said of the program alone ----

  ghost function PhiPairs(phi: Phi): Relation<Name> {
    set prev | prev in phi.incoming :: (phi.def, phi.incoming[prev])
  }

  /** Each PHI with each name that it reads. */
  ghost function ReadPairs(p: Program): Relation<Name> {
    set b, i, e | b in p && 0 <= i < |p[b].phis| && e in PhiPairs(p[b].phis[i]) :: e
  }

  ghost function From(pairs: Relation<Name>, v: Name): Relation<Name> {
    set e | e in pairs && e.0 == v
  }

  ghost function Into(pairs: Relation<Name>, names: set<Name>): Relation<Name> {
    set e | e in pairs && e.1 in names
  }

  /** An update goes with its operand, and an operand that is a PHI with what it reads. */
  ghost function InstPairs(p: Program, inst: Inst): Relation<Name> {
    if inst.Update? then {(inst.def, inst.obj)} + From(ReadPairs(p), inst.obj) else {}
  }

  /** A new collection is entered on its own. */
  ghost function InstCreates(inst: Inst): set<Name> {
    if inst.Alloc? || inst.Copy? then {inst.def} else {}
  }

  /**
    What the first pass has done when only the instructions of `block` from the `k`-th, and
    the rest of `todo`, are left.
   */
  ghost predicate Visited(todo: set<Label>, block: Label, k: nat, b: Label, i: int) {
    b !in todo || (b == block && i < k)
  }

  ghost function PairsDone(p: Program, todo: set<Label>, block: Label, k: nat): Relation<Name> {
    set b, i, e | b in p && 0 <= i < |p[b].body| && Visited(todo, block, k, b, i) &&
        e in InstPairs(p, p[b].body[i]) :: e
  }

  ghost function CreatedDone(p: Program, todo: set<Label>, block: Label, k: nat): set<Name> {
    set b, i, n | b in p && 0 <= i < |p[b].body| && Visited(todo, block, k, b, i) && n in InstCreates(p[b].body[i]) :: n
  }

  ghost function FirstPairs(p: Program): Relation<Name> {
    PairsDone(p, {}, ENTRY, 0)
  }

  ghost function Created(p: Program): set<Name> {
    CreatedDone(p, {}, ENTRY, 0)
  }

  ghost function Ends(pairs: Relation<Name>): set<Name> {
    (set e | e in pairs :: e.0) + (set e | e in pairs :: e.1)
  }

  /** The names known after the first pass. */
  ghost function FirstNames(p: Program): set<Name> {
    Created(p) + Ends(FirstPairs(p))
  }

  /** After both passes: the PHIs that read a known name are there too, each with that name. */
  ghost function TrackedPairs(p: Program): Relation<Name> {
    FirstPairs(p) + Into(ReadPairs(p), FirstNames(p))
  }

  ghost function Tracked(p: Program): set<Name> {
    Created(p) + Ends(TrackedPairs(p))
  }

  // ---- the same, instruction by instruction and PHI by PHI ----

  /** Some instruction updates `o` and names the result `d`. */
  ghost predicate UpdatedFrom(p: Program, d: Name, o: Name) {
    exists b, i, op, args :: b in p && 0 <= i < |p[b].body| && p[b].body[i] == Inst.Update(d, o, op, args)
  }

  ghost predicate IsOperand(p: Program, v: Name) {
    exists d :: UpdatedFrom(p, d, v)
  }

  /** Some PHI named `phi` reads `v`. */
  ghost predicate ReadsFrom(p: Program, phi: Name, v: Name) {
    exists b, i, prev :: b in p && 0 <= i < |p[b].phis| && p[b].phis[i].def == phi
                         && prev in p[b].phis[i].incoming && p[b].phis[i].incoming[prev] == v
  }

  ghost predicate IsNew(p: Program, v: Name) {
    exists b, i :: b in p && 0 <= i < |p[b].body| && (p[b].body[i].Alloc? || p[b].body[i].Copy?) &&
        p[b].body[i].def == v
  }

  /** What the first pass relates: an update and its operand, or an operand that is a PHI and what it reads. */
  ghost predicate FirstRelated(p: Program, x: Name, y: Name) {
    UpdatedFrom(p, x, y) || (ReadsFrom(p, x, y) && IsOperand(p, x))
  }

  /** `v` is new, or an end of something that the first pass relates. */
  ghost predicate FirstKnown(p: Program, v: Name) {
    IsNew(p, v) || exists w :: FirstRelated(p, v, w) || FirstRelated(p, w, v)
  }

  lemma ReadPairIff(p: Program, e: (Name, Name))
    ensures e in ReadPairs(p) <==> ReadsFrom(p, e.0, e.1)
  {
    if e in ReadPairs(p) {
      var b, i :| b in p && 0 <= i < |p[b].phis| && e in PhiPairs(p[b].phis[i]);
      var prev :| prev in p[b].phis[i].incoming && e == (p[b].phis[i].def, p[b].phis[i].incoming[prev]);
    }
    if ReadsFrom(p, e.0, e.1) {
      var b, i, prev :| b in p && 0 <= i < |p[b].phis| && p[b].phis[i].def == e.0
                        && prev in p[b].phis[i].incoming && p[b].phis[i].incoming[prev] == e.1;
      assert e in PhiPairs(p[b].phis[i]);
    }
  }

  lemma FirstPairIff(p: Program, e: (Name, Name))
    ensures e in FirstPairs(p) <==> FirstRelated(p, e.0, e.1)
  {
    ReadPairIff(p, e);
    if e in FirstPairs(p) {
      var b, i :| b in p && 0 <= i < |p[b].body| && Visited({}, ENTRY, 0, b, i) && e in InstPairs(p, p[b].body[i]);
      var inst := p[b].body[i];
      assert inst.Update? && inst == Inst.Update(inst.def, inst.obj, inst.op, inst.args);
      assert UpdatedFrom(p, inst.def, inst.obj);
    }
    if UpdatedFrom(p, e.0, e.1) {
      var b, i, op, args :| b in p && 0 <= i < |p[b].body| && p[b].body[i] == Inst.Update(e.0, e.1, op, args);
      assert e in InstPairs(p, p[b].body[i]) && Visited({}, ENTRY, 0, b, i);
    } else if FirstRelated(p, e.0, e.1) {
      var d :| UpdatedFrom(p, d, e.0);
      var b, i, op, args :| b in p && 0 <= i < |p[b].body| && p[b].body[i] == Inst.Update(d, e.0, op, args);
      assert e in InstPairs(p, p[b].body[i]) && Visited({}, ENTRY, 0, b, i);
    }
  }

  lemma CreatedIff(p: Program, v: Name)
    ensures v in Created(p) <==> IsNew(p, v)
  {
    if v in Created(p) {
      var b, i :| b in p && 0 <= i < |p[b].body| && Visited({}, ENTRY, 0, b, i) && v in InstCreates(p[b].body[i]);
    }
    if IsNew(p, v) {
      var b, i :| b in p && 0 <= i < |p[b].body| && (p[b].body[i].Alloc? || p[b].body[i].Copy?) &&
          p[b].body[i].def == v;
      assert v in InstCreates(p[b].body[i]) && Visited({}, ENTRY, 0, b, i);
    }
  }

  lemma FirstNameIff(p: Program, v: Name)
    ensures v in FirstNames(p) <==> FirstKnown(p, v)
  {
    CreatedIff(p, v);
    if v in Ends(FirstPairs(p)) {
      var e :| e in FirstPairs(p) && (e.0 == v || e.1 == v);
      FirstPairIff(p, e);
    }
    if w: Name :| FirstRelated(p, v, w) || FirstRelated(p, w, v) {
      FirstPairIff(p, (v, w));
      FirstPairIff(p, (w, v));
      assert (v, w) in FirstPairs(p) || (w, v) in FirstPairs(p);
    }
  }

  /** Two names are related by an update, or by a PHI that is updated or that reads a name of the first pass. */
  ghost predicate GoTogether(p: Program, x: Name, y: Name) {
    UpdatedFrom(p, x, y) || (ReadsFrom(p, x, y) && (IsOperand(p, x) || FirstKnown(p, y)))
  }

  /** The tracked pairs are exactly these. */
  lemma TrackedPairIff(p: Program, e: (Name, Name))
    ensures e in TrackedPairs(p) <==> GoTogether(p, e.0, e.1)
  {
    FirstPairIff(p, e);
    ReadPairIff(p, e);
    FirstNameIff(p, e.1);
  }

  /** The tracked names are the new collections and the ends of the tracked pairs. */
  lemma TrackedIff(p: Program, v: Name)
    ensures v in Tracked(p) <==> IsNew(p, v) || exists w :: GoTogether(p, v, w) || GoTogether(p, w, v)
  {
    CreatedIff(p, v);
    if v in Ends(TrackedPairs(p)) {
      var e :| e in TrackedPairs(p) && (e.0 == v || e.1 == v);
      TrackedPairIff(p, e);
    }
    if w: Name :| GoTogether(p, v, w) || GoTogether(p, w, v) {
      TrackedPairIff(p, (v, w));
      TrackedPairIff(p, (w, v));
      assert (v, w) in TrackedPairs(p) || (w, v) in TrackedPairs(p);
    }
  }

  // ---- the union-find of the verifier ----

  type Reaching = UnionFind.UnionFind<Name>

  function Larger(a: Name, b: Name, m: nat, n: nat): bool {
    m < n
  }

  /** The structure is intact, `pairs` are merged, and its members are their ends and the names of `created`. */
  ghost predicate Holds(reaching: Reaching, created: set<Name>, pairs: Relation<Name>)
    reads reaching
  {
    reaching.Valid() && reaching.merged == pairs && reaching.root.Keys == created + Ends(pairs)
  }

  lemma EndsOfPair(pairs: Relation<Name>, x: Name, y: Name)
    ensures Ends(pairs + {(x, y)}) == Ends(pairs) + {x, y}
  {
    var more := pairs + {(x, y)};
    assert (x, y) in more;
    forall n ensures n in Ends(more) <==> n in Ends(pairs) + {x, y} {
      if n in Ends(pairs) {
        var e :| e in pairs && (e.0 == n || e.1 == n);
        assert e in more;
      }
    }
  }

  lemma EndsOfUnion(pairs: Relation<Name>, more: Relation<Name>)
    ensures Ends(pairs + more) == Ends(pairs) + Ends(more)
  {
    forall n ensures n in Ends(pairs + more) <==> n in Ends(pairs) + Ends(more) {
      if n in Ends(pairs) + Ends(more) {
        var e :| e in pairs + more && (e.0 == n || e.1 == n);
      }
    }
  }

  lemma UnionAssoc<T>(a: set<T>, b: set<T>, c: set<T>)
    ensures a + b + c == a + (b + c) && a + {} == a
  {
  }

  ghost function InputsDone(phi: Phi, todo: set<Label>): Relation<Name> {
    set prev | prev in phi.incoming && prev !in todo :: (phi.def, phi.incoming[prev])
  }

  lemma InputsDoneStep(phi: Phi, todo: set<Label>, prev: Label)
    requires prev in todo && prev in phi.incoming
    ensures InputsDone(phi, todo - {prev}) == InputsDone(phi, todo) + {(phi.def, phi.incoming[prev])}
  {
  }

  lemma InputsDoneAll(phi: Phi)
    ensures InputsDone(phi, phi.incoming.Keys) == {} && InputsDone(phi, {}) == PhiPairs(phi)
  {
  }

  /** Merges a PHI with each of the names it reads. */
  method MergeInputs(reaching: Reaching, phi: Phi, ghost created: set<Name>)
    requires Holds(reaching, created, reaching.merged)
    modifies reaching
    ensures Holds(reaching, created, old(reaching.merged) + PhiPairs(phi))
  {
    var todo := phi.incoming.Keys;
    InputsDoneAll(phi);
    UnionAssoc(reaching.merged, {}, {});
    while todo != {}
      invariant todo <= phi.incoming.Keys && Holds(reaching, created, old(reaching.merged) + InputsDone(phi, todo))
    {
      var prev :| prev in todo;
      InputsDoneStep(phi, todo, prev);
      UnionAssoc(old(reaching.merged), InputsDone(phi, todo), {(phi.def, phi.incoming[prev])});
      EndsOfPair(reaching.merged, phi.def, phi.incoming[prev]);
      var _ := reaching.Merge(phi.def, phi.incoming[prev]);
      todo := todo - {prev};
    }
  }

  /** What the PHIs visited so far read. */
  ghost function PhisDone(p: Program, todo: set<Label>, block: Label, k: nat): Relation<Name> {
    set b, i, e | b in p && 0 <= i < |p[b].phis| && Visited(todo, block, k, b, i) && e in PhiPairs(p[b].phis[i]) :: e
  }

  lemma PhisDoneStep(p: Program, todo: set<Label>, block: Label, k: nat)
    requires block in todo && block in p && k < |p[block].phis|
    ensures PhisDone(p, todo, block, k + 1) == PhisDone(p, todo, block, k) + PhiPairs(p[block].phis[k])
  {
    var next := PhisDone(p, todo, block, k) + PhiPairs(p[block].phis[k]);
    forall e ensures e in PhisDone(p, todo, block, k + 1) <==> e in next {
      if e in PhiPairs(p[block].phis[k]) {
        assert Visited(todo, block, k + 1, block, k);
      } else if e in next {
        var b, i :| b in p && 0 <= i < |p[b].phis| && Visited(todo, block, k, b, i) && e in PhiPairs(p[b].phis[i]);
        assert Visited(todo, block, k + 1, b, i);
      }
      if e in PhisDone(p, todo, block, k + 1) {
        var b, i :| b in p && 0 <= i < |p[b].phis| && Visited(todo, block, k + 1, b, i) && e in PhiPairs(p[b].phis[i]);
        assert Visited(todo, block, k, b, i) || (b == block && i == k);
      }
    }
  }

  /** A block is done when its last PHI is. */
  lemma PhisDoneBlock(p: Program, todo: set<Label>, block: Label)
    requires block in todo && block in p
    ensures PhisDone(p, todo, block, 0) == PhisDone(p, todo, ENTRY, 0)
    ensures PhisDone(p, todo, block, |p[block].phis|) == PhisDone(p, todo - {block}, ENTRY, 0)
  {
    var k := |p[block].phis|;
    forall b, i | b in p && 0 <= i < |p[b].phis|
      ensures Visited(todo, block, k, b, i) <==> Visited(todo - {block}, ENTRY, 0, b, i)
    {
    }
  }

  lemma PhisDoneAll(p: Program)
    ensures PhisDone(p, p.Keys, ENTRY, 0) == {} && PhisDone(p, {}, ENTRY, 0) == ReadPairs(p)
  {
    forall e | e in ReadPairs(p) ensures e in PhisDone(p, {}, ENTRY, 0) {
      var b, i :| b in p && 0 <= i < |p[b].phis| && e in PhiPairs(p[b].phis[i]);
      assert Visited({}, ENTRY, 0, b, i);
    }
  }

  lemma FilterUnion(a: Relation<Name>, b: Relation<Name>, v: Name)
    ensures From(a + b, v) == From(a, v) + From(b, v) && Into(a + b, {v}) == Into(a, {v}) + Into(b, {v})
    ensures From({}, v) == {} && Into({}, {v}) == {}
  {
  }

  lemma IntoOne(x: Name, y: Name, v: Name)
    ensures Into({(x, y)}, {v}) == if y == v then {(x, v)} else {}
  {
  }

  lemma FromPhi(phi: Phi, v: Name)
    ensures From(PhiPairs(phi), v) == if phi.def == v then PhiPairs(phi) else {}
  {
  }

  lemma FromStep(p: Program, v: Name, todo: set<Label>, block: Label, k: nat, merged: Relation<Name>)
    requires block in todo && block in p && k < |p[block].phis|
    ensures merged + From(PhisDone(p, todo, block, k + 1), v)
         == merged + From(PhisDone(p, todo, block, k), v)
            + if p[block].phis[k].def == v then PhiPairs(p[block].phis[k]) else {}
  {
    PhisDoneStep(p, todo, block, k);
    FilterUnion(PhisDone(p, todo, block, k), PhiPairs(p[block].phis[k]), v);
    FromPhi(p[block].phis[k], v);
  }

  lemma IntoStep(p: Program, v: Name, todo: set<Label>, block: Label, k: nat, pairs: Relation<Name>)
    requires block in todo && block in p && k < |p[block].phis|
    ensures pairs + Into(PhisDone(p, todo, block, k + 1), {v})
         == pairs + Into(PhisDone(p, todo, block, k), {v}) + Into(PhiPairs(p[block].phis[k]), {v})
  {
    PhisDoneStep(p, todo, block, k);
    FilterUnion(PhisDone(p, todo, block, k), PhiPairs(p[block].phis[k]), v);
  }

  /** If `v` is a PHI, it is merged with what it reads. */
  method GatherVariables(p: Program, reaching: Reaching, v: Name, ghost created: set<Name>)
    requires Holds(reaching, created, reaching.merged)
    modifies reaching
    ensures Holds(reaching, created, old(reaching.merged) + From(ReadPairs(p), v))
  {
    var todo := p.Keys;
    PhisDoneAll(p);
    FilterUnion({}, {}, v);
    UnionAssoc(reaching.merged, {}, {});
    while todo != {}
      invariant todo <= p.Keys
      invariant Holds(reaching, created, old(reaching.merged) + From(PhisDone(p, todo, ENTRY, 0), v))
    {
      var block :| block in todo;
      PhisDoneBlock(p, todo, block);
      for k := 0 to |p[block].phis|
        invariant Holds(reaching, created, old(reaching.merged) + From(PhisDone(p, todo, block, k), v))
      {
        var phi := p[block].phis[k];
        FromStep(p, v, todo, block, k, old(reaching.merged));
        if phi.def == v {
          MergeInputs(reaching, phi, created);
        } else {
          UnionAssoc(reaching.merged, {}, {});
        }
      }
      todo := todo - {block};
    }
  }

  method MergeUpdate(p: Program, reaching: Reaching, def: Name, obj: Name, ghost created: set<Name>)
    requires Holds(reaching, created, reaching.merged)
    modifies reaching
    ensures Holds(reaching, created, old(reaching.merged) + ({(def, obj)} + From(ReadPairs(p), obj)))
  {
    EndsOfPair(reaching.merged, def, obj);
    UnionAssoc(reaching.merged, {(def, obj)}, From(ReadPairs(p), obj));
    var _ := reaching.Merge(def, obj);
    GatherVariables(p, reaching, obj, created);
  }

  /** One instruction of the first pass. */
  method CollectInst(p: Program, reaching: Reaching, inst: Inst, ghost created: set<Name>)
    requires Holds(reaching, created, reaching.merged)
    modifies reaching
    ensures Holds(reaching, created + InstCreates(inst), old(reaching.merged) + InstPairs(p, inst))
  {
    UnionAssoc(reaching.merged, {}, {});
    UnionAssoc(created, {}, {});
    match inst {
      case Alloc(def, _, _) => Enter(reaching, def, created);
      case Copy(def, _, _) => Enter(reaching, def, created);
      case Update(def, obj, _, _) =>
        MergeUpdate(p, reaching, def, obj, created);
      case _ =>
    }
  }

  method Enter(reaching: Reaching, def: Name, ghost created: set<Name>)
    requires Holds(reaching, created, reaching.merged)
    modifies reaching
    ensures Holds(reaching, created + {def}, old(reaching.merged))
  {
    assert reaching.root.Keys == reaching.parent.Keys;
    reaching.Insert(def);
  }

  lemma DoneStep(p: Program, todo: set<Label>, block: Label, k: nat)
    requires block in todo && block in p && k < |p[block].body|
    ensures PairsDone(p, todo, block, k + 1) == PairsDone(p, todo, block, k) + InstPairs(p, p[block].body[k])
    ensures CreatedDone(p, todo, block, k + 1) == CreatedDone(p, todo, block, k) + InstCreates(p[block].body[k])
  {
    forall b, i | b in p && 0 <= i < |p[b].body|
      ensures Visited(todo, block, k + 1, b, i) <==> Visited(todo, block, k, b, i) || (b == block && i == k)
    {
    }
    forall e ensures e in PairsDone(p, todo, block, k + 1)
        <==> e in PairsDone(p, todo, block, k) + InstPairs(p, p[block].body[k])
    {
      if e in InstPairs(p, p[block].body[k]) {
        assert Visited(todo, block, k + 1, block, k);
      }
      if e in PairsDone(p, todo, block, k) {
        var b, i :| b in p && 0 <= i < |p[b].body| && Visited(todo, block, k, b, i) && e in InstPairs(p, p[b].body[i]);
        assert Visited(todo, block, k + 1, b, i);
      }
    }
    forall n ensures n in CreatedDone(p, todo, block, k + 1)
        <==> n in CreatedDone(p, todo, block, k) + InstCreates(p[block].body[k])
    {
      if n in InstCreates(p[block].body[k]) {
        assert Visited(todo, block, k + 1, block, k);
      }
      if n in CreatedDone(p, todo, block, k) {
        var b, i :| b in p && 0 <= i < |p[b].body| && Visited(todo, block, k, b, i) && n in InstCreates(p[b].body[i]);
        assert Visited(todo, block, k + 1, b, i);
      }
    }
  }

  lemma DoneEnds(p: Program, todo: set<Label>, block: Label)
    requires block in todo && block in p
    ensures PairsDone(p, todo, block, |p[block].body|) == PairsDone(p, todo - {block}, ENTRY, 0)
    ensures CreatedDone(p, todo, block, |p[block].body|) == CreatedDone(p, todo - {block}, ENTRY, 0)
  {
    var k := |p[block].body|;
    forall b, i | b in p && 0 <= i < |p[b].body|
      ensures Visited(todo, block, k, b, i) <==> Visited(todo - {block}, ENTRY, 0, b, i)
    {
    }
  }

  /**
    New collections come in, updates are merged with their operands, and operand PHIs with
    what they read; nothing else.
   */
  method CollectDefinitions(p: Program, reaching: Reaching)
    requires Holds(reaching, {}, {})
    modifies reaching
    ensures Holds(reaching, Created(p), FirstPairs(p))
    ensures reaching.root.Keys == FirstNames(p)
  {
    var todo := p.Keys;
    assert PairsDone(p, todo, ENTRY, 0) == {} && CreatedDone(p, todo, ENTRY, 0) == {};
    while todo != {}
      invariant todo <= p.Keys
      invariant Holds(reaching, CreatedDone(p, todo, ENTRY, 0), PairsDone(p, todo, ENTRY, 0))
    {
      var block :| block in todo;
      assert PairsDone(p, todo, ENTRY, 0) == PairsDone(p, todo, block, 0);
      assert CreatedDone(p, todo, ENTRY, 0) == CreatedDone(p, todo, block, 0);
      for k := 0 to |p[block].body|
        invariant Holds(reaching, CreatedDone(p, todo, block, k), PairsDone(p, todo, block, k))
      {
        DoneStep(p, todo, block, k);
        CollectInst(p, reaching, p[block].body[k], CreatedDone(p, todo, block, k));
      }
      DoneEnds(p, todo, block);
      todo := todo - {block};
    }
  }

  // ---- the second pass: PHIs that read a known name ----

  /** What is merged relates the same names as `pairs` do, and the members are as for them. */
  ghost predicate Relates(reaching: Reaching, created: set<Name>, pairs: Relation<Name>)
    reads reaching
  {
    reaching.Valid() && SameClasses(reaching.merged, pairs) && reaching.root.Keys == created + Ends(pairs)
  }

  /** To merge with the parent of `v` is to merge with `v`. */
  method MergeWithParent(reaching: Reaching, phi: Name, v: Name, ghost created: set<Name>, ghost pairs: Relation<Name>)
    requires Relates(reaching, created, pairs) && v in reaching.root
    modifies reaching
    ensures Relates(reaching, created, pairs + {(phi, v)}) && v in reaching.root
  {
    ghost var merged := reaching.merged;
    ParentConnected(reaching, v);
    var parent := reaching.parent[v];
    EndsOfPair(pairs, phi, v);
    var _ := reaching.Merge(phi, parent);
    SameClassesSwap(merged, phi, parent, v);
    SameClassesUnion(merged, pairs, {(phi, v)});
    SameClassesTrans(reaching.merged, merged + {(phi, v)}, pairs + {(phi, v)});
  }

  lemma ParentConnected(reaching: Reaching, v: Name)
    requires reaching.Valid() && v in reaching.root
    ensures v in reaching.parent && reaching.parent[v] in reaching.root &&
        Connected(reaching.merged, v, reaching.parent[v])
  {
    assert UnionFind.PointsUp(reaching.parent, reaching.root, v);
    UnionFind.SameRootIffConnected(reaching.root, reaching.merged, v, reaching.parent[v]);
  }

  /** A PHI is merged with the parent of `v` for each of its uses of `v`. */
  method MergeUses(reaching: Reaching, phi: Phi, v: Name, ghost created: set<Name>, ghost pairs: Relation<Name>)
    requires Relates(reaching, created, pairs) && v in reaching.root
    modifies reaching
    ensures Relates(reaching, created, pairs + Into(PhiPairs(phi), {v})) && v in reaching.root
  {
    var todo := phi.incoming.Keys;
    InputsDoneAll(phi);
    FilterUnion({}, {}, v);
    UnionAssoc(pairs, {}, {});
    while todo != {}
      invariant todo <= phi.incoming.Keys && v in reaching.root
      invariant Relates(reaching, created, pairs + Into(InputsDone(phi, todo), {v}))
    {
      var prev :| prev in todo;
      ghost var done, one := InputsDone(phi, todo), {(phi.def, phi.incoming[prev])};
      InputsDoneStep(phi, todo, prev);
      FilterUnion(done, one, v);
      UnionAssoc(pairs, Into(done, {v}), Into(one, {v}));
      IntoOne(phi.def, phi.incoming[prev], v);
      if phi.incoming[prev] == v {
        MergeWithParent(reaching, phi.def, v, created, pairs + Into(done, {v}));
      } else {
        UnionAssoc(pairs + Into(done, {v}), {}, {});
      }
      todo := todo - {prev};
    }
  }

  /** All PHIs of the program that read `v` are merged with its parent. */
  method MergeReaders(p: Program, reaching: Reaching, v: Name, ghost created: set<Name>, ghost pairs: Relation<Name>)
    requires Relates(reaching, created, pairs) && v in reaching.root
    modifies reaching
    ensures Relates(reaching, created, pairs + Into(ReadPairs(p), {v}))
  {
    var todo := p.Keys;
    PhisDoneAll(p);
    FilterUnion({}, {}, v);
    UnionAssoc(pairs, {}, {});
    while todo != {}
      invariant todo <= p.Keys && v in reaching.root
      invariant Relates(reaching, created, pairs + Into(PhisDone(p, todo, ENTRY, 0), {v}))
    {
      var block :| block in todo;
      PhisDoneBlock(p, todo, block);
      for k := 0 to |p[block].phis|
        invariant v in reaching.root && Relates(reaching, created, pairs + Into(PhisDone(p, todo, block, k), {v}))
      {
        var phi := p[block].phis[k];
        IntoStep(p, v, todo, block, k, pairs);
        MergeUses(reaching, phi, v, created, pairs + Into(PhisDone(p, todo, block, k), {v}));
      }
      todo := todo - {block};
    }
  }

  lemma KnownStep(p: Program, known: set<Name>, todo: set<Name>, v: Name)
    requires v in todo && todo <= known
    ensures Into(ReadPairs(p), known - todo) + Into(ReadPairs(p), {v}) == Into(ReadPairs(p), known - (todo - {v}))
  {
  }

  lemma AfterReads(reaching: Reaching, created: set<Name>, pairs: Relation<Name>, more: Relation<Name>)
    requires Relates(reaching, created, pairs + more)
    ensures created + Ends(pairs) <= reaching.root.Keys
  {
    EndsOfUnion(pairs, more);
  }

  /** Every PHI that reads a name known at the start is related to that name, and nothing else changes. */
  method CollectPhis(p: Program, reaching: Reaching, ghost created: set<Name>)
    requires Holds(reaching, created, reaching.merged)
    modifies reaching
    ensures Relates(reaching, created, old(reaching.merged) + Into(ReadPairs(p), old(reaching.root.Keys)))
  {
    reaching.Reify();
    var known := reaching.parent.Keys;
    ghost var merged := reaching.merged;
    assert known == reaching.root.Keys;
    var todo := known;
    assert known - todo == {};
    UnionAssoc(merged, {}, {});
    assert Into(ReadPairs(p), known - todo) == {};
    while todo != {}
      invariant todo <= known && known == created + Ends(merged)
      invariant Relates(reaching, created, merged + Into(ReadPairs(p), known - todo))
    {
      var v :| v in todo;
      AfterReads(reaching, created, merged, Into(ReadPairs(p), known - todo));
      MergeReaders(p, reaching, v, created, merged + Into(ReadPairs(p), known - todo));
      KnownStep(p, known, todo, v);
      UnionAssoc(merged, Into(ReadPairs(p), known - todo), Into(ReadPairs(p), {v}));
      todo := todo - {v};
    }
    assert known - todo == known;
  }

  // ---- inverting the union-find ----

  /** The names listed so far are those not left in `todo`, each under its parent. */
  ghost predicate Listing(groups: Groups, parents: map<Name, Name>, todo: set<Name>) {
    && SortedByKey(groups)
    && (forall i :: 0 <= i < |groups| ==>
        groups[i].1 in parents && groups[i].1 !in todo && parents[groups[i].1] == groups[i].0)
    && (forall i, j :: 0 <= i < j < |groups| ==> groups[i].1 != groups[j].1)
    && (forall v {:trigger v in parents} :: v in parents && v !in todo ==> (parents[v], v) in groups)
  }

  lemma ListOne(groups: Groups, parents: map<Name, Name>, todo: set<Name>, v: Name, at: nat)
    requires Listing(groups, parents, todo) && v in todo && v in parents && at <= |groups|
    requires forall i :: 0 <= i < at ==> groups[i].0.id <= parents[v].id
    requires at < |groups| ==> parents[v].id < groups[at].0.id
    ensures Listing(groups[..at] + [(parents[v], v)] + groups[at..], parents, todo - {v})
  {
    var t := groups[..at] + [(parents[v], v)] + groups[at..];
    InsertedAt(groups, at, (parents[v], v));
    forall i, j | 0 <= i < j < |t| ensures t[i].0.id <= t[j].0.id && t[i].1 != t[j].1 {
      var i', j' := if i < at then i else i - 1, if j < at then j else j - 1;
      if i != at && j != at {
        assert groups[i'].0.id <= groups[j'].0.id && groups[i'].1 != groups[j'].1;
      } else if i == at {
        assert groups[at].0.id <= groups[j'].0.id || j' == at;
      }
    }
  }

  /** Inserts at the upper bound of the key, as an ordered multimap does. */
  method BuildPartition(parents: map<Name, Name>) returns (groups: Groups)
    ensures Inverts(groups, parents)
  {
    groups := [];
    var todo := parents.Keys;
    while todo != {}
      invariant todo <= parents.Keys && Listing(groups, parents, todo)
    {
      var v :| v in todo;
      var at := UpperBound(groups, 0, parents[v]);
      ListOne(groups, parents, todo, v, at);
      groups := groups[..at] + [(parents[v], v)] + groups[at..];
      todo := todo - {v};
    }
  }

  lemma InsertedAt<T>(s: seq<T>, at: nat, x: T)
    requires at <= |s|
    ensures var t := s[..at] + [x] + s[at..];
            && |t| == |s| + 1 && t[at] == x
            && (forall i :: 0 <= i < at ==> t[i] == s[i])
            && (forall i :: at < i < |t| ==> t[i] == s[i - 1])
            && (forall y :: y in t <==> y == x || y in s)
  {
    assert s == s[..at] + s[at..];
  }

  // ---- the verdict ----

  /** The live set checked along an edge: PHI names that are live out of the source block are counted too. */
  ghost function CheckedAlong(s: Setting, from: Label, to: Label): set<Name>
    requires from in s.p && to in s.p
  {
    EdgeLive(s, from, to) + PhiDefs(s.p[to].phis) * OutSet(s, from)
  }

  /** Name by name: live after the PHIs and no PHI, or read by a PHI, or a PHI that is in OUT of the source block. */
  lemma CheckedAlongIff(s: Setting, from: Label, to: Label, x: Name)
    requires from in s.p && to in s.p
    ensures x in CheckedAlong(s, from, to) <==>
              || (x in LiveBefore(s, to, 1) && forall i :: 0 <= i < |s.p[to].phis| ==> s.p[to].phis[i].def != x)
              || (exists i :: 0 <= i < |s.p[to].phis| && from in s.p[to].phis[i].incoming
                              && s.p[to].phis[i].incoming[from] == x)
              || ((exists i :: 0 <= i < |s.p[to].phis| && s.p[to].phis[i].def == x)
                  && exists t :: t in Successors(s.p[from].term) && t in s.p && CodeOut(s, from, t, x))
  {
    OutSetIff(s, from, x);
  }

  ghost predicate EdgeLinear(s: Setting, from: Label, to: Label) {
    from in s.p && to in s.p && to in Successors(s.p[from].term) ==> AtMostOne(s.part, CheckedAlong(s, from, to))
  }

  ghost predicate BlockLinear(s: Setting, block: Label) {
    && (forall pc {:trigger LinearAt(s, block, pc)} :: LinearAt(s, block, pc))
    && (forall to {:trigger EdgeLinear(s, block, to)} :: EdgeLinear(s, block, to))
  }

  /** With sound live sets the edges are checked by the checks of the terminators. */
  lemma EdgesAddNothing(s: Setting)
    requires SoundLiveness(s) && Linear(s)
    ensures forall from, to {:trigger EdgeLinear(s, from, to)} :: EdgeLinear(s, from, to)
  {
    forall from, to {:trigger EdgeLinear(s, from, to)} ensures EdgeLinear(s, from, to) {
      if from in s.p && to in s.p && to in Successors(s.p[from].term) {
        var end := |s.p[from].body| + 1;
        assert SoundAt(s, from, end) && LinearAt(s, from, end);
        forall x | x in CheckedAlong(s, from, to) ensures x in LiveBefore(s, from, end) {
          if x !in EdgeLive(s, from, to) {
            OutSetIff(s, from, x);
            var t :| t in Successors(s.p[from].term) && t in s.p && CodeOut(s, from, t, x);
            OutIsOnEdge(s, from, t, x);
          }
        }
      }
    }
  }

  ghost predicate AllLinear(s: Setting) {
    forall b {:trigger BlockLinear(s, b)} :: b in s.p ==> BlockLinear(s, b)
  }

  method CheckBlock(s: Setting, groups: Groups, block: Label) returns (ok: bool)
    requires Inverts(groups, s.part) && block in s.p
    ensures ok <==> BlockLinear(s, block)
  {
    var out := ComputeOut(s, block);
    var todo := Successors(s.p[block].term);
    while todo != {}
      invariant todo <= Successors(s.p[block].term)
      invariant forall to {:trigger EdgeLinear(s, block, to)} :: to !in todo ==> EdgeLinear(s, block, to)
    {
      var to :| to in todo;
      if to in s.p {
        var live := LiveValues(s, block, to, out);
        var fine := CheckLiveSet(groups, live, s.part);
        if !fine {
          assert !EdgeLinear(s, block, to);
          return false;
        }
      }
      todo := todo - {to};
    }
    var pc := 1;
    while pc <= |s.p[block].body| + 1
      invariant 1 <= pc <= |s.p[block].body| + 2
      invariant forall k: nat {:trigger LinearAt(s, block, k)} :: k < pc ==> LinearAt(s, block, k)
    {
      var fine := CheckLiveSet(groups, LiveBefore(s, block, pc), s.part);
      if !fine {
        assert !LinearAt(s, block, pc);
        return false;
      }
      pc := pc + 1;
    }
    return true;
  }

  /** `part` divides exactly `names`, and two of them share a part exactly when `pairs` connect them. */
  ghost predicate Divides(part: Partition, names: set<Name>, pairs: Relation<Name>) {
    && part.Keys == names
    && (forall x, y {:trigger SamePart(part, x, y)} :: x in names && y in names ==>
          (SamePart(part, x, y) <==> Connected(pairs, x, y)))
  }

  lemma RootsDivide(reaching: Reaching, created: set<Name>, pairs: Relation<Name>)
    requires Relates(reaching, created, pairs)
    ensures Divides(reaching.root, created + Ends(pairs), pairs)
  {
    forall x, y {:trigger SamePart(reaching.root, x, y)} | x in reaching.root && y in reaching.root
      ensures SamePart(reaching.root, x, y) <==> Connected(pairs, x, y)
    {
      UnionFind.SameRootIffConnected(reaching.root, reaching.merged, x, y);
      assert SameConnection(reaching.merged, pairs, x, y);
    }
  }

  /** Two passes over the program divide the tracked names by the tracked pairs. */
  method BuildReaching(p: Program) returns (parents: map<Name, Name>)
    ensures Divides(parents, Tracked(p), TrackedPairs(p))
  {
    var reaching := new UnionFind.UnionFind(Larger);
    CollectDefinitions(p, reaching);
    CollectPhis(p, reaching, Created(p));
    RootsDivide(reaching, Created(p), TrackedPairs(p));
    reaching.Reify();
    return reaching.parent;
  }

  /**
    Runs the verifier on `s`, whose own partition is ignored. The partition is exactly
    that of the tracked pairs of the program, and the verdict is exact for it.
   */
  method VerifyLinearity(s: Setting) returns (ok: bool, part: Partition)
    ensures Divides(part, Tracked(s.p), TrackedPairs(s.p))
    ensures ok <==> AllLinear(s.(part := part))
  {
    part := BuildReaching(s.p);
    var tracked := s.(part := part);
    if |part.Keys| == 0 {
      NothingTracked(tracked);
      return true, part;
    }
    var groups := BuildPartition(part);
    var todo := s.p.Keys;
    while todo != {}
      invariant todo <= s.p.Keys && tracked == s.(part := part) && Inverts(groups, part)
      invariant forall b {:trigger BlockLinear(tracked, b)} :: b in s.p && b !in todo ==> BlockLinear(tracked, b)
    {
      var block :| block in todo;
      var fine := CheckBlock(tracked, groups, block);
      if !fine {
        return false, part;
      }
      todo := todo - {block};
    }
    return true, part;
  }

  lemma NothingTracked(s: Setting)
    requires s.part.Keys == {}
    ensures AllLinear(s)
  {
    forall b {:trigger BlockLinear(s, b)} ensures BlockLinear(s, b) {
    }
  }

  // ---- what the partition is worth ----

  lemma UpdateTracked(p: Program, b: Label, i: nat)
    requires b in p && i < |p[b].body| && p[b].body[i].Update?
    ensures (p[b].body[i].def, p[b].body[i].obj) in FirstPairs(p)
  {
    var inst := p[b].body[i];
    assert (inst.def, inst.obj) in InstPairs(p, inst) && Visited({}, ENTRY, 0, b, i);
  }

  lemma PairTracked(p: Program, e: (Name, Name))
    requires e in TrackedPairs(p)
    ensures e.0 in Tracked(p) && e.1 in Tracked(p) && Connected(TrackedPairs(p), e.0, e.1)
  {
    ConnectedPair(TrackedPairs(p), e.0, e.1);
  }

  /** Every update is with its operand. */
  lemma DividesUpdates(s: Setting)
    requires Divides(s.part, Tracked(s.p), TrackedPairs(s.p))
    ensures UpdatesJoined(s)
  {
    forall b, pc: nat {:trigger UpdateJoined(s, b, pc)} ensures UpdateJoined(s, b, pc) {
      if b in s.p && 1 <= pc <= |s.p[b].body| && s.p[b].body[pc - 1].Update? {
        UpdateTracked(s.p, b, pc - 1);
        PairTracked(s.p, (s.p[b].body[pc - 1].def, s.p[b].body[pc - 1].obj));
      }
    }
  }

  /** Wherever a PHI or what it reads is tracked, both are, and connected. */
  ghost predicate ClosedUnderPhis(p: Program) {
    forall e {:trigger e in ReadPairs(p)} :: e in ReadPairs(p) && (e.0 in Tracked(p) || e.1 in Tracked(p)) ==>
      e.0 in Tracked(p) && e.1 in Tracked(p) && Connected(TrackedPairs(p), e.0, e.1)
  }

  lemma ReadAt(p: Program, b: Label, i: nat, prev: Label)
    requires b in p && i < |p[b].phis| && prev in p[b].phis[i].incoming
    ensures (p[b].phis[i].def, p[b].phis[i].incoming[prev]) in ReadPairs(p)
  {
    assert (p[b].phis[i].def, p[b].phis[i].incoming[prev]) in PhiPairs(p[b].phis[i]);
  }

  /** The one pass over the uses closes the partition under PHIs exactly for these programs. */
  lemma PhiClosedIff(s: Setting)
    requires Divides(s.part, Tracked(s.p), TrackedPairs(s.p))
    ensures PhiClosed(s) <==> ClosedUnderPhis(s.p)
  {
    if ClosedUnderPhis(s.p) {
      forall b, i: nat, prev {:trigger PhiClosedAt(s, b, i, prev)} ensures PhiClosedAt(s, b, i, prev) {
        if b in s.p && i < |s.p[b].phis| && prev in s.p[b].phis[i].incoming {
          ReadAt(s.p, b, i, prev);
        }
      }
    }
    if PhiClosed(s) {
      forall e {:trigger e in ReadPairs(s.p)} | e in ReadPairs(s.p) && (e.0 in Tracked(s.p) || e.1 in Tracked(s.p))
        ensures e.0 in Tracked(s.p) && e.1 in Tracked(s.p) && Connected(TrackedPairs(s.p), e.0, e.1)
      {
        var b, i :| b in s.p && 0 <= i < |s.p[b].phis| && e in PhiPairs(s.p[b].phis[i]);
        var prev :| prev in s.p[b].phis[i].incoming && e == (s.p[b].phis[i].def, s.p[b].phis[i].incoming[prev]);
        assert PhiClosedAt(s, b, i, prev);
        assert SamePart(s.part, e.0, e.1);
      }
    }
  }

  /** Whatever a tracked PHI reads, and whatever is tracked and read by a PHI, was known after the first pass. */
  ghost predicate InputsKnown(p: Program) {
    forall e {:trigger e in ReadPairs(p)} ::
      e in ReadPairs(p) && (e.0 in Tracked(p) || e.1 in Tracked(p)) ==> e.1 in FirstNames(p)
  }

  lemma KnownInputsClose(p: Program)
    requires InputsKnown(p)
    ensures ClosedUnderPhis(p)
  {
    forall e {:trigger e in ReadPairs(p)} | e in ReadPairs(p) && (e.0 in Tracked(p) || e.1 in Tracked(p))
      ensures e.0 in Tracked(p) && e.1 in Tracked(p) && Connected(TrackedPairs(p), e.0, e.1)
    {
      PairTracked(p, e);
    }
  }

  /** What a PHI reads is known after the first pass if the PHI is the operand of an update. */
  lemma OperandInputsKnown(p: Program, e: (Name, Name))
    requires e in ReadPairs(p) && IsOperand(p, e.0)
    ensures e in FirstPairs(p) && e.1 in FirstNames(p)
  {
    ReadPairIff(p, e);
    FirstPairIff(p, e);
  }

  /** A name that no tracked pair has for an end is connected to itself only. */
  lemma Unconnected(pairs: Relation<Name>, v: Name, x: Name)
    requires (forall e :: e in pairs ==> e.0 != v && e.1 != v) && Connected(pairs, v, x)
    ensures x == v
  {
    ReachClosed(Symmetric(pairs), {v}, v, x);
  }

  /** A new collection that nothing updates and no PHI reads shares its part with no other name. */
  lemma NewStandsAlone(s: Setting, v: Name, x: Name)
    requires SingleAssignment(s) && Divides(s.part, Tracked(s.p), TrackedPairs(s.p))
    requires IsNew(s.p, v) && !IsOperand(s.p, v) && forall phi :: !ReadsFrom(s.p, phi, v)
    ensures v in s.part && (SamePart(s.part, v, x) <==> x == v)
  {
    TrackedIff(s.p, v);
    forall e | e in TrackedPairs(s.p) ensures e.0 != v && e.1 != v {
      TrackedPairIff(s.p, e);
      if e.0 == v {
        NewIsDefinedOnce(s, v, e.1);
      }
    }
    if SamePart(s.part, v, x) {
      Unconnected(TrackedPairs(s.p), v, x);
    }
  }

  lemma OnePlace(s: Setting, b: Label, pc: nat, b': Label, pc': nat, v: Name)
    requires SingleAssignment(s) && v in Defs(s.p, b, pc) && v in Defs(s.p, b', pc')
    ensures b == b' && pc == pc'
  {
    assert DefinedOnce(s, b, pc, b', pc', v);
  }

  lemma NewIsDefinedOnce(s: Setting, v: Name, x: Name)
    requires SingleAssignment(s) && IsNew(s.p, v)
    ensures !UpdatedFrom(s.p, v, x) && !ReadsFrom(s.p, v, x)
  {
    var b, i :| b in s.p && 0 <= i < |s.p[b].body| && (s.p[b].body[i].Alloc? || s.p[b].body[i].Copy?)
                && s.p[b].body[i].def == v;
    assert v in Defs(s.p, b, i + 1);
    if UpdatedFrom(s.p, v, x) {
      var c, j, op, args :| c in s.p && 0 <= j < |s.p[c].body| && s.p[c].body[j] == Inst.Update(v, x, op, args);
      OnePlace(s, b, i + 1, c, j + 1, v);
    }
    if ReadsFrom(s.p, v, x) {
      var c, j, prev :| c in s.p && 0 <= j < |s.p[c].phis| && s.p[c].phis[j].def == v
                        && prev in s.p[c].phis[j].incoming && s.p[c].phis[j].incoming[prev] == x;
      OnePlace(s, b, i + 1, c, 0, v);
    }
  }

  /** A program without updates, whose PHIs read nothing that is tracked, passes, whatever else it does. */
  lemma WithoutUpdatesIsLinear(s: Setting)
    requires Divides(s.part, Tracked(s.p), TrackedPairs(s.p))
    requires forall x, y :: !GoTogether(s.p, x, y)
    ensures AllLinear(s)
  {
    forall e ensures e !in TrackedPairs(s.p) {
      TrackedPairIff(s.p, e);
    }
    forall x, y {:trigger SamePart(s.part, x, y)} | SamePart(s.part, x, y) ensures x == y {
      Unconnected(TrackedPairs(s.p), x, y);
    }
  }

  /** A second pass that also came by names entered during it would merge nothing more. */
  lemma LatecomersUnread(p: Program, visited: set<Name>)
    requires InputsKnown(p) && FirstNames(p) <= visited <= Tracked(p)
    ensures FirstPairs(p) + Into(ReadPairs(p), visited) == TrackedPairs(p)
  {
    forall e | e in Into(ReadPairs(p), visited) ensures e in Into(ReadPairs(p), FirstNames(p)) {
      assert e in ReadPairs(p);
    }
  }
}
