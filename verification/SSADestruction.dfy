/** The two passes of SSA destruction: one that emits calls and records replacements, one that replaces. */
module SSADestruction {
  import opened Paths
  import opened Coalescing
  import opened Ssa
  import opened Lowered
  import opened Linearity

  /** `p` with a coalescing map and nothing else known of it. */
  ghost function With(p: Program, m: Renaming): Setting {
    Setting(p, map[], map[], m, {})
  }

  /** The entries that visiting the first `n` instructions of `block` makes are there. */
  ghost predicate RecordedUpTo(p: Program, m: Renaming, block: Label, n: nat) {
    forall pc: nat {:trigger UpdateRecorded(With(p, m), block, pc)} :: pc <= n ==> UpdateRecorded(With(p, m), block, pc)
  }

  ghost predicate BlockRecorded(p: Program, m: Renaming, block: Label) {
    block in p ==> RecordedUpTo(p, m, block, |p[block].body|)
  }

  /** Every update in the blocks of `seen` is recorded. */
  ghost predicate AllRecorded(p: Program, m: Renaming, seen: set<Label>) {
    forall b {:trigger BlockRecorded(p, m, b)} :: b in seen ==> BlockRecorded(p, m, b)
  }

  ghost predicate OnlyUpdates(p: Program, m: Renaming) {
    forall n {:trigger IsUpdate(With(p, m), n)} :: IsUpdate(With(p, m), n)
  }

  ghost predicate OneUpdate(p: Program, b: Label, pc: nat, b': Label, pc': nat, n: Name) {
    DefinesByUpdate(With(p, map[]), b, pc, n) && DefinesByUpdate(With(p, map[]), b', pc', n) ==> b == b' && pc == pc'
  }

  ghost predicate UpdatesUnique(p: Program) {
    forall b, pc, b', pc', n {:trigger OneUpdate(p, b, pc, b', pc', n)} :: OneUpdate(p, b, pc, b', pc', n)
  }

  ghost predicate IsUpdateAt(p: Program, block: Label, pc: nat) {
    block in p && 1 <= pc <= |p[block].body| && p[block].body[pc - 1].Update?
  }

  /** Recording one update disturbs no other entry, because no other update has its name. */
  lemma RecordStep(p: Program, m: Renaming, block: Label, pc: nat, other: Label, k: nat)
    requires UpdatesUnique(p) && IsUpdateAt(p, block, pc)
    requires (other == block && k == pc) || UpdateRecorded(With(p, m), other, k)
    ensures UpdateRecorded(With(p, m[p[block].body[pc - 1].def := p[block].body[pc - 1].obj]), other, k)
  {
    assert OneUpdate(p, block, pc, other, k, p[block].body[pc - 1].def);
  }

  lemma OnlyUpdatesStep(p: Program, m: Renaming, block: Label, pc: nat)
    requires OnlyUpdates(p, m) && IsUpdateAt(p, block, pc)
    ensures OnlyUpdates(p, m[p[block].body[pc - 1].def := p[block].body[pc - 1].obj])
  {
    var d, o := p[block].body[pc - 1].def, p[block].body[pc - 1].obj;
    forall n {:trigger IsUpdate(With(p, m[d := o]), n)} ensures IsUpdate(With(p, m[d := o]), n) {
      assert IsUpdate(With(p, m), n);
      if n == d {
        assert DefinesByUpdate(With(p, m[d := o]), block, pc, d);
      } else if n in m {
        var b, k :| DefinesByUpdate(With(p, m), b, k, n);
        assert DefinesByUpdate(With(p, m[d := o]), b, k, n);
      }
    }
  }

  /** From the result of each update to its operand. */
  ghost function UpdateLinks(p: Program): Relation<Name> {
    set b, i | b in p && 0 <= i < |p[b].body| && p[b].body[i].Update? :: (p[b].body[i].def, p[b].body[i].obj)
  }

  lemma LinksOfUpdates(p: Program, m: Renaming)
    requires OnlyUpdates(p, m) && AllRecorded(p, m, p.Keys)
    ensures Links(m) <= UpdateLinks(p)
    ensures Acyclic(UpdateLinks(p)) ==> Chains(m)
    ensures forall n :: n in m ==> (n, m[n]) in UpdateLinks(p)
  {
    forall n | n in m ensures (n, m[n]) in UpdateLinks(p) {
      assert IsUpdate(With(p, m), n);
      var b, pc :| DefinesByUpdate(With(p, m), b, pc, n);
      assert BlockRecorded(p, m, b) && UpdateRecorded(With(p, m), b, pc);
    }
    forall n | ReachPlus(Links(m), n, n) ensures ReachPlus(UpdateLinks(p), n, n) {
      var c :| (n, c) in Links(m) && Reach(Links(m), c, n);
      ReachMono(Links(m), UpdateLinks(p), c, n);
    }
  }

  class Visitor {
    var code: LProgram
    var coalescedValues: Renaming
    var replacedValues: Renaming
    /** The code before any coalescing, and the names coalesced since. */
    ghost var emitted: LProgram
    ghost var done: set<Name>

    /** Coalescing has renamed every use to the first unfinished name on its chain. */
    ghost predicate Valid()
      reads this
    {
      && Chains(coalescedValues)
      && Replaced(coalescedValues, done, replacedValues)
      && code == RenameProgram(Forwarded(coalescedValues, done), emitted)
    }

    constructor ()
      ensures coalescedValues == map[] && code == map[]
    {
      code := map[];
      coalescedValues := map[];
      replacedValues := map[];
      emitted := map[];
      done := {};
    }

    /** Each instruction becomes its call; an update's uses are to become its operand. */
    method VisitBlock(p: Program, block: Label, ghost seen: set<Label>)
      requires block in p && UpdatesUnique(p) && OnlyUpdates(p, coalescedValues)
      requires AllRecorded(p, coalescedValues, seen)
      modifies this`code, this`coalescedValues
      ensures OnlyUpdates(p, coalescedValues)
      ensures AllRecorded(p, coalescedValues, seen + {block})
      ensures code == old(code)[block := LowerBlock(p[block])]
    {
      var body: seq<LInst> := [];
      var i := 0;
      while i < |p[block].body|
        invariant i <= |p[block].body| && |body| == i && code == old(code)
        invariant forall k :: 0 <= k < i ==> body[k] == LowerInst(p[block].body[k])
        invariant OnlyUpdates(p, coalescedValues) && RecordedUpTo(p, coalescedValues, block, i)
        invariant AllRecorded(p, coalescedValues, seen)
      {
        var inst := p[block].body[i];
        body := body + [LowerInst(inst)];
        if inst.Update? {
          KeepRecorded(p, coalescedValues, block, i + 1, seen);
          coalescedValues := coalescedValues[inst.def := inst.obj];
        } else {
          NotRecorded(p, coalescedValues, block, i + 1);
        }
        i := i + 1;
      }
      assert body == LowerBlock(p[block]).body;
      code := code[block := LBlock(p[block].phis, body, p[block].term)];
    }

    /** The first pass, over the blocks in any order. */
    method Visit(p: Program)
      requires UpdatesUnique(p) && coalescedValues == map[] && code == map[]
      modifies this
      ensures code == LowerProgram(p)
      ensures OnlyUpdates(p, coalescedValues)
      ensures AllRecorded(p, coalescedValues, p.Keys)
    {
      var todo := p.Keys;
      ghost var seen: set<Label> := {};
      while todo != {}
        invariant seen + todo == p.Keys && seen !! todo
        invariant OnlyUpdates(p, coalescedValues)
        invariant AllRecorded(p, coalescedValues, seen)
        invariant code == map l | l in seen :: LowerBlock(p[l])
      {
        var block :| block in todo;
        VisitBlock(p, block, seen);
        todo := todo - {block};
        seen := seen + {block};
      }
      assert code == LowerProgram(p);
    }

    method FindReplacement(value: Name) returns (replacement: Name)
      requires Valid()
      ensures replacement == Forward(coalescedValues, done, value)
    {
      replacement := value;
      while replacement in replacedValues
        invariant Forward(coalescedValues, done, replacement) == Forward(coalescedValues, done, value)
        decreases Onward(coalescedValues, replacement)
      {
        assert ReplacedAlong(coalescedValues, done, replacedValues, replacement);
        replacement := replacedValues[replacement];
      }
    }

    method DoCoalesce(v: Name)
      requires Valid()
      modifies this`code, this`replacedValues, this`done
      ensures Valid()
      ensures done == if v in coalescedValues then old(done) + {v} else old(done)
    {
      if v !in coalescedValues {
        return;
      }
      var replacement := FindReplacement(coalescedValues[v]);
      CoalesceStep(coalescedValues, done, replacedValues, v);
      RenameStep(coalescedValues, done, v, emitted);
      code := RenameProgram(map[v := replacement], code);
      replacedValues := replacedValues[v := replacement];
      done := done + {v};
    }

    /** The second pass: any list of names that holds every recorded one, in any order, with any others. */
    method CoalesceAll(names: seq<Name>)
      requires Chains(coalescedValues) && coalescedValues.Keys <= Names(names)
      modifies this
      ensures coalescedValues == old(coalescedValues) && emitted == old(code)
      ensures code == RenameProgram(Forwarded(coalescedValues, coalescedValues.Keys), emitted)
      ensures Chains(coalescedValues) && Replaced(coalescedValues, coalescedValues.Keys, replacedValues)
    {
      emitted, done, replacedValues := code, {}, map[];
      RenameNothing(code);
      assert Forwarded(coalescedValues, {}) == map[];
      for i := 0 to |names|
        invariant Valid() && coalescedValues == old(coalescedValues) && emitted == old(code)
        invariant done == Names(names[..i]) * coalescedValues.Keys
      {
        DoCoalesce(names[i]);
        NamesStep(names, i);
      }
      assert names[..|names|] == names;
      assert done == coalescedValues.Keys;
    }

    /** Both passes leave the destructed program, whatever order the names are coalesced in. */
    method Run(p: Program, order: seq<Name>)
      requires UpdatesUnique(p) && coalescedValues == map[] && code == map[]
      requires Acyclic(UpdateLinks(p)) && forall e :: e in UpdateLinks(p) ==> e.0 in Names(order)
      modifies this
      ensures OnlyUpdates(p, coalescedValues) && Chains(coalescedValues)
      ensures AllRecorded(p, coalescedValues, p.Keys)
      ensures code == Destruct(p, coalescedValues)
    {
      Visit(p);
      LinksOfUpdates(p, coalescedValues);
      CoalesceAll(order);
    }
  }

  lemma NamesStep(names: seq<Name>, i: nat)
    requires i < |names|
    ensures Names(names[..i + 1]) == Names(names[..i]) + {names[i]}
  {
    var longer := names[..i + 1];
    forall n ensures n in Names(longer) <==> n in Names(names[..i]) + {names[i]} {
      if n in Names(names[..i]) {
        var k :| 0 <= k < i && names[..i][k] == n;
        assert longer[k] == n;
      }
      assert longer[i] == names[i];
    }
  }

  lemma KeepRecorded(p: Program, m: Renaming, block: Label, pc: nat, seen: set<Label>)
    requires UpdatesUnique(p) && IsUpdateAt(p, block, pc)
    requires OnlyUpdates(p, m) && RecordedUpTo(p, m, block, pc - 1) && AllRecorded(p, m, seen)
    ensures var m' := m[p[block].body[pc - 1].def := p[block].body[pc - 1].obj];
            OnlyUpdates(p, m') && RecordedUpTo(p, m', block, pc) && AllRecorded(p, m', seen)
  {
    var m' := m[p[block].body[pc - 1].def := p[block].body[pc - 1].obj];
    OnlyUpdatesStep(p, m, block, pc);
    forall k: nat {:trigger UpdateRecorded(With(p, m'), block, k)} | k <= pc
      ensures UpdateRecorded(With(p, m'), block, k)
    {
      if k < pc {
        assert UpdateRecorded(With(p, m), block, k);
      }
      RecordStep(p, m, block, pc, block, k);
    }
    forall b {:trigger BlockRecorded(p, m', b)} | b in seen && b in p ensures BlockRecorded(p, m', b) {
      assert BlockRecorded(p, m, b);
      forall k: nat {:trigger UpdateRecorded(With(p, m'), b, k)} | k <= |p[b].body|
        ensures UpdateRecorded(With(p, m'), b, k)
      {
        assert UpdateRecorded(With(p, m), b, k);
        RecordStep(p, m, block, pc, b, k);
      }
    }
  }

  lemma NotRecorded(p: Program, m: Renaming, block: Label, pc: nat)
    requires block in p && 1 <= pc <= |p[block].body| && RecordedUpTo(p, m, block, pc - 1)
    requires !p[block].body[pc - 1].Update?
    ensures RecordedUpTo(p, m, block, pc)
  {
  }

  /** One replace-all-uses takes the renaming of `done` to that of `done + {v}`. */
  lemma RenameStep(m: Renaming, done: set<Name>, v: Name, emitted: LProgram)
    requires Chains(m) && v in m
    ensures RenameProgram(map[v := Forward(m, done, m[v])], RenameProgram(Forwarded(m, done), emitted))
         == RenameProgram(Forwarded(m, done + {v}), emitted)
  {
    var w := Forward(m, done, m[v]);
    ForwardPast(m, done, v);
    forall n ensures Resolve(map[v := w], Resolve(Forwarded(m, done), n)) == Resolve(Forwarded(m, done + {v}), n) {
      ForwardStep(m, done, v, n);
      ForwardedAt(m, done, n);
      ForwardedAt(m, done + {v}, n);
    }
    RenameTwice(Forwarded(m, done), map[v := w], Forwarded(m, done + {v}), emitted);
  }
}
