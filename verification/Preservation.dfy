/** In-place lowering preserves meaning: a functional run and a run of the destructed program go in lockstep. */
module Preservation {
  import opened Wrappers
  import opened Coalescing
  import opened Ssa
  import opened Lowered
  import opened Linearity

  /** The name that stands for `x` once every use is renamed. */
  ghost function Rep(s: Setting, x: Name): Name
    requires Chains(s.coalesced)
  {
    ChainEnd(s.coalesced, x)
  }

  ghost predicate SameValue(s: Setting, env: Env, mem: Memory, x: Name)
    requires Chains(s.coalesced)
  {
    x in env && Rep(s, x) in mem.env && Deref(mem.heap, mem.env[Rep(s, x)]) == Some(env[x])
  }

  ghost predicate Apart(s: Setting, mem: Memory, x: Name, y: Name)
    requires Chains(s.coalesced)
  {
    Rep(s, x) in mem.env && Rep(s, y) in mem.env && mem.env[Rep(s, x)].Ref? ==>
      mem.env[Rep(s, x)] != mem.env[Rep(s, y)]
  }

  /** At every place the live names agree, and a name that may be updated shares its cell with no other. */
  ghost predicate Sim(s: Setting, live: set<Name>, env: Env, mem: Memory)
    requires Chains(s.coalesced)
  {
    && (forall x {:trigger SameValue(s, env, mem, x)} :: x in live ==> SameValue(s, env, mem, x))
    && (forall x, y {:trigger Apart(s, mem, x, y)} ::
          x in live && y in live && x != y && x in s.part ==> Apart(s, mem, x, y))
  }

  ghost predicate Related(s: Setting, c: Conf<Env>, d: Conf<Memory>)
    requires Chains(s.coalesced)
  {
    match (c, d)
    case (At(l, env), At(l', mem)) => l == l' && Sim(s, LiveAt(s, l), env, mem)
    case (Done(v), Done(w)) => v == w
    case (Stuck, Stuck) => true
    case _ => false
  }

  ghost function Target(s: Setting): LProgram
    requires Chains(s.coalesced)
  {
    Destruct(s.p, s.coalesced)
  }

  ghost function Sigma(s: Setting): Renaming
    requires Chains(s.coalesced)
  {
    Forwarded(s.coalesced, s.coalesced.Keys)
  }

  lemma SigmaIsRep(s: Setting, x: Name)
    requires Chains(s.coalesced)
    ensures Resolve(Sigma(s), x) == Rep(s, x)
  {
    ForwardedAt(s.coalesced, s.coalesced.Keys, x);
  }

  // ---- operands ----

  lemma ArgsAgree(s: Setting, live: set<Name>, env: Env, mem: Memory, names: seq<Name>)
    requires Chains(s.coalesced) && Sim(s, live, env, mem) && Names(names) <= live
    ensures LookupAll(env, names).Some?
    ensures ReadArgs(mem, RenameAll(Sigma(s), names)) == LookupAll(env, names)
  {
    var renamed := RenameAll(Sigma(s), names);
    forall i | 0 <= i < |names|
      ensures names[i] in env && renamed[i] in mem.env && Deref(mem.heap, mem.env[renamed[i]]) == Some(env[names[i]])
    {
      assert names[i] in live;
      assert SameValue(s, env, mem, names[i]);
      SigmaIsRep(s, names[i]);
    }
    var words := LookupAll(mem.env, renamed).value;
    assert DerefAll(mem.heap, words).value == LookupAll(env, names).value;
  }

  lemma CellAgrees(s: Setting, live: set<Name>, env: Env, mem: Memory, o: Name)
    requires Chains(s.coalesced) && Sim(s, live, env, mem) && o in live
    ensures o in env
    ensures env[o].Collection? <==> CellOf(mem, Resolve(Sigma(s), o)).Some?
    ensures env[o].Collection? ==> mem.heap[CellOf(mem, Resolve(Sigma(s), o)).value] == env[o].c
  {
    assert SameValue(s, env, mem, o);
    SigmaIsRep(s, o);
  }

  // ---- the three ways in which a step changes what names mean ----

  /** A name that is not coalesced gets a number, or a cell of its own. */
  lemma DefineSim(s: Setting, live: set<Name>, live': set<Name>, env: Env, mem: Memory, d: Name, v: Value, w: Word,
          heap': Heap)
    requires Chains(s.coalesced) && Sim(s, live, env, mem)
    requires live' - {d} <= live && d !in s.coalesced
    requires forall x :: x in live' && x in s.coalesced ==> Rep(s, x) != d
    requires mem.heap <= heap' && Deref(heap', w) == Some(v) && (w.Ref? ==> w.cell == |mem.heap|)
    ensures Sim(s, live', env[d := v], Memory(mem.env[d := w], heap'))
  {
    var env', mem' := env[d := v], Memory(mem.env[d := w], heap');
    forall x | x in live' ensures Rep(s, x) == d <==> x == d {
      ChainEndEnds(s.coalesced, x);
    }
    forall x {:trigger SameValue(s, env', mem', x)} | x in live' ensures SameValue(s, env', mem', x) {
      if x != d {
        assert SameValue(s, env, mem, x);
      }
    }
    forall x, y {:trigger Apart(s, mem', x, y)} | x in live' && y in live' && x != y && x in s.part
      ensures Apart(s, mem', x, y)
    {
      if x == d {
        assert SameValue(s, env, mem, y);
      } else if y == d {
        assert SameValue(s, env, mem, x);
      } else {
        assert Apart(s, mem, x, y);
      }
    }
  }

  /** The cell of a consumed operand is overwritten, and now belongs to the result. */
  lemma MutateSim(s: Setting, live: set<Name>, live': set<Name>, env: Env, mem: Memory, d: Name, o: Name, c: Coll)
    requires Chains(s.coalesced) && Sim(s, live, env, mem)
    requires o in live && o !in live' && live' - {d} <= live
    requires d in s.coalesced && s.coalesced[d] == o && SamePart(s.part, d, o)
    requires CellOf(mem, Rep(s, o)).Some?
    ensures Sim(s, live', env[d := Collection(c)], Memory(mem.env, mem.heap[CellOf(mem, Rep(s, o)).value := c]))
  {
    var cell := CellOf(mem, Rep(s, o)).value;
    var env', mem' := env[d := Collection(c)], Memory(mem.env, mem.heap[cell := c]);
    ChainEndEnds(s.coalesced, d);
    assert Rep(s, d) == Rep(s, o);
    forall x {:trigger SameValue(s, env', mem', x)} | x in live' ensures SameValue(s, env', mem', x) {
      if x != d {
        assert SameValue(s, env, mem, x) && Apart(s, mem, o, x);
      }
    }
    forall x, y {:trigger Apart(s, mem', x, y)} | x in live' && y in live' && x != y && x in s.part
      ensures Apart(s, mem', x, y)
    {
      if x == d {
        assert Apart(s, mem, o, y);
      } else if y == d {
        assert Apart(s, mem, x, o);
      } else {
        assert Apart(s, mem, x, y);
      }
    }
  }

  /** Fewer live names ask for less. */
  lemma SimShrinks(s: Setting, live: set<Name>, live': set<Name>, env: Env, mem: Memory)
    requires Chains(s.coalesced) && Sim(s, live, env, mem) && live' <= live
    ensures Sim(s, live', env, mem)
  {
  }

  // ---- instructions ----

  /** What holds of the setting, all of it checked or assumed before lowering. */
  ghost predicate Lowerable(s: Setting) {
    && SsaForm(s) && SoundLiveness(s) && Dominance(s)
    && Linear(s) && UpdatesJoined(s) && PhiClosed(s) && UpdatesConsume(s)
  }

  /** A step of a non-update: its name gets the same value on both sides, in a cell of its own if it is a collection. */
  ghost predicate SameResult(env: Env, mem: Memory, d: Name, fv: Option<Value>, hm: Option<Memory>) {
    match (fv, hm)
    case (None, None) => true
    case (Some(v), Some(after)) =>
      exists w :: after.env == mem.env[d := w] && mem.heap <= after.heap
        && Deref(after.heap, w) == Some(v) && (w.Ref? ==> w.cell == |mem.heap|)
    case _ => false
  }

  lemma AllocateSame(env: Env, mem: Memory, d: Name, c: Option<Coll>)
    ensures SameResult(env, mem, d, Wrap(c), Allocate(mem, d, c))
  {
    if c.Some? {
      var after := Allocate(mem, d, c).value;
      assert after.env == mem.env[d := Ref(|mem.heap|)] &&
          Deref(after.heap, Ref(|mem.heap|)) == Some(Collection(c.value));
    }
  }

  lemma DefineSame(env: Env, mem: Memory, d: Name, n: Option<int>)
    ensures SameResult(env, mem, d, WrapNum(n), Define(mem, d, n))
  {
    if n.Some? {
      var after := Define(mem, d, n).value;
      assert after.env == mem.env[d := Int(n.value)] && Deref(after.heap, Int(n.value)) == Some(Num(n.value));
    }
  }

  lemma PlainInstSame(s: Setting, live: set<Name>, env: Env, mem: Memory, inst: Inst)
    requires Chains(s.coalesced) && Sim(s, live, env, mem) && Uses(inst) <= live && !inst.Update?
    ensures SameResult(env, mem, inst.def, InstValue(env, inst), Execute(mem, RenameInst(Sigma(s), LowerInst(inst))))
  {
    ArgsAgree(s, live, env, mem, inst.args);
    var args := LookupAll(env, inst.args).value;
    match inst {
      case Alloc(d, kind, _) => AllocateSame(env, mem, d, NewCollection(kind, args));
      case Copy(d, src, _) =>
        CellAgrees(s, live, env, mem, src);
        if env[src].Collection? { AllocateSame(env, mem, d, CopyOf(env[src].c, args)); }
      case Ask(d, obj, q, _) =>
        CellAgrees(s, live, env, mem, obj);
        if env[obj].Collection? { DefineSame(env, mem, d, Answer(q, env[obj].c, args)); }
      case Compute(d, fn, _) => DefineSame(env, mem, d, Evaluate(fn, args));
    }
  }

  lemma OneSite(s: Setting, b: Label, pc: nat, b': Label, pc': nat, n: Name)
    requires SsaForm(s) && n in Defs(s.p, b, pc) && n in Defs(s.p, b', pc')
    ensures b == b' && pc == pc'
  {
    assert DefinedOnce(s, b, pc, b', pc', n);
  }

  lemma NotCoalesced(s: Setting, block: Label, pc: nat, d: Name)
    requires SsaForm(s) && d in Defs(s.p, block, pc)
    requires pc == 0 || (block in s.p && 1 <= pc <= |s.p[block].body| && !s.p[block].body[pc - 1].Update?)
    ensures d !in s.coalesced
  {
    assert IsUpdate(s, d);
    if d in s.coalesced {
      var b, k :| DefinesByUpdate(s, b, k, d);
      OneSite(s, block, pc, b, k, d);
    }
  }

  lemma TargetBlock(s: Setting, l: Label)
    requires Chains(s.coalesced)
    ensures l in Target(s) <==> l in s.p
    ensures l in s.p ==> Target(s)[l] == RenameBlock(Sigma(s), LowerBlock(s.p[l]))
  {
  }

  /** What both runs do at an instruction. */
  lemma InstSteps(s: Setting, l: Loc, env: Env, mem: Memory)
    requires Chains(s.coalesced) && l.block in s.p && 1 <= l.pc <= |s.p[l.block].body|
    ensures var inst := s.p[l.block].body[l.pc - 1];
      var renamed := RenameInst(Sigma(s), LowerInst(inst));
      && FStep(s.p, At(l, env))
          == (match InstValue(env, inst) case Some(v) => At(Next(l), env[inst.def := v]) case None => Stuck)
      && HStep(Target(s), At(l, mem))
          == (match Execute(mem, renamed) case Some(after) => At(Next(l), after) case None => Stuck)
  {
    TargetBlock(s, l.block);
    assert Target(s)[l.block].body[l.pc - 1] == RenameInst(Sigma(s), LowerInst(s.p[l.block].body[l.pc - 1]));
  }

  lemma PlainInstSim(s: Setting, path: seq<Loc>, env: Env, mem: Memory, after: Memory)
    requires Lowerable(s) && IsPath(s, path)
    requires var l := path[|path| - 1];
             && l.block in s.p && 1 <= l.pc <= |s.p[l.block].body| && !s.p[l.block].body[l.pc - 1].Update?
             && Sim(s, LiveAt(s, l), env, mem)
             && InstValue(env, s.p[l.block].body[l.pc - 1]).Some?
             && Execute(mem, RenameInst(Sigma(s), LowerInst(s.p[l.block].body[l.pc - 1]))) == Some(after)
    ensures var l := path[|path| - 1]; var inst := s.p[l.block].body[l.pc - 1];
            Sim(s, LiveAt(s, Next(l)), env[inst.def := InstValue(env, inst).value], after)
  {
    var l := path[|path| - 1];
    var inst := s.p[l.block].body[l.pc - 1];
    assert SoundAt(s, l.block, l.pc);
    PlainInstSame(s, LiveAt(s, l), env, mem, inst);
    var v := InstValue(env, inst).value;
    var w :| after.env == mem.env[inst.def := w] && mem.heap <= after.heap
      && Deref(after.heap, w) == Some(v) && (w.Ref? ==> w.cell == |mem.heap|);
    NotCoalesced(s, l.block, l.pc, inst.def);
    forall x | x in LiveAt(s, Next(l)) && x in s.coalesced ensures Rep(s, x) != inst.def {
      NoStaleAlias(s, path, inst.def, x);
    }
    DefineSim(s, LiveAt(s, l), LiveAt(s, Next(l)), env, mem, inst.def, v, w, after.heap);
  }

  lemma PlainInstStep(s: Setting, path: seq<Loc>, env: Env, mem: Memory)
    requires Lowerable(s) && IsPath(s, path)
    requires var l := path[|path| - 1];
             && l.block in s.p && 1 <= l.pc <= |s.p[l.block].body| && !s.p[l.block].body[l.pc - 1].Update?
             && Sim(s, LiveAt(s, l), env, mem)
    ensures Related(s, FStep(s.p, At(path[|path| - 1], env)), HStep(Target(s), At(path[|path| - 1], mem)))
  {
    var l := path[|path| - 1];
    var inst := s.p[l.block].body[l.pc - 1];
    InstSteps(s, l, env, mem);
    assert SoundAt(s, l.block, l.pc);
    PlainInstSame(s, LiveAt(s, l), env, mem, inst);
    if InstValue(env, inst).Some? {
      PlainInstSim(s, path, env, mem, Execute(mem, RenameInst(Sigma(s), LowerInst(inst))).value);
    }
  }

  lemma UpdateStep(s: Setting, path: seq<Loc>, env: Env, mem: Memory)
    requires Lowerable(s) && IsPath(s, path)
    requires var l := path[|path| - 1];
             && l.block in s.p && 1 <= l.pc <= |s.p[l.block].body| && s.p[l.block].body[l.pc - 1].Update?
             && Sim(s, LiveAt(s, l), env, mem)
    ensures Related(s, FStep(s.p, At(path[|path| - 1], env)), HStep(Target(s), At(path[|path| - 1], mem)))
  {
    var l := path[|path| - 1];
    var inst := s.p[l.block].body[l.pc - 1];
    InstSteps(s, l, env, mem);
    assert SoundAt(s, l.block, l.pc) && UpdateJoined(s, l.block, l.pc);
    assert UpdateRecorded(s, l.block, l.pc) && Consumes(s, l.block, l.pc);
    ArgsAgree(s, LiveAt(s, l), env, mem, inst.args);
    CellAgrees(s, LiveAt(s, l), env, mem, inst.obj);
    SigmaIsRep(s, inst.obj);
    var fv := InstValue(env, inst);
    if fv.Some? {
      MutateSim(s, LiveAt(s, l), LiveAt(s, Next(l)), env, mem, inst.def, inst.obj, fv.value.c);
    }
  }

  // ---- terminators ----

  lemma TermStep(s: Setting, l: Loc, env: Env, mem: Memory)
    requires Lowerable(s) && l.block in s.p && l.pc == |s.p[l.block].body| + 1
    requires Sim(s, LiveAt(s, l), env, mem)
    ensures Related(s, FStep(s.p, At(l, env)), HStep(Target(s), At(l, mem)))
  {
    TargetBlock(s, l.block);
    assert SoundAt(s, l.block, l.pc);
    match s.p[l.block].term {
      case Jump(target) =>
        SimShrinks(s, LiveAt(s, l), LiveAt(s, Enter(l, target)), env, mem);
      case Branch(cond, ifTrue, ifFalse) =>
        assert SameValue(s, env, mem, cond);
        SigmaIsRep(s, cond);
        SimShrinks(s, LiveAt(s, l), LiveAt(s, Enter(l, ifTrue)), env, mem);
        SimShrinks(s, LiveAt(s, l), LiveAt(s, Enter(l, ifFalse)), env, mem);
      case Return(v) =>
        assert SameValue(s, env, mem, v);
        SigmaIsRep(s, v);
    }
  }

  // ---- PHIs ----

  /** Where the value of `x` comes from when the PHIs are entered from `prev`. */
  ghost predicate Source(phis: seq<Phi>, prev: Label, x: Name, src: Name) {
    if x in PhiDefs(phis) then
      exists i :: 0 <= i < |phis| && phis[i].def == x && prev in phis[i].incoming && phis[i].incoming[prev] == src
    else src == x
  }

  lemma PhisReadySame(s: Setting, b: Block, prev: Label, live: set<Name>, env: Env, mem: Memory)
    requires Chains(s.coalesced) && Sim(s, live, env, mem) && Incoming(b.phis, prev) <= live
    ensures PhisReady(b.phis, prev, env) <==> PhisReady(RenameBlock(Sigma(s), LowerBlock(b)).phis, prev, mem.env)
  {
    var phis' := RenameBlock(Sigma(s), LowerBlock(b)).phis;
    forall i | 0 <= i < |b.phis|
      ensures prev in phis'[i].incoming <==> prev in b.phis[i].incoming
      ensures prev in b.phis[i].incoming ==> b.phis[i].incoming[prev] in env && phis'[i].incoming[prev] in mem.env
    {
      assert phis'[i] == RenamePhi(Sigma(s), b.phis[i]);
      if prev in b.phis[i].incoming {
        assert b.phis[i].incoming[prev] in Incoming(b.phis, prev);
        assert SameValue(s, env, mem, b.phis[i].incoming[prev]);
        SigmaIsRep(s, b.phis[i].incoming[prev]);
      }
    }
  }

  lemma RenamedPhiDefs(s: Setting, b: Block)
    requires Chains(s.coalesced)
    ensures PhiDefs(RenameBlock(Sigma(s), LowerBlock(b)).phis) == PhiDefs(b.phis)
  {
    var phis' := RenameBlock(Sigma(s), LowerBlock(b)).phis;
    assert |phis'| == |b.phis| && forall i :: 0 <= i < |b.phis| ==> phis'[i] == RenamePhi(Sigma(s), b.phis[i]);
    forall n ensures n in PhiDefs(phis') <==> n in PhiDefs(b.phis) {
      if n in PhiDefs(phis') {
        var i :| 0 <= i < |phis'| && phis'[i].def == n;
        assert b.phis[i].def == n;
      }
      if n in PhiDefs(b.phis) {
        var i :| 0 <= i < |b.phis| && b.phis[i].def == n;
        assert phis'[i].def == n;
      }
    }
  }

  lemma PhiValueAt<V>(phis: seq<Phi>, prev: Label, env: map<Name, V>, i: nat)
    requires DistinctPhis(phis) && PhisReady(phis, prev, env) && i < |phis|
    ensures phis[i].def in PhiDefs(phis) && prev in phis[i].incoming && phis[i].incoming[prev] in env
    ensures PhiValues(phis, prev, env)[phis[i].def] == env[phis[i].incoming[prev]]
  {
    var x := phis[i].def;
    assert x in PhiDefs(phis);
    var k :| 0 <= k < |phis| && phis[k].def == x && PhiValues(phis, prev, env)[x] == env[phis[k].incoming[prev]];
    assert k == i;
  }

  lemma RenamedPhi(s: Setting, b: Block, i: nat)
    requires Chains(s.coalesced) && i < |b.phis|
    ensures RenameBlock(Sigma(s), LowerBlock(b)).phis[i] == RenamePhi(Sigma(s), b.phis[i])
  {
  }

  lemma RenamedPhisDistinct(s: Setting, b: Block)
    requires Chains(s.coalesced) && DistinctPhis(b.phis)
    ensures DistinctPhis(RenameBlock(Sigma(s), LowerBlock(b)).phis)
  {
    var phis' := RenameBlock(Sigma(s), LowerBlock(b)).phis;
    forall i, j | 0 <= i < j < |phis'| ensures phis'[i].def != phis'[j].def {
      RenamedPhi(s, b, i);
      RenamedPhi(s, b, j);
    }
  }

  /** After the PHIs each name holds what its source held, on both sides. */
  lemma PhiSource(s: Setting, b: Block, prev: Label, env: Env, mem: Memory, x: Name) returns (src: Name)
    requires Chains(s.coalesced) && DistinctPhis(b.phis)
    requires PhisReady(b.phis, prev, env) && PhisReady(RenameBlock(Sigma(s), LowerBlock(b)).phis, prev, mem.env)
    requires Rep(s, x) in PhiDefs(b.phis) ==> Rep(s, x) == x
    requires x in PhiDefs(b.phis) ==> Rep(s, x) == x
    ensures Source(b.phis, prev, x, src) && (x in PhiDefs(b.phis) ==> src in Incoming(b.phis, prev))
    ensures var env' := env + PhiValues(b.phis, prev, env);
            (x in env' <==> src in env) && (src in env ==> env'[x] == env[src])
    ensures var henv' := mem.env + PhiValues(RenameBlock(Sigma(s), LowerBlock(b)).phis, prev, mem.env);
            (Rep(s, x) in henv' <==> Rep(s, src) in mem.env) &&
                (Rep(s, src) in mem.env ==> henv'[Rep(s, x)] == mem.env[Rep(s, src)])
  {
    RenamedPhiDefs(s, b);
    if x in PhiDefs(b.phis) {
      var i :| 0 <= i < |b.phis| && b.phis[i].def == x;
      RenamedPhisDistinct(s, b);
      RenamedPhi(s, b, i);
      PhiValueAt(b.phis, prev, env, i);
      PhiValueAt(RenameBlock(Sigma(s), LowerBlock(b)).phis, prev, mem.env, i);
      src := b.phis[i].incoming[prev];
      SigmaIsRep(s, src);
    } else {
      src := x;
    }
  }

  lemma PhiStep(s: Setting, path: seq<Loc>, env: Env, mem: Memory)
    requires Lowerable(s) && IsPath(s, path)
    requires var l := path[|path| - 1]; l.block in s.p && l.pc == 0 && Sim(s, LiveAt(s, l), env, mem)
    ensures Related(s, FStep(s.p, At(path[|path| - 1], env)), HStep(Target(s), At(path[|path| - 1], mem)))
  {
    var l := path[|path| - 1];
    var b := s.p[l.block];
    var phis' := RenameBlock(Sigma(s), LowerBlock(b)).phis;
    TargetBlock(s, l.block);
    PhisReadySame(s, b, l.prev, LiveAt(s, l), env, mem);
    if PhisReady(b.phis, l.prev, env) {
      var env' := env + PhiValues(b.phis, l.prev, env);
      var mem' := Memory(mem.env + PhiValues(phis', l.prev, mem.env), mem.heap);
      var live' := LiveAt(s, Next(l));
      assert DistinctPhis(s.p[l.block].phis);
      forall x {:trigger SameValue(s, env', mem', x)} | x in live' ensures SameValue(s, env', mem', x) {
        var src := LivePhiSource(s, path, env, mem, x);
        assert SameValue(s, env, mem, src);
      }
      forall x, y {:trigger Apart(s, mem', x, y)} | x in live' && y in live' && x != y && x in s.part
        ensures Apart(s, mem', x, y)
      {
        var sx := LivePhiSource(s, path, env, mem, x);
        var sy := LivePhiSource(s, path, env, mem, y);
        SourcePart(s, l.block, l.prev, x, sx);
        SourcePart(s, l.block, l.prev, y, sy);
        assert LinearAt(s, l.block, 1);
        assert sx == sy ==> SamePart(s.part, x, y);
        assert Apart(s, mem, sx, sy);
      }
    }
  }

  /** The source of a name that is live after the PHIs is live along the edge. */
  lemma LivePhiSource(s: Setting, path: seq<Loc>, env: Env, mem: Memory, x: Name) returns (src: Name)
    requires Lowerable(s) && IsPath(s, path)
    requires var l := path[|path| - 1];
             && l.block in s.p && l.pc == 0 && x in LiveAt(s, Next(l))
             && PhisReady(s.p[l.block].phis, l.prev, env)
             && PhisReady(RenameBlock(Sigma(s), LowerBlock(s.p[l.block])).phis, l.prev, mem.env)
    ensures var l := path[|path| - 1];
            && Source(s.p[l.block].phis, l.prev, x, src) && src in LiveAt(s, l)
    ensures var l := path[|path| - 1]; var env' := env + PhiValues(s.p[l.block].phis, l.prev, env);
            (x in env' <==> src in env) && (src in env ==> env'[x] == env[src])
    ensures var l := path[|path| - 1];
            var henv' := mem.env + PhiValues(RenameBlock(Sigma(s), LowerBlock(s.p[l.block])).phis, l.prev, mem.env);
            (Rep(s, x) in henv' <==> Rep(s, src) in mem.env) &&
                (Rep(s, src) in mem.env ==> henv'[Rep(s, x)] == mem.env[Rep(s, src)])
  {
    var l := path[|path| - 1];
    var b := s.p[l.block];
    assert DistinctPhis(s.p[l.block].phis);
    ChainEndEnds(s.coalesced, x);
    if x in PhiDefs(b.phis) {
      NotCoalesced(s, l.block, 0, x);
    }
    if x in s.coalesced && Rep(s, x) in PhiDefs(b.phis) {
      NoStaleAlias(s, path, Rep(s, x), x);
    }
    src := PhiSource(s, b, l.prev, env, mem, x);
  }

  lemma SourcePart(s: Setting, block: Label, prev: Label, x: Name, src: Name)
    requires PhiClosed(s) && block in s.p && Source(s.p[block].phis, prev, x, src)
    ensures x in s.part || src in s.part ==> SamePart(s.part, x, src)
  {
    var phis := s.p[block].phis;
    if x in PhiDefs(phis) {
      var i :| 0 <= i < |phis| && phis[i].def == x && prev in phis[i].incoming && phis[i].incoming[prev] == src;
      assert PhiClosedAt(s, block, i, prev);
    }
  }

  // ---- whole runs ----

  lemma StepPreserves(s: Setting, path: seq<Loc>, env: Env, mem: Memory)
    requires Lowerable(s) && IsPath(s, path) && Sim(s, LiveAt(s, path[|path| - 1]), env, mem)
    ensures Related(s, FStep(s.p, At(path[|path| - 1], env)), HStep(Target(s), At(path[|path| - 1], mem)))
  {
    var l := path[|path| - 1];
    TargetBlock(s, l.block);
    if l.block in s.p {
      if l.pc == 0 {
        PhiStep(s, path, env, mem);
      } else if l.pc <= |s.p[l.block].body| {
        if s.p[l.block].body[l.pc - 1].Update? {
          UpdateStep(s, path, env, mem);
        } else {
          PlainInstStep(s, path, env, mem);
        }
      } else {
        PathInBlock(s, path);
        TermStep(s, l, env, mem);
      }
    }
  }

  lemma {:induction false} PathInBlock(s: Setting, path: seq<Loc>)
    requires IsPath(s, path) && path[|path| - 1].block in s.p
    ensures path[|path| - 1].pc <= |s.p[path[|path| - 1].block].body| + 1
  {
    if |path| > 1 {
      assert LocEdge(s, path[|path| - 2], path[|path| - 1]);
    }
  }

  /** The state in which a run starts: incoming names agree and share no cell that could be mutated. */
  ghost predicate Initial(s: Setting, env: Env, mem: Memory)
    requires Chains(s.coalesced)
  {
    Sim(s, s.incoming, env, mem)
  }

  lemma StartLive(s: Setting)
    requires Lowerable(s)
    ensures LiveAt(s, START) <= s.incoming
  {
    var path := [START];
    assert IsPath(s, path) && DominatedOn(s, path);
    forall x | x in LiveAt(s, START) ensures x in s.incoming {
      assert x in s.incoming || DefinedBefore(s, path, |path| - 1, x);
    }
  }

  /**
    The main theorem. From agreeing states, after any number of steps the functional run
    and the run of the destructed program are at the same place with the same values for
    every live name, have returned the same value, or are both stuck.
   */
  lemma {:induction false} LoweringPreservesMeaning(s: Setting, env: Env, mem: Memory, n: nat) returns (path: seq<Loc>)
    requires Lowerable(s) && Initial(s, env, mem)
    ensures Related(s, FRun(s.p, env, n), HRun(Target(s), mem, n))
    ensures FRun(s.p, env, n).At? ==> IsPath(s, path) && path[|path| - 1] == FRun(s.p, env, n).loc
  {
    if n == 0 {
      path := [START];
      StartLive(s);
      SimShrinks(s, s.incoming, LiveAt(s, START), env, mem);
    } else {
      path := LoweringPreservesMeaning(s, env, mem, n - 1);
      var c := FRun(s.p, env, n - 1);
      if c.At? {
        StepPreserves(s, path, c.state, HRun(Target(s), mem, n - 1).state);
        if FStep(s.p, c).At? {
          if c.loc.block in s.p { PathInBlock(s, path); }
          FStepFollowsEdges(s, c, FStep(s.p, c));
          PathExtend(s, path, FStep(s.p, c).loc);
          path := path + [FStep(s.p, c).loc];
        }
      }
    }
  }

  lemma FStepFollowsEdges(s: Setting, c: Conf<Env>, d: Conf<Env>)
    requires c.At? && d == FStep(s.p, c) && d.At?
    requires c.loc.block in s.p ==> c.loc.pc <= |s.p[c.loc.block].body| + 1
    ensures LocEdge(s, c.loc, d.loc)
  {
  }

  /** What an observer of the two programs sees: the same result, at the same step, or neither ever returns. */
  lemma SameOutcome(s: Setting, env: Env, mem: Memory, n: nat)
    requires Lowerable(s) && Initial(s, env, mem)
    ensures FRun(s.p, env, n).Done? <==> HRun(Target(s), mem, n).Done?
    ensures FRun(s.p, env, n).Done? ==> FRun(s.p, env, n).result == HRun(Target(s), mem, n).result
    ensures FRun(s.p, env, n).Stuck? <==> HRun(Target(s), mem, n).Stuck?
  {
    var _ := LoweringPreservesMeaning(s, env, mem, n);
  }

  // ---- the condition on updates is the one that is needed ----

  /** Everything but the consumption of operands. */
  ghost predicate Accepted(s: Setting) {
    && SsaForm(s) && SoundLiveness(s) && Dominance(s)
    && Linear(s) && UpdatesJoined(s) && PhiClosed(s)
  }

  lemma SameCells(s: Setting, live: set<Name>, live': set<Name>, env: Env, mem: Memory, d: Name, v: Value)
    requires Chains(s.coalesced) && Sim(s, live, env, mem) && live' <= live && d !in live'
    ensures Sim(s, live', env[d := v], mem)
  {
    var env' := env[d := v];
    forall x {:trigger SameValue(s, env', mem, x)} | x in live' ensures SameValue(s, env', mem, x) {
      assert SameValue(s, env, mem, x);
    }
  }

  /**
    An accepted program's update is lowered faithfully exactly when its operand is dead
    afterwards, or when the update happens to leave the operand as it was.
   */
  lemma UpdateFaithfulIff(s: Setting, path: seq<Loc>, env: Env, mem: Memory)
    requires Accepted(s) && IsPath(s, path)
    requires var l := path[|path| - 1];
             && l.block in s.p && 1 <= l.pc <= |s.p[l.block].body| && s.p[l.block].body[l.pc - 1].Update?
             && Sim(s, LiveAt(s, l), env, mem) && InstValue(env, s.p[l.block].body[l.pc - 1]).Some?
    ensures var l := path[|path| - 1]; var inst := s.p[l.block].body[l.pc - 1];
            Related(s, FStep(s.p, At(l, env)), HStep(Target(s), At(l, mem)))
            <==> (inst.obj !in LiveAt(s, Next(l)) || InstValue(env, inst) == Some(env[inst.obj]))
  {
    var l := path[|path| - 1];
    var inst := s.p[l.block].body[l.pc - 1];
    var d, o, live' := inst.def, inst.obj, LiveAt(s, Next(l));
    TargetBlock(s, l.block);
    assert SoundAt(s, l.block, l.pc) && UpdateJoined(s, l.block, l.pc);
    assert UpdateRecorded(s, l.block, l.pc) && LinearAt(s, l.block, l.pc + 1);
    assert Target(s)[l.block].body[l.pc - 1] == RenameInst(Sigma(s), LowerInst(inst));
    ArgsAgree(s, LiveAt(s, l), env, mem, inst.args);
    CellAgrees(s, LiveAt(s, l), env, mem, o);
    SigmaIsRep(s, o);
    NoSelfUpdate(s.coalesced, d);
    var c := InstValue(env, inst).value.c;
    var cell := CellOf(mem, Rep(s, o)).value;
    var env', mem' := env[d := Collection(c)], Memory(mem.env, mem.heap[cell := c]);
    assert FStep(s.p, At(l, env)) == At(Next(l), env') && HStep(Target(s), At(l, mem)) == At(Next(l), mem');
    if o !in live' {
      MutateSim(s, LiveAt(s, l), live', env, mem, d, o, c);
    } else {
      assert SamePart(s.part, d, o);
      assert d !in live';
      if env[o].c == c {
        assert mem'.heap == mem.heap;
        SameCells(s, LiveAt(s, l), live', env, mem, d, Collection(c));
      } else {
        assert !SameValue(s, env', mem', o);
      }
    }
  }
}
