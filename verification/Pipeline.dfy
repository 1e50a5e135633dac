/** Verification and destruction in sequence, and what their verdict and output are worth together. */
module Pipeline {
  import opened Paths
  import opened Coalescing
  import opened Ssa
  import opened Lowered
  import opened Linearity
  import opened Preservation
  import opened SSADestruction
  import opened Verifier
  import opened Liveness

  lemma UpdatesAreUnique(s: Setting)
    requires SingleAssignment(s)
    ensures UpdatesUnique(s.p)
  {
    forall b, pc: nat, b', pc': nat, n {:trigger OneUpdate(s.p, b, pc, b', pc', n)}
      ensures OneUpdate(s.p, b, pc, b', pc', n)
    {
      assert DefinedOnce(s, b, pc, b', pc', n);
    }
  }

  /** What the visitor recorded is the coalescing map that the theorem asks for. */
  lemma RecordedForm(s: Setting, m: Renaming)
    requires OnlyUpdates(s.p, m) && AllRecorded(s.p, m, s.p.Keys)
    ensures RecordsUpdates(s.(coalesced := m))
  {
    var s' := s.(coalesced := m);
    forall b, pc: nat {:trigger UpdateRecorded(s', b, pc)} ensures UpdateRecorded(s', b, pc) {
      if b in s.p && pc <= |s.p[b].body| {
        assert BlockRecorded(s.p, m, b) && UpdateRecorded(With(s.p, m), b, pc);
      }
    }
    forall n {:trigger IsUpdate(s', n)} ensures IsUpdate(s', n) {
      assert IsUpdate(With(s.p, m), n);
      if n in m {
        var b, pc :| DefinesByUpdate(With(s.p, m), b, pc, n);
        assert DefinesByUpdate(s', b, pc, n);
      }
    }
  }

  /** The liveness satisfies its equations, or is one that the code can compute and that carries every PHI. */
  ghost predicate GoodLiveness(s: Setting) {
    SoundLiveness(s) || (CodeSound(s) && PhisFit(s) && AllCarried(s))
  }

  /** What has to hold of the program and its liveness besides the verdict. */
  ghost predicate Assumed(s: Setting) {
    && SingleAssignment(s) && GoodLiveness(s) && Dominance(s) && UpdatesConsume(s)
    && ClosedUnderPhis(s.p)
  }

  /**
    If the verdict is good, the emitted program behaves as the SSA program: `full` is
    the setting completed by the partition and the coalescing map of the two passes.
   */
  method VerifyAndDestruct(s: Setting, order: seq<Name>) returns (ok: bool, code: LProgram, full: Setting)
    requires SingleAssignment(s)
    requires Acyclic(UpdateLinks(s.p)) && forall e :: e in UpdateLinks(s.p) ==> e.0 in Names(order)
    ensures full.p == s.p && full.live == s.live && full.incoming == s.incoming
    ensures Divides(full.part, Tracked(s.p), TrackedPairs(s.p))
    ensures ok <==> AllLinear(full)
    ensures Chains(full.coalesced) && code == Target(full)
    ensures ok && Assumed(full) ==> Lowerable(full)
    ensures ok && Assumed(full) ==>
              forall env, mem, n {:trigger FRun(s.p, env, n), HRun(code, mem, n)} ::
                Initial(full, env, mem) ==> Related(full, FRun(s.p, env, n), HRun(code, mem, n))
  {
    var part;
    ok, part := VerifyLinearity(s);
    UpdatesAreUnique(s);
    var visitor := new Visitor();
    visitor.Run(s.p, order);
    code := visitor.code;
    full := s.(part := part, coalesced := visitor.coalescedValues);
    RecordedForm(s.(part := part), visitor.coalescedValues);
    SameVerdict(s.(part := part), full);
    if ok && Assumed(full) {
      AssumedIsLowerable(full);
      AllRunsPreserved(full);
    }
  }

  /** The checks read the partition and the liveness only. */
  lemma SameVerdict(s: Setting, full: Setting)
    requires full == s.(coalesced := full.coalesced)
    ensures AllLinear(s) <==> AllLinear(full)
  {
    forall b {:trigger BlockLinear(s, b)} {:trigger BlockLinear(full, b)}
      ensures BlockLinear(s, b) <==> BlockLinear(full, b)
    {
      forall pc: nat {:trigger LinearAt(full, b, pc)} {:trigger LinearAt(s, b, pc)}
        ensures LinearAt(s, b, pc) <==> LinearAt(full, b, pc)
      {
      }
      forall to {:trigger EdgeLinear(full, b, to)} {:trigger EdgeLinear(s, b, to)}
        ensures EdgeLinear(s, b, to) <==> EdgeLinear(full, b, to)
      {
        SameEdge(s, full, b, to);
      }
    }
  }

  lemma SameEdge(s: Setting, full: Setting, from: Label, to: Label)
    requires full == s.(coalesced := full.coalesced)
    ensures EdgeLinear(s, from, to) <==> EdgeLinear(full, from, to)
  {
    if from in s.p && to in s.p {
      forall x ensures x in OutSet(s, from) <==> x in OutSet(full, from) {
        SameOut(s, full, from, x);
      }
      assert OutSet(s, from) == OutSet(full, from);
      assert CheckedAlong(s, from, to) == CheckedAlong(full, from, to);
    }
  }

  lemma SameOut(s: Setting, full: Setting, from: Label, x: Name)
    requires full == s.(coalesced := full.coalesced) && from in s.p
    ensures x in OutSet(s, from) <==> x in OutSet(full, from)
  {
    OutSetIff(s, from, x);
    OutSetIff(full, from, x);
    forall t | t in s.p ensures CodeOut(s, from, t, x) <==> CodeOut(full, from, t, x) {
    }
  }

  lemma AllRunsPreserved(full: Setting)
    requires Lowerable(full)
    ensures forall env, mem, n {:trigger FRun(full.p, env, n), HRun(Target(full), mem, n)} ::
              Initial(full, env, mem) ==> Related(full, FRun(full.p, env, n), HRun(Target(full), mem, n))
  {
    forall env, mem, n: nat {:trigger FRun(full.p, env, n), HRun(Target(full), mem, n)} | Initial(full, env, mem)
      ensures Related(full, FRun(full.p, env, n), HRun(Target(full), mem, n))
    {
      var _ := LoweringPreservesMeaning(full, env, mem, n);
    }
  }

  lemma AssumedIsLowerable(full: Setting)
    requires Assumed(full) && RecordsUpdates(full) && Chains(full.coalesced)
    requires AllLinear(full)
    requires Divides(full.part, Tracked(full.p), TrackedPairs(full.p))
    ensures Lowerable(full)
  {
    forall b, pc: nat {:trigger LinearAt(full, b, pc)} ensures LinearAt(full, b, pc) {
      if b in full.p {
        assert BlockLinear(full, b);
      }
    }
    DividesUpdates(full);
    PhiClosedIff(full);
    if !SoundLiveness(full) {
      SoundLivenessIff(full);
    }
  }

  /** The main theorem for live sets that the code computes, when they carry every PHI. */
  lemma CodeLivenessPreserves(s: Setting, env: Env, mem: Memory, n: nat)
    requires CodeSound(s) && PhisFit(s) && AllCarried(s)
    requires SsaForm(s) && Dominance(s) && Linear(s) && UpdatesJoined(s) && PhiClosed(s) && UpdatesConsume(s)
    requires Initial(s, env, mem)
    ensures Related(s, FRun(s.p, env, n), HRun(Target(s), mem, n))
    ensures FRun(s.p, env, n).Done? <==> HRun(Target(s), mem, n).Done?
    ensures FRun(s.p, env, n).Done? ==> FRun(s.p, env, n).result == HRun(Target(s), mem, n).result
    ensures FRun(s.p, env, n).Stuck? <==> HRun(Target(s), mem, n).Stuck?
  {
    SoundLivenessIff(s);
    var _ := LoweringPreservesMeaning(s, env, mem, n);
  }
}
