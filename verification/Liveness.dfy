/** The liveness analysis, and what its treatment of PHIs is worth. */
module Liveness {
  import opened Coalescing
  import opened Ssa
  import opened Linearity

  function Operands(inst: Inst): seq<Name> {
    inst.args + match inst
      case Copy(_, src, _) => [src]
      case Update(_, obj, _, _) => [obj]
      case Ask(_, obj, _, _) => [obj]
      case _ => []
  }

  /** GEN: what the instruction uses. */
  method ComputeGen(inst: Inst) returns (gen: set<Name>)
    ensures gen == Uses(inst)
  {
    gen := {};
    var operands := Operands(inst);
    for i := 0 to |operands|
      invariant gen == set k | 0 <= k < i :: operands[k]
    {
      gen := gen + {operands[i]};
    }
    forall n ensures n in gen <==> n in Uses(inst) {
      if n in gen {
        var k :| 0 <= k < |operands| && operands[k] == n;
        assert k < |inst.args| ==> inst.args[k] in Names(inst.args);
      }
      if n in Names(inst.args) {
        var k :| 0 <= k < |inst.args| && inst.args[k] == n;
        assert operands[k] == n;
      } else if n in Uses(inst) {
        assert operands[|inst.args|] == n;
      }
    }
  }

  /** IN = (OUT - KILL) U GEN, on top of whatever IN holds already. */
  method ComputeIn(before: set<Name>, out: set<Name>, gen: set<Name>, kill: set<Name>) returns (in_: set<Name>)
    ensures in_ == (before + out - kill) + gen
    ensures before <= (out - kill) + gen ==> in_ == (out - kill) + gen
  {
    in_ := before + out;
    var todo := kill;
    while todo != {}
      invariant todo <= kill && in_ == (before + out) - (kill - todo)
    {
      var killed :| killed in todo;
      in_ := in_ - {killed};
      todo := todo - {killed};
    }
    in_ := in_ + gen;
  }

  ghost predicate AllComeFrom(phis: seq<Phi>, prev: Label) {
    forall i :: 0 <= i < |phis| ==> prev in phis[i].incoming
  }

  /** No PHI from the `j`-th up to the `k`-th is `x`. */
  ghost predicate NotDefined(phis: seq<Phi>, j: nat, k: nat, x: Name) {
    forall i :: j <= i < k && i < |phis| ==> phis[i].def != x
  }

  /** `x` was inserted for the `j`-th PHI and not erased for it or any PHI up to the `k`-th. */
  ghost predicate Kept(phis: seq<Phi>, prev: Label, j: nat, k: nat, x: Name) {
    j < k <= |phis| && prev in phis[j].incoming && phis[j].incoming[prev] == x && NotDefined(phis, j, k, x)
  }

  /** What is left of `x` when the first `k` PHIs have been gone through. */
  ghost predicate Remains(phis: seq<Phi>, prev: Label, in_: set<Name>, k: nat, x: Name) {
    (x in in_ && NotDefined(phis, 0, k, x)) || exists j: nat :: Kept(phis, prev, j, k, x)
  }

  lemma RemainsStep(phis: seq<Phi>, prev: Label, in_: set<Name>, k: nat, x: Name)
    requires k < |phis|
    ensures Remains(phis, prev, in_, k + 1, x)
       <==> x != phis[k].def
            && (Remains(phis, prev, in_, k, x) || (prev in phis[k].incoming && x == phis[k].incoming[prev]))
  {
    if Remains(phis, prev, in_, k, x) && x != phis[k].def {
      if !(x in in_ && NotDefined(phis, 0, k, x)) {
        var j: nat :| Kept(phis, prev, j, k, x);
        assert Kept(phis, prev, j, k + 1, x);
      }
    }
    if prev in phis[k].incoming && x == phis[k].incoming[prev] && x != phis[k].def {
      assert Kept(phis, prev, k, k + 1, x);
    }
    if Remains(phis, prev, in_, k + 1, x) && !(x in in_ && NotDefined(phis, 0, k + 1, x)) {
      var j: nat :| Kept(phis, prev, j, k + 1, x);
      assert j < k ==> Kept(phis, prev, j, k, x);
    }
  }

  /** The path-sensitive part of OUT for a successor that begins with PHIs. */
  method PathSensitiveIn(phis: seq<Phi>, prev: Label, in_: set<Name>) returns (out: set<Name>)
    ensures forall x :: x in out <==> Remains(phis, prev, in_, |phis|, x)
  {
    out := in_;
    for k := 0 to |phis|
      invariant forall x :: x in out <==> Remains(phis, prev, in_, k, x)
    {
      forall x {
        RemainsStep(phis, prev, in_, k, x);
      }
      if prev in phis[k].incoming {
        out := out + {phis[k].incoming[prev]};
      }
      if phis[k].def in out {
        out := out - {phis[k].def};
      }
    }
  }

  /** Along the edge the PHI names die and what the PHIs read lives, all at once. */
  ghost function Intended(phis: seq<Phi>, prev: Label, in_: set<Name>): set<Name> {
    in_ - PhiDefs(phis) + Incoming(phis, prev)
  }

  /** Every PHI that some PHI reads along the edge is read by one that comes after it. */
  ghost predicate ReadLater(phis: seq<Phi>, prev: Label, i: nat) {
    i < |phis| && phis[i].def in Incoming(phis, prev) ==>
      exists j :: i < j < |phis| && prev in phis[j].incoming && phis[j].incoming[prev] == phis[i].def
  }

  ghost predicate AllReadLater(phis: seq<Phi>, prev: Label) {
    forall i {:trigger ReadLater(phis, prev, i)} :: ReadLater(phis, prev, i)
  }

  /** One name is carried over the edge as intended, unless it is a PHI not read later. */
  lemma RemainsIff(phis: seq<Phi>, prev: Label, in_: set<Name>, x: Name)
    requires AllComeFrom(phis, prev) && DistinctPhis(phis)
    ensures x !in PhiDefs(phis) ==> (Remains(phis, prev, in_, |phis|, x) <==> x in Intended(phis, prev, in_))
    ensures forall i: nat :: i < |phis| && phis[i].def == x ==>
              (Remains(phis, prev, in_, |phis|, x)
               <==> exists j :: i < j < |phis| && prev in phis[j].incoming && phis[j].incoming[prev] == x)
    ensures Remains(phis, prev, in_, |phis|, x) ==> x in Intended(phis, prev, in_)
  {
    var n := |phis|;
    if x !in PhiDefs(phis) {
      assert forall i :: 0 <= i < n ==> phis[i].def in PhiDefs(phis);
      assert NotDefined(phis, 0, n, x);
      if x in Incoming(phis, prev) {
        var j :| 0 <= j < n && prev in phis[j].incoming && phis[j].incoming[prev] == x;
        assert Kept(phis, prev, j, n, x);
      }
    }
    forall i: nat | i < n && phis[i].def == x
      ensures Remains(phis, prev, in_, n, x)
          <==> exists j :: i < j < n && prev in phis[j].incoming && phis[j].incoming[prev] == x
    {
      if exists j :: i < j < n && prev in phis[j].incoming && phis[j].incoming[prev] == x {
        var j :| i < j < n && prev in phis[j].incoming && phis[j].incoming[prev] == x;
        assert Kept(phis, prev, j, n, x);
      }
      assert !NotDefined(phis, 0, n, x);
      if Remains(phis, prev, in_, n, x) {
        var j: nat :| Kept(phis, prev, j, n, x);
        assert i < j;
      }
    }
    if exists j: nat :: Kept(phis, prev, j, n, x) {
      var j: nat :| Kept(phis, prev, j, n, x);
      assert phis[j].incoming[prev] in Incoming(phis, prev);
    }
  }

  /**
    `compute_out` is exact for an edge exactly when every PHI of the successor that is
    read along the edge is also read by a later PHI. In particular it loses a PHI that
    carries itself around a loop.
   */
  lemma PathSensitiveExactIff(phis: seq<Phi>, prev: Label, in_: set<Name>, out: set<Name>)
    requires AllComeFrom(phis, prev) && DistinctPhis(phis)
    requires forall x :: x in out <==> Remains(phis, prev, in_, |phis|, x)
    ensures out <= Intended(phis, prev, in_)
    ensures out == Intended(phis, prev, in_) <==> AllReadLater(phis, prev)
  {
    forall x ensures x in out ==> x in Intended(phis, prev, in_) {
      RemainsIff(phis, prev, in_, x);
    }
    if AllReadLater(phis, prev) {
      forall x | x in Intended(phis, prev, in_) ensures x in out {
        RemainsIff(phis, prev, in_, x);
        if x in PhiDefs(phis) {
          var i :| 0 <= i < |phis| && phis[i].def == x;
          assert ReadLater(phis, prev, i);
        }
      }
    }
    if out == Intended(phis, prev, in_) {
      forall i: nat {:trigger ReadLater(phis, prev, i)} ensures ReadLater(phis, prev, i) {
        if i < |phis| && phis[i].def in Incoming(phis, prev) {
          RemainsIff(phis, prev, in_, phis[i].def);
          assert phis[i].def in out;
        }
      }
    }
  }

  // ---- the live sets that the code computes ----

  /** `x` is in OUT of `from` because of its successor `to`, as `compute_out` has it. */
  ghost predicate CodeOut(s: Setting, from: Label, to: Label, x: Name)
    requires to in s.p
  {
    if s.p[to].phis == [] then x in LiveBefore(s, to, 1)
    else Remains(s.p[to].phis, from, LiveBefore(s, to, 1), |s.p[to].phis|, x)
  }

  /** What goes on from the PHIs of `to` is on the edge: live after them and no PHI, or read by one. */
  lemma OutIsOnEdge(s: Setting, from: Label, to: Label, x: Name)
    requires to in s.p && CodeOut(s, from, to, x)
    ensures x in EdgeLive(s, from, to)
  {
    var phis := s.p[to].phis;
    if phis != [] {
      if j: nat :| Kept(phis, from, j, |phis|, x) {
        assert phis[j].incoming[from] in Incoming(phis, from);
      }
      assert NotDefined(phis, 0, |phis|, x) ==> x !in PhiDefs(phis);
    }
  }

  /** OUT of a block, from all its successors. */
  ghost function OutSet(s: Setting, from: Label): set<Name>
    requires from in s.p
  {
    set t, x | t in Successors(s.p[from].term) && t in s.p && x in EdgeLive(s, from, t) && CodeOut(s, from, t, x) :: x
  }

  lemma OutSetIff(s: Setting, from: Label, x: Name)
    requires from in s.p
    ensures x in OutSet(s, from) <==> exists t :: t in Successors(s.p[from].term) && t in s.p && CodeOut(s, from, t, x)
  {
    if t :| t in Successors(s.p[from].term) && t in s.p && CodeOut(s, from, t, x) {
      OutIsOnEdge(s, from, t, x);
    }
  }

  method ComputeOut(s: Setting, from: Label) returns (out: set<Name>)
    requires from in s.p
    ensures out == OutSet(s, from)
  {
    out := {};
    var todo := Successors(s.p[from].term);
    while todo != {}
      invariant todo <= Successors(s.p[from].term)
      invariant forall x :: x in out <==>
                  exists t :: t in Successors(s.p[from].term) && t !in todo && t in s.p && CodeOut(s, from, t, x)
    {
      var to :| to in todo;
      ghost var before := out;
      if to in s.p {
        var in_ := LiveBefore(s, to, 1);
        if s.p[to].phis != [] {
          in_ := PathSensitiveIn(s.p[to].phis, from, in_);
        }
        assert forall x :: x in in_ <==> CodeOut(s, from, to, x);
        out := out + in_;
      }
      todo := todo - {to};
    }
    forall x ensures x in out <==> x in OutSet(s, from) {
      OutSetIff(s, from, x);
    }
  }

  /** The equations of the analysis hold at one position, with OUT as the code computes it. */
  ghost predicate CodeSoundAt(s: Setting, block: Label, pc: nat) {
    block in s.p && 1 <= pc ==>
      var b := s.p[block];
      && (pc <= |b.body| ==>
            LiveBefore(s, block, pc) == LiveBefore(s, block, pc + 1) - {b.body[pc - 1].def} + Uses(b.body[pc - 1]))
      && (pc == |b.body| + 1 ==>
            forall x :: x in LiveBefore(s, block, pc) <==>
              x in TermUses(b.term) || exists t :: t in Successors(b.term) && t in s.p && CodeOut(s, block, t, x))
  }

  /** The live sets are a fixed point of the code's equations. */
  ghost predicate CodeSound(s: Setting) {
    forall block, pc {:trigger CodeSoundAt(s, block, pc)} :: CodeSoundAt(s, block, pc)
  }

  ghost predicate IsEdge(s: Setting, from: Label, to: Label) {
    from in s.p && to in s.p && to in Successors(s.p[from].term)
  }

  /** As LLVM demands: every PHI has a value for each edge, and no two have one name. */
  ghost predicate PhisFit(s: Setting) {
    forall from, to {:trigger IsEdge(s, from, to)} :: IsEdge(s, from, to) ==>
      AllComeFrom(s.p[to].phis, from) && DistinctPhis(s.p[to].phis)
  }

  /** What is live at the end of `from`. */
  function LiveEnd(s: Setting, from: Label): set<Name>
    requires from in s.p
  {
    LiveBefore(s, from, |s.p[from].body| + 1)
  }

  /**
    A PHI that some PHI reads along the edge is read by a later one, or lives at the end of
    the source block anyway.
   */
  ghost predicate Carried(s: Setting, from: Label, to: Label, i: nat) {
    IsEdge(s, from, to) && i < |s.p[to].phis| ==>
      ReadLater(s.p[to].phis, from, i) || s.p[to].phis[i].def in LiveEnd(s, from)
  }

  ghost predicate AllCarried(s: Setting) {
    forall from, to, i {:trigger Carried(s, from, to, i)} :: Carried(s, from, to, i)
  }

  lemma OutIsLive(s: Setting, from: Label, to: Label, x: Name)
    requires CodeSound(s) && IsEdge(s, from, to) && CodeOut(s, from, to, x)
    ensures x in LiveEnd(s, from)
  {
    assert CodeSoundAt(s, from, |s.p[from].body| + 1);
  }

  /** One edge carries all that is live on it exactly when each of its PHIs is carried. */
  lemma EdgeCarriedIff(s: Setting, from: Label, to: Label)
    requires CodeSound(s) && PhisFit(s) && IsEdge(s, from, to)
    ensures EdgeLive(s, from, to) <= LiveEnd(s, from)
        <==> forall i {:trigger Carried(s, from, to, i)} :: Carried(s, from, to, i)
  {
    var phis := s.p[to].phis;
    assert EdgeLive(s, from, to) == Intended(phis, from, LiveBefore(s, to, 1));
    if EdgeLive(s, from, to) <= LiveEnd(s, from) {
      forall i: nat {:trigger Carried(s, from, to, i)} ensures Carried(s, from, to, i) {
      }
    }
    if forall i {:trigger Carried(s, from, to, i)} :: Carried(s, from, to, i) {
      forall x | x in EdgeLive(s, from, to) ensures x in LiveEnd(s, from) {
        RemainsIff(phis, from, LiveBefore(s, to, 1), x);
        if x in PhiDefs(phis) {
          var i :| 0 <= i < |phis| && phis[i].def == x;
          assert Carried(s, from, to, i);
        }
        if CodeOut(s, from, to, x) {
          OutIsLive(s, from, to, x);
        }
      }
    }
  }

  /**
    Live sets that solve the code's equations are a sound liveness exactly when every PHI read
    along an edge is carried.
   */
  lemma SoundLivenessIff(s: Setting)
    requires CodeSound(s) && PhisFit(s)
    ensures SoundLiveness(s) <==> AllCarried(s)
  {
    if SoundLiveness(s) {
      forall from, to, i: nat {:trigger Carried(s, from, to, i)} ensures Carried(s, from, to, i) {
        if IsEdge(s, from, to) {
          assert SoundAt(s, from, |s.p[from].body| + 1);
          EdgeCarriedIff(s, from, to);
        }
      }
    }
    if AllCarried(s) {
      forall block, pc: nat {:trigger SoundAt(s, block, pc)} ensures SoundAt(s, block, pc) {
        CarriedIsSoundAt(s, block, pc);
      }
    }
  }

  lemma CarriedIsSoundAt(s: Setting, block: Label, pc: nat)
    requires CodeSound(s) && PhisFit(s) && AllCarried(s)
    ensures SoundAt(s, block, pc)
  {
    assert CodeSoundAt(s, block, pc);
    if block in s.p && pc == |s.p[block].body| + 1 {
      forall t | t in Successors(s.p[block].term) ensures EdgeLive(s, block, t) <= LiveBefore(s, block, pc) {
        if t in s.p {
          assert IsEdge(s, block, t);
          EdgeCarriedIff(s, block, t);
        }
      }
    }
  }

  /** In particular the live sets are sound when every PHI read along an edge is read by a later PHI. */
  lemma ReadLaterIsSound(s: Setting)
    requires CodeSound(s) && PhisFit(s)
    requires forall from, to {:trigger IsEdge(s, from, to)} :: IsEdge(s, from, to) ==> AllReadLater(s.p[to].phis, from)
    ensures SoundLiveness(s)
  {
    forall from, to, i: nat {:trigger Carried(s, from, to, i)} ensures Carried(s, from, to, i) {
      if IsEdge(s, from, to) {
        assert ReadLater(s.p[to].phis, from, i);
      }
    }
    SoundLivenessIff(s);
  }

  /** The live values along an edge, as the verifier asks for them. */
  method LiveValues(s: Setting, from: Label, to: Label, outFrom: set<Name>) returns (result: set<Name>)
    requires from in s.p && to in s.p
    ensures result == EdgeLive(s, from, to) + PhiDefs(s.p[to].phis) * outFrom
  {
    var phis := s.p[to].phis;
    result := LiveBefore(s, to, 1);
    for i := 0 to |phis|
      invariant result == LiveBefore(s, to, 1) - set k | 0 <= k < i :: phis[k].def
    {
      result := result - {phis[i].def};
    }
    ghost var kept := result;
    for i := 0 to |phis|
      invariant result == kept + set k | 0 <= k < i && from in phis[k].incoming :: phis[k].incoming[from]
    {
      if from in phis[i].incoming {
        result := result + {phis[i].incoming[from]};
      }
    }
    assert result == EdgeLive(s, from, to);
    for i := 0 to |phis|
      invariant result == EdgeLive(s, from, to) + (set k | 0 <= k < i :: phis[k].def) * outFrom
    {
      if phis[i].def in outFrom {
        result := result + {phis[i].def};
      }
    }
  }
}
