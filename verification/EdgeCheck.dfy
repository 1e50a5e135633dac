/** A loop that only the check of an edge rejects: an update and its operand both go round. */
module EdgeCheck {
  import opened Paths
  import opened Coalescing
  import opened Ssa
  import opened Linearity
  import opened Liveness
  import opened Verifier

  const A := Name(0)
  const Q := Name(1)
  const P := Name(2)
  const X := Name(3)

  const LOOP := Label(1)

  /** a = alloc; loop: q = phi(a, x); p = phi(a, p); x = clear(p). */
  const PROGRAM: Program := map[
    ENTRY := Block([], [Alloc(A, AssocKind, [])], Jump(LOOP)),
    LOOP := Block([Phi(Q, map[ENTRY := A, LOOP := X]), Phi(P, map[ENTRY := A, LOOP := P])],
                  [Update(X, P, Clear, [])], Jump(LOOP))]

  const LIVE: Live := map[(ENTRY, 1) := {}, (ENTRY, 2) := {A}, (LOOP, 1) := {P}, (LOOP, 2) := {X}]

  function Checked(part: Partition): Setting {
    Setting(PROGRAM, LIVE, part, map[], {})
  }

  /** What goes on into the loop: the PHI that reads itself is lost. */
  lemma LoopOut(part: Partition, from: Label, x: Name)
    requires from == ENTRY || from == LOOP
    ensures CodeOut(Checked(part), from, LOOP, x) <==> x == if from == ENTRY then A else X
  {
    var phis := PROGRAM[LOOP].phis;
    RemainsStep(phis, from, {P}, 0, x);
    RemainsStep(phis, from, {P}, 1, x);
    assert !exists j: nat :: Kept(phis, from, j, 0, x);
  }

  /** The live sets are a fixed point of the code's equations. */
  lemma FixedPoint(part: Partition)
    ensures CodeSound(Checked(part))
  {
    var s := Checked(part);
    forall block, pc: nat {:trigger CodeSoundAt(s, block, pc)} ensures CodeSoundAt(s, block, pc) {
      if block in PROGRAM && pc == 2 {
        forall x ensures x in LiveBefore(s, block, 2) <==> CodeOut(s, block, LOOP, x) {
          LoopOut(part, block, x);
        }
        assert Successors(PROGRAM[block].term) == {LOOP};
      }
    }
  }

  lemma UpdateGoesTogether(part: Partition)
    requires Divides(part, Tracked(PROGRAM), TrackedPairs(PROGRAM))
    ensures SamePart(part, X, P)
  {
    assert PROGRAM[LOOP].body[0] == Inst.Update(X, P, Clear, []);
    UpdateTracked(PROGRAM, LOOP, 0);
    PairTracked(PROGRAM, (X, P));
  }

  lemma LoopEdge(part: Partition)
    requires SamePart(part, X, P)
    ensures !EdgeLinear(Checked(part), LOOP, LOOP)
  {
    var s := Checked(part);
    var phis := PROGRAM[LOOP].phis;
    assert phis[0].incoming[LOOP] == X && phis[1].incoming[LOOP] == P;
    assert X in Incoming(phis, LOOP) && P in Incoming(phis, LOOP);
    assert X in CheckedAlong(s, LOOP, LOOP) && P in CheckedAlong(s, LOOP, LOOP);
  }

  lemma OneLiveName(part: Partition)
    ensures Linear(Checked(part))
  {
    var s := Checked(part);
    forall block, pc: nat {:trigger LinearAt(s, block, pc)} ensures LinearAt(s, block, pc) {
    }
  }

  /** No instruction has two live names, and the names that go round are of one part. */
  lemma OnlyTheEdgeFails(part: Partition)
    requires Divides(part, Tracked(PROGRAM), TrackedPairs(PROGRAM))
    ensures CodeSound(Checked(part)) && Linear(Checked(part))
    ensures EdgeLinear(Checked(part), ENTRY, LOOP)
    ensures !EdgeLinear(Checked(part), LOOP, LOOP) && !AllLinear(Checked(part))
  {
    FixedPoint(part);
    OneLiveName(part);
    EntryEdge(part);
    UpdateGoesTogether(part);
    LoopEdge(part);
    assert !BlockLinear(Checked(part), LOOP);
  }

  lemma EntryEdge(part: Partition)
    ensures EdgeLinear(Checked(part), ENTRY, LOOP)
  {
    var s := Checked(part);
    forall x | x in CheckedAlong(s, ENTRY, LOOP) ensures x == A {
      CheckedAlongIff(s, ENTRY, LOOP, x);
      if t :| t in Successors(PROGRAM[ENTRY].term) && t in PROGRAM && CodeOut(s, ENTRY, t, x) {
        LoopOut(part, ENTRY, x);
      }
      var phis := PROGRAM[LOOP].phis;
      assert phis[0].def == Q && phis[1].def == P;
    }
  }
}
