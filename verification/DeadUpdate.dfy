/**
  Why a dead update is not harmless: the linearity check looks at live sets only, and
  lowering overwrites an operand that is still to be read.
 */
module DeadUpdate {
  import opened Wrappers
  import opened Paths
  import opened Coalescing
  import opened Ssa
  import opened Lowered
  import opened Linearity
  import opened Preservation

  const A := Name(0)
  const K := Name(1)
  const B := Name(2)
  const N := Name(3)

  /** a = alloc; k = 7; b = insert(a, k); n = size(a); return n. */
  const BODY: seq<Inst> := [
    Alloc(A, AssocKind, []),
    Compute(K, Const(7), []),
    Update(B, A, Insert, [K]),
    Ask(N, A, Size, [])]

  const PROGRAM: Program := map[ENTRY := Block([], BODY, Return(N))]

  const LIVE: Live := map[
    (ENTRY, 1) := {},
    (ENTRY, 2) := {A},
    (ENTRY, 3) := {A, K},
    (ENTRY, 4) := {A},
    (ENTRY, 5) := {N}]

  const SETTING := Setting(PROGRAM, LIVE, map[A := A, B := A], map[B := A], {})

  lemma CoalescedChains()
    ensures Chains(SETTING.coalesced) && Sigma(SETTING) == map[B := A]
  {
    var m := SETTING.coalesced;
    assert Closed(Links(m), {A});
    forall n | Reach(Links(m), A, n) ensures n == A {
      ReachClosed(Links(m), {A}, A, n);
    }
    assert Forward(m, m.Keys, A) == A;
    assert Forward(m, m.Keys, B) == A;
  }

  /** No use names the coalesced result, so renaming leaves the lowered program as it is. */
  lemma TargetIs()
    ensures Chains(SETTING.coalesced) && Target(SETTING) == LowerProgram(PROGRAM)
  {
    CoalescedChains();
    var lowered := LowerProgram(PROGRAM)[ENTRY];
    var target := RenameBlock(map[B := A], lowered);
    assert |lowered.body| == 4 && |target.body| == 4;
    forall i | 0 <= i < 4 ensures target.body[i] == lowered.body[i] {
      assert RenameAll(map[B := A], lowered.body[i].args) == lowered.body[i].args;
    }
    assert target.body == lowered.body && target.phis == lowered.phis;
    assert Target(SETTING)[ENTRY] == lowered;
  }

  lemma Form()
    ensures SsaForm(SETTING)
  {
    CoalescedChains();
    assert DefinesByUpdate(SETTING, ENTRY, 3, B);
  }

  lemma Liveness()
    ensures SoundLiveness(SETTING)
  {
    forall block, pc: nat {:trigger SoundAt(SETTING, block, pc)} ensures SoundAt(SETTING, block, pc) {
    }
  }

  lemma Checks()
    ensures Linear(SETTING) && UpdatesJoined(SETTING) && PhiClosed(SETTING)
    ensures !Consumes(SETTING, ENTRY, 3)
  {
  }

  lemma {:induction false} PathShape(path: seq<Loc>, i: nat)
    requires IsPath(SETTING, path) && i < |path|
    ensures path[i] == Loc(ENTRY, ENTRY, i) && i <= 5
  {
    if i > 0 {
      PathShape(path, i - 1);
      assert LocEdge(SETTING, path[i - 1], path[i - 1 + 1]);
    }
  }

  lemma Dominates()
    ensures Dominance(SETTING)
  {
    forall path {:trigger DominatedOn(SETTING, path)} | IsPath(SETTING, path) ensures DominatedOn(SETTING, path) {
      var k := |path| - 1;
      PathShape(path, k);
      forall x {:trigger DefinedBefore(SETTING, path, k, x)} | x in LiveAt(SETTING, path[k])
        ensures DefinedBefore(SETTING, path, k, x)
      {
        var site := if x == A then 1 else if x == K then 2 else 4;
        PathShape(path, site);
        assert x in DefsAt(SETTING, path[site]);
      }
    }
  }

  const EMPTY: Memory := Memory(map[], [])

  lemma LookupOne<V>(env: map<Name, V>, n: Name)
    requires n in env
    ensures LookupAll(env, [n]) == Some([env[n]])
  {
    assert LookupAll(env, [n]).value == [env[n]];
  }

  lemma ReadOne(mem: Memory, n: Name)
    requires n in mem.env && Deref(mem.heap, mem.env[n]).Some?
    ensures ReadArgs(mem, [n]) == Some([Deref(mem.heap, mem.env[n]).value])
  {
    LookupOne(mem.env, n);
    assert DerefAll(mem.heap, [mem.env[n]]).value == [Deref(mem.heap, mem.env[n]).value];
  }

  lemma ReadNone(mem: Memory)
    ensures ReadArgs(mem, []) == Some([])
  {
  }

  lemma FunctionalRun()
    ensures FRun(PROGRAM, map[], 6) == Done(Num(0))
  {
    var env1: Env := map[A := Collection(Assoc(map[]))];
    var env2 := env1[K := Num(7)];
    var env3 := env2[B := Collection(Assoc(map[7 := 0]))];
    assert FRun(PROGRAM, map[], 1) == At(Loc(ENTRY, ENTRY, 1), map[]);
    assert FRun(PROGRAM, map[], 2) == At(Loc(ENTRY, ENTRY, 2), env1);
    assert FRun(PROGRAM, map[], 3) == At(Loc(ENTRY, ENTRY, 3), env2);
    LookupOne(env2, K);
    assert FRun(PROGRAM, map[], 4) == At(Loc(ENTRY, ENTRY, 4), env3);
    assert FRun(PROGRAM, map[], 5) == At(Loc(ENTRY, ENTRY, 5), env3[N := Num(0)]);
  }

  const ENV1: HEnv := map[A := Ref(0)]
  const ENV2: HEnv := map[A := Ref(0), K := Int(7)]
  const BEFORE: Heap := [Assoc(map[])]
  const AFTER: Heap := [Assoc(map[7 := 0])]

  lemma LoweredBody()
    ensures ENTRY in LowerProgram(PROGRAM)
    ensures LowerProgram(PROGRAM)[ENTRY] == LBlock([],
      [NewCell(A, AssocKind, []), Scalar(K, Const(7), []), InPlace(A, Insert, [K]), AskCell(N, A, Size, [])], Return(N))
  {
  }

  lemma LoweredStart()
    ensures HRun(LowerProgram(PROGRAM), EMPTY, 3) == At(Loc(ENTRY, ENTRY, 3), Memory(ENV2, BEFORE))
  {
    LoweredBody();
    ReadNone(EMPTY);
    ReadNone(Memory(ENV1, BEFORE));
    var p := LowerProgram(PROGRAM);
    assert HRun(p, EMPTY, 1) == At(Loc(ENTRY, ENTRY, 1), EMPTY);
    assert EMPTY.env[A := Ref(0)] == ENV1 && EMPTY.heap + [Assoc(map[])] == BEFORE;
    assert Execute(EMPTY, NewCell(A, AssocKind, [])) == Some(Memory(ENV1, BEFORE));
    assert HRun(p, EMPTY, 2) == At(Loc(ENTRY, ENTRY, 2), Memory(ENV1, BEFORE));
    assert Execute(Memory(ENV1, BEFORE), Scalar(K, Const(7), [])) == Some(Memory(ENV2, BEFORE));
  }

  lemma LoweredUpdate()
    ensures HRun(LowerProgram(PROGRAM), EMPTY, 4) == At(Loc(ENTRY, ENTRY, 4), Memory(ENV2, AFTER))
  {
    LoweredBody();
    LoweredStart();
    ReadOne(Memory(ENV2, BEFORE), K);
    assert BEFORE[0 := Assoc(map[7 := 0])] == AFTER;
    assert Execute(Memory(ENV2, BEFORE), InPlace(A, Insert, [K])) == Some(Memory(ENV2, AFTER));
  }

  lemma LoweredRun()
    ensures HRun(LowerProgram(PROGRAM), EMPTY, 6) == Done(Num(1))
  {
    LoweredBody();
    LoweredUpdate();
    var p := LowerProgram(PROGRAM);
    ReadNone(Memory(ENV2, AFTER));
    assert Execute(Memory(ENV2, AFTER), AskCell(N, A, Size, [])) == Some(Memory(ENV2[N := Int(1)], AFTER));
    assert HRun(p, EMPTY, 5) == At(Loc(ENTRY, ENTRY, 5), Memory(ENV2[N := Int(1)], AFTER));
  }

  /** The program is accepted, and returns 0 before lowering and 1 after. */
  lemma DeadUpdateIsMiscompiled()
    ensures Accepted(SETTING) && Initial(SETTING, map[], EMPTY)
    ensures FRun(PROGRAM, map[], 6) == Done(Num(0))
    ensures HRun(Target(SETTING), EMPTY, 6) == Done(Num(1))
  {
    Form();
    Liveness();
    Checks();
    Dominates();
    TargetIs();
    FunctionalRun();
    LoweredRun();
  }
}
