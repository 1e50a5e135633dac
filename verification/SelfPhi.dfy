/**
  What the lost PHI costs. A loop carries a collection in a PHI that feeds itself; an
  update in the loop, whose result is used, takes that PHI for dead, because liveness
  forgets it on the way round. Every check passes and lowering changes the answer: the
  program goes round again where the lowered program returns.
 */
module SelfPhi {
  import opened Wrappers
  import opened Paths
  import opened Coalescing
  import opened Ssa
  import opened Lowered
  import opened Linearity
  import opened Preservation
  import opened Liveness
  import Verifier
  import DeadUpdate

  const A := Name(0)
  const P := Name(1)
  const Z := Name(2)
  const K := Name(3)
  const X := Name(4)
  const Y := Name(5)

  const HEADER := Label(1)
  const BODY := Label(2)
  const EXIT := Label(3)

  /** a = alloc; loop: p = phi(a, p); z = size(p); if z return z; k = 7; x = insert(p, k); y = size(x). */
  const PROGRAM: Program := map[
    ENTRY := Block([], [Alloc(A, AssocKind, [])], Jump(HEADER)),
    HEADER := Block([Phi(P, map[ENTRY := A, BODY := P])], [Ask(Z, P, Size, [])], Branch(Z, EXIT, BODY)),
    BODY := Block([], [Compute(K, Const(7), []), Update(X, P, Insert, [K]), Ask(Y, X, Size, [])], Jump(HEADER)),
    EXIT := Block([], [], Return(Z))]

  /** The solution that the transfer functions give: nothing is live at the end of the loop body. */
  const LIVE: Live := map[
    (ENTRY, 1) := {}, (ENTRY, 2) := {A},
    (HEADER, 1) := {P}, (HEADER, 2) := {Z, P},
    (BODY, 1) := {P}, (BODY, 2) := {P, K}, (BODY, 3) := {X}, (BODY, 4) := {},
    (EXIT, 1) := {Z}]

  const SETTING := Setting(PROGRAM, LIVE, map[A := A, P := A, X := A], map[X := P], {})

  lemma HeaderOut(from: Label, x: Name)
    requires from == ENTRY || from == BODY
    ensures CodeOut(SETTING, from, HEADER, x) <==> from == ENTRY && x == A
  {
    var phis := PROGRAM[HEADER].phis;
    RemainsStep(phis, from, {P}, 0, x);
    assert !exists j: nat :: Kept(phis, from, j, 0, x);
  }

  lemma TermEquation(block: Label, pc: nat, x: Name)
    requires block in PROGRAM && pc == |PROGRAM[block].body| + 1
    ensures x in LiveBefore(SETTING, block, pc) <==>
              x in TermUses(PROGRAM[block].term)
              || exists t :: t in Successors(PROGRAM[block].term) && t in SETTING.p && CodeOut(SETTING, block, t, x)
  {
    if block == ENTRY || block == BODY {
      HeaderOut(block, x);
      assert HEADER in Successors(PROGRAM[block].term);
    } else if block == HEADER {
      assert EXIT in Successors(PROGRAM[HEADER].term) && BODY in Successors(PROGRAM[HEADER].term);
      assert CodeOut(SETTING, HEADER, EXIT, x) <==> x == Z;
      assert CodeOut(SETTING, HEADER, BODY, x) <==> x == P;
    }
  }

  lemma NamesOne(n: Name)
    ensures Names([n]) == {n} && Names([]) == {}
  {
    assert [n][0] == n;
  }

  lemma InstEquation(block: Label, pc: nat)
    requires block in PROGRAM && 1 <= pc <= |PROGRAM[block].body|
    ensures LiveBefore(SETTING, block, pc)
         == LiveBefore(SETTING, block, pc + 1) - {PROGRAM[block].body[pc - 1].def} + Uses(PROGRAM[block].body[pc - 1])
  {
    NamesOne(K);
  }

  /** The live sets are a fixed point of the analysis. */
  lemma FixedPoint()
    ensures CodeSound(SETTING)
  {
    forall block, pc: nat {:trigger CodeSoundAt(SETTING, block, pc)} ensures CodeSoundAt(SETTING, block, pc) {
      if block in PROGRAM && pc == |PROGRAM[block].body| + 1 {
        forall x {
          TermEquation(block, pc, x);
        }
      } else if block in PROGRAM && 1 <= pc <= |PROGRAM[block].body| {
        InstEquation(block, pc);
      }
    }
  }

  /** On the way round the PHI is read by no later PHI, and the loop body ends with nothing live. */
  lemma NotCarried()
    ensures PhisFit(SETTING) && !AllCarried(SETTING)
  {
    var phis := PROGRAM[HEADER].phis;
    assert phis[0].incoming[BODY] == P;
    assert P in Incoming(phis, BODY);
    assert !ReadLater(phis, BODY, 0);
    assert IsEdge(SETTING, BODY, HEADER);
    assert !Carried(SETTING, BODY, HEADER, 0);
  }

  /** The only PHI is the operand of the update, so the partition is closed under PHIs. */
  lemma LoopInputsKnown()
    ensures Verifier.InputsKnown(PROGRAM)
  {
    assert PROGRAM[BODY].body[1] == Inst.Update(X, P, Insert, [K]);
    assert Verifier.UpdatedFrom(PROGRAM, X, P);
    assert Verifier.IsOperand(PROGRAM, P);
    forall e {:trigger e in Verifier.ReadPairs(PROGRAM)} | e in Verifier.ReadPairs(PROGRAM)
      ensures e.1 in Verifier.FirstNames(PROGRAM)
    {
      assert e.0 == P;
      Verifier.OperandInputsKnown(PROGRAM, e);
    }
  }

  lemma CoalescedChains()
    ensures Chains(SETTING.coalesced) && Sigma(SETTING) == map[X := P]
  {
    var m := SETTING.coalesced;
    assert Closed(Links(m), {P});
    forall n | Reach(Links(m), P, n) ensures n == P {
      ReachClosed(Links(m), {P}, P, n);
    }
    assert Forward(m, m.Keys, P) == P;
    assert Forward(m, m.Keys, X) == P;
  }

  /** Where each name is defined. */
  ghost function Site(n: Name): (Label, nat) {
    if n == A then (ENTRY, 1) else if n == P then (HEADER, 0) else if n == Z then (HEADER, 1)
    else if n == K then (BODY, 1) else if n == X then (BODY, 2) else (BODY, 3)
  }

  lemma DefinedAtSite(block: Label, pc: nat, n: Name)
    ensures n in Defs(PROGRAM, block, pc) ==> (block, pc) == Site(n)
  {
  }

  lemma Form()
    ensures SsaForm(SETTING)
  {
    CoalescedChains();
    forall b, pc: nat, b', pc': nat, n {:trigger DefinedOnce(SETTING, b, pc, b', pc', n)}
      ensures DefinedOnce(SETTING, b, pc, b', pc', n)
    {
      DefinedAtSite(b, pc, n);
      DefinedAtSite(b', pc', n);
    }
    Recorded();
  }

  lemma Recorded()
    ensures RecordsUpdates(SETTING)
  {
    assert DefinesByUpdate(SETTING, BODY, 2, X);
  }

  lemma LinearEverywhere()
    ensures Linear(SETTING)
  {
  }

  lemma Checks()
    ensures Linear(SETTING) && UpdatesJoined(SETTING) && PhiClosed(SETTING)
  {
    LinearEverywhere();
    forall b, i: nat, prev {:trigger PhiClosedAt(SETTING, b, i, prev)} ensures PhiClosedAt(SETTING, b, i, prev) {
    }
  }

  lemma OperandsConsumed()
    ensures UpdatesConsume(SETTING)
    ensures forall block, pc {:trigger ResultLives(SETTING, block, pc)} :: ResultLives(SETTING, block, pc)
  {
  }

  // ---- dominance ----

  /** What is certainly defined when a run arrives at a place. */
  ghost function Available(l: Loc): set<Name> {
    if l.block == ENTRY then (if l.pc <= 1 then {} else {A})
    else if l.block == HEADER then
      (if l.pc == 0 then {A} + (if l.prev == BODY then {P} else {}) else if l.pc == 1 then {A, P} else {A, P, Z})
    else if l.block == BODY then
      {A, P, Z} + (if l.pc >= 2 then {K} else {}) + (if l.pc >= 3 then {X} else {})
    else {A, P, Z}
  }

  ghost predicate OnTrack(l: Loc) {
    l.block in PROGRAM && l.pc <= |PROGRAM[l.block].body| + 1 &&
        (l.block == HEADER ==> l.prev == ENTRY || l.prev == BODY)
  }

  lemma AvailableStep(l: Loc, l': Loc)
    requires OnTrack(l) && LocEdge(SETTING, l, l')
    ensures OnTrack(l') && Available(l') <= Available(l) + DefsAt(SETTING, l)
  {
    if l.block == HEADER && l.pc == 0 {
      assert PROGRAM[HEADER].phis[0].def == P;
    }
  }

  lemma LiveIsAvailable(l: Loc)
    requires OnTrack(l)
    ensures LiveAt(SETTING, l) <= Available(l)
  {
    assert PROGRAM[HEADER].phis[0].def in PhiDefs(PROGRAM[HEADER].phis);
  }

  lemma {:induction false} AvailableIsDefined(path: seq<Loc>, i: nat)
    requires IsPath(SETTING, path) && i < |path|
    ensures OnTrack(path[i]) && forall x :: x in Available(path[i]) ==> DefinedBefore(SETTING, path, i, x)
  {
    if i > 0 {
      AvailableIsDefined(path, i - 1);
      assert LocEdge(SETTING, path[i - 1], path[i - 1 + 1]);
      AvailableStep(path[i - 1], path[i]);
      forall x | x in Available(path[i]) ensures DefinedBefore(SETTING, path, i, x) {
        if x !in DefsAt(SETTING, path[i - 1]) {
          assert DefinedBefore(SETTING, path, i - 1, x);
        }
      }
    }
  }

  lemma Dominates()
    ensures Dominance(SETTING)
  {
    forall path {:trigger DominatedOn(SETTING, path)} | IsPath(SETTING, path) ensures DominatedOn(SETTING, path) {
      AvailableIsDefined(path, |path| - 1);
      LiveIsAvailable(path[|path| - 1]);
    }
  }

  // ---- the two runs ----

  const NONE := Collection(Assoc(map[]))
  const ONE := Collection(Assoc(map[7 := 0]))

  const F1: Env := map[A := NONE]
  const F2: Env := map[A := NONE, P := NONE, Z := Num(0)]
  const F3: Env := map[A := NONE, P := NONE, Z := Num(0), K := Num(7), X := ONE]
  const F4: Env := map[A := NONE, P := NONE, Z := Num(0), K := Num(7), X := ONE, Y := Num(1)]

  function PhiEnv<V>(env: map<Name, V>, src: Name): map<Name, V>
    requires src in env
  {
    env[P := env[src]]
  }

  lemma HeaderPhi<V>(env: map<Name, V>, prev: Label)
    requires (prev == ENTRY && A in env) || (prev == BODY && P in env)
    ensures PhisReady(PROGRAM[HEADER].phis, prev, env)
    ensures env + PhiValues(PROGRAM[HEADER].phis, prev, env) == PhiEnv(env, if prev == ENTRY then A else P)
  {
    var phis := PROGRAM[HEADER].phis;
    assert P in PhiDefs(phis) by { assert phis[0].def == P; }
    assert PhiDefs(phis) == {P};
  }

  lemma StepsTo(p: Program, c: Conf<Env>, n: nat, c': Conf<Env>)
    requires FRun(p, map[], n) == c && FStep(p, c) == c'
    ensures FRun(p, map[], n + 1) == c'
  {
  }

  lemma InstStep(p: Program, loc: Loc, env: Env, inst: Inst, v: Value)
    requires loc.block in p && 1 <= loc.pc <= |p[loc.block].body| && p[loc.block].body[loc.pc - 1] == inst
    requires InstValue(env, inst) == Some(v)
    ensures FStep(p, At(loc, env)) == At(Next(loc), env[inst.def := v])
  {
  }

  lemma Blocks()
    ensures ENTRY in PROGRAM && HEADER in PROGRAM && BODY in PROGRAM && EXIT in PROGRAM
    ensures PROGRAM[ENTRY] == Block([], [Alloc(A, AssocKind, [])], Jump(HEADER))
    ensures PROGRAM[HEADER] == Block([Phi(P, map[ENTRY := A, BODY := P])], [Ask(Z, P, Size, [])], Branch(Z, EXIT, BODY))
    ensures PROGRAM[BODY] == Block([], [Compute(K, Const(7), []), Update(X, P, Insert, [K]), Ask(Y, X, Size, [])],
        Jump(HEADER))
    ensures PROGRAM[EXIT] == Block([], [], Return(Z))
  {
  }

  lemma FunctionalStart()
    ensures FRun(PROGRAM, map[], 6) == At(Loc(HEADER, BODY, 0), F2)
  {
    var p, e := PROGRAM, map[];
    assert FRun(p, e, 1) == At(Loc(ENTRY, ENTRY, 1), map[]);
    assert FRun(p, e, 2) == At(Loc(ENTRY, ENTRY, 2), F1);
    assert FRun(p, e, 3) == At(Loc(ENTRY, HEADER, 0), F1);
    HeaderPhi(F1, ENTRY);
    assert FRun(p, e, 4) == At(Loc(ENTRY, HEADER, 1), F1[P := NONE]);
    assert F1[P := NONE][Z := Num(0)] == F2;
    assert FRun(p, e, 5) == At(Loc(ENTRY, HEADER, 2), F2);
  }

  /** Round the body, from the update of the PHI to the end. */
  lemma BodyValues(env: Env)
    requires P in env && env[P] == NONE
    ensures InstValue(env, Compute(K, Const(7), [])) == Some(Num(7))
    ensures K in env && env[K] == Num(7) ==> InstValue(env, Update(X, P, Insert, [K])) == Some(ONE)
    ensures X in env && env[X] == ONE ==> InstValue(env, Ask(Y, X, Size, [])) == Some(Num(1))
  {
    if K in env {
      DeadUpdate.LookupOne(env, K);
    }
  }

  lemma FunctionalUpdate()
    ensures FRun(PROGRAM, map[], 9) == At(Loc(HEADER, BODY, 3), F3)
  {
    Blocks();
    FunctionalStart();
    var c6, c7, c8 := At(Loc(HEADER, BODY, 0), F2), At(Loc(HEADER, BODY, 1), F2),
        At(Loc(HEADER, BODY, 2), F2[K := Num(7)]);
    assert F2 + PhiValues([], HEADER, F2) == F2;
    StepsTo(PROGRAM, c6, 6, c7);
    BodyValues(F2);
    InstStep(PROGRAM, Loc(HEADER, BODY, 1), F2, Compute(K, Const(7), []), Num(7));
    StepsTo(PROGRAM, c7, 7, c8);
    BodyValues(F2[K := Num(7)]);
    InstStep(PROGRAM, Loc(HEADER, BODY, 2), F2[K := Num(7)], Update(X, P, Insert, [K]), ONE);
    assert F2[K := Num(7)][X := ONE] == F3;
    StepsTo(PROGRAM, c8, 8, At(Loc(HEADER, BODY, 3), F3));
  }

  lemma FunctionalBody()
    ensures FRun(PROGRAM, map[], 12) == At(Loc(BODY, HEADER, 1), F4)
  {
    Blocks();
    FunctionalUpdate();
    var c9, c10, c11 := At(Loc(HEADER, BODY, 3), F3), At(Loc(HEADER, BODY, 4), F4), At(Loc(BODY, HEADER, 0), F4);
    BodyValues(F3);
    InstStep(PROGRAM, Loc(HEADER, BODY, 3), F3, Ask(Y, X, Size, []), Num(1));
    assert F3[Y := Num(1)] == F4;
    StepsTo(PROGRAM, c9, 9, c10);
    StepsTo(PROGRAM, c10, 10, c11);
    HeaderPhi(F4, BODY);
    assert PhiEnv(F4, P) == F4;
    StepsTo(PROGRAM, c11, 11, At(Loc(BODY, HEADER, 1), F4));
  }

  lemma HeaderValue(env: Env)
    requires P in env && env[P] == NONE
    ensures InstValue(env, Ask(Z, P, Size, [])) == Some(Num(0))
  {
  }

  /** The functional run finds the collection as empty the second time round as the first, and goes on. */
  lemma FunctionalRun()
    ensures FRun(PROGRAM, map[], 14) == At(Loc(HEADER, BODY, 0), F4)
  {
    Blocks();
    FunctionalBody();
    var c12, c13 := At(Loc(BODY, HEADER, 1), F4), At(Loc(BODY, HEADER, 2), F4);
    HeaderValue(F4);
    InstStep(PROGRAM, Loc(BODY, HEADER, 1), F4, Ask(Z, P, Size, []), Num(0));
    assert F4[Z := Num(0)] == F4;
    StepsTo(PROGRAM, c12, 12, c13);
    StepsTo(PROGRAM, c13, 13, At(Loc(HEADER, BODY, 0), F4));
  }

  // ---- the lowered run ----

  const TARGET: LProgram := map[
    ENTRY := LBlock([], [NewCell(A, AssocKind, [])], Jump(HEADER)),
    HEADER := LBlock([Phi(P, map[ENTRY := A, BODY := P])], [AskCell(Z, P, Size, [])], Branch(Z, EXIT, BODY)),
    BODY := LBlock([], [Scalar(K, Const(7), []), InPlace(P, Insert, [K]), AskCell(Y, P, Size, [])], Jump(HEADER)),
    EXIT := LBlock([], [], Return(Z))]

  lemma TargetBlock(l: Label)
    requires l in PROGRAM
    ensures RenameBlock(map[X := P], LowerBlock(PROGRAM[l])) == TARGET[l]
  {
    Blocks();
    var r: Renaming := map[X := P];
    var b := RenameBlock(r, LowerBlock(PROGRAM[l]));
    assert RenameAll(r, []) == [] && RenameAll(r, [K]) == [K];
    assert RenamePhi(r, Phi(P, map[ENTRY := A, BODY := P])) == Phi(P, map[ENTRY := A, BODY := P]);
    assert b.phis == TARGET[l].phis && b.body == TARGET[l].body;
  }

  lemma TargetIs()
    ensures Chains(SETTING.coalesced) && Target(SETTING) == TARGET
  {
    CoalescedChains();
    RenamedProgram();
  }

  lemma RenamedProgram()
    ensures RenameProgram(map[X := P], LowerProgram(PROGRAM)) == TARGET
  {
    var renamed := RenameProgram(map[X := P], LowerProgram(PROGRAM));
    forall l | l in PROGRAM ensures renamed[l] == TARGET[l] {
      TargetBlock(l);
    }
    assert renamed.Keys == PROGRAM.Keys == TARGET.Keys;
  }

  const EMPTY: Memory := Memory(map[], [])
  const H1: HEnv := map[A := Ref(0)]
  const H2: HEnv := map[A := Ref(0), P := Ref(0), Z := Int(0)]
  const H3: HEnv := map[A := Ref(0), P := Ref(0), Z := Int(0), K := Int(7)]
  const H4: HEnv := map[A := Ref(0), P := Ref(0), Z := Int(0), K := Int(7), Y := Int(1)]
  const H5: HEnv := map[A := Ref(0), P := Ref(0), Z := Int(1), K := Int(7), Y := Int(1)]
  const BEFORE: Heap := [Assoc(map[])]
  const AFTER: Heap := [Assoc(map[7 := 0])]

  lemma LStepsTo(c: Conf<Memory>, n: nat, c': Conf<Memory>)
    requires HRun(TARGET, EMPTY, n) == c && HStep(TARGET, c) == c'
    ensures HRun(TARGET, EMPTY, n + 1) == c'
  {
  }

  lemma LInstStep(p: LProgram, loc: Loc, mem: Memory, inst: LInst, after: Memory)
    requires loc.block in p && 1 <= loc.pc <= |p[loc.block].body| && p[loc.block].body[loc.pc - 1] == inst
    requires Execute(mem, inst) == Some(after)
    ensures HStep(p, At(loc, mem)) == At(Next(loc), after)
  {
  }

  lemma LBlocks()
    ensures ENTRY in TARGET && HEADER in TARGET && BODY in TARGET && EXIT in TARGET
    ensures TARGET[ENTRY] == LBlock([], [NewCell(A, AssocKind, [])], Jump(HEADER))
    ensures TARGET[HEADER] == LBlock([Phi(P, map[ENTRY := A, BODY := P])], [AskCell(Z, P, Size, [])],
        Branch(Z, EXIT, BODY))
    ensures TARGET[BODY] == LBlock([], [Scalar(K, Const(7), []), InPlace(P, Insert, [K]), AskCell(Y, P, Size, [])],
        Jump(HEADER))
    ensures TARGET[EXIT] == LBlock([], [], Return(Z))
  {
  }

  lemma Effects(env: HEnv, heap: Heap)
    requires P in env && env[P] == Ref(0) && |heap| == 1
    ensures Execute(Memory(env, heap), Scalar(K, Const(7), [])) == Some(Memory(env[K := Int(7)], heap))
    ensures heap == BEFORE ==>
        Execute(Memory(env, heap), AskCell(Z, P, Size, [])) == Some(Memory(env[Z := Int(0)], heap))
    ensures heap == AFTER ==>
        Execute(Memory(env, heap), AskCell(Z, P, Size, [])) == Some(Memory(env[Z := Int(1)], heap))
    ensures heap == AFTER ==>
        Execute(Memory(env, heap), AskCell(Y, P, Size, [])) == Some(Memory(env[Y := Int(1)], heap))
  {
    DeadUpdate.ReadNone(Memory(env, heap));
  }

  lemma InsertEffect(env: HEnv)
    requires P in env && env[P] == Ref(0) && K in env && env[K] == Int(7)
    ensures Execute(Memory(env, BEFORE), InPlace(P, Insert, [K])) == Some(Memory(env, AFTER))
  {
    DeadUpdate.ReadOne(Memory(env, BEFORE), K);
    assert BEFORE[0 := Assoc(map[7 := 0])] == AFTER;
  }

  lemma LoweredStart()
    ensures HRun(TARGET, EMPTY, 4) == At(Loc(ENTRY, HEADER, 1), Memory(H1[P := Ref(0)], BEFORE))
  {
    LBlocks();
    DeadUpdate.ReadNone(EMPTY);
    assert EMPTY.env[A := Ref(0)] == H1 && EMPTY.heap + [Assoc(map[])] == BEFORE;
    LInstStep(TARGET, Loc(ENTRY, ENTRY, 1), EMPTY, NewCell(A, AssocKind, []), Memory(H1, BEFORE));
    LStepsTo(At(START, EMPTY), 0, At(Loc(ENTRY, ENTRY, 1), EMPTY));
    LStepsTo(At(Loc(ENTRY, ENTRY, 1), EMPTY), 1, At(Loc(ENTRY, ENTRY, 2), Memory(H1, BEFORE)));
    LStepsTo(At(Loc(ENTRY, ENTRY, 2), Memory(H1, BEFORE)), 2, At(Loc(ENTRY, HEADER, 0), Memory(H1, BEFORE)));
    HeaderPhi(H1, ENTRY);
    LStepsTo(At(Loc(ENTRY, HEADER, 0), Memory(H1, BEFORE)), 3,
        At(Loc(ENTRY, HEADER, 1), Memory(H1[P := Ref(0)], BEFORE)));
  }

  lemma LoweredEntersBody()
    ensures HRun(TARGET, EMPTY, 7) == At(Loc(HEADER, BODY, 1), Memory(H2, BEFORE))
  {
    LBlocks();
    LoweredStart();
    var m4, m5 := Memory(H1[P := Ref(0)], BEFORE), Memory(H2, BEFORE);
    Effects(m4.env, BEFORE);
    assert m4.env[Z := Int(0)] == H2;
    LInstStep(TARGET, Loc(ENTRY, HEADER, 1), m4, AskCell(Z, P, Size, []), m5);
    LStepsTo(At(Loc(ENTRY, HEADER, 1), m4), 4, At(Loc(ENTRY, HEADER, 2), m5));
    LStepsTo(At(Loc(ENTRY, HEADER, 2), m5), 5, At(Loc(HEADER, BODY, 0), m5));
    assert H2 + PhiValues([], HEADER, H2) == H2;
    LStepsTo(At(Loc(HEADER, BODY, 0), m5), 6, At(Loc(HEADER, BODY, 1), m5));
  }

  lemma LoweredUpdate()
    ensures HRun(TARGET, EMPTY, 9) == At(Loc(HEADER, BODY, 3), Memory(H3, AFTER))
  {
    LBlocks();
    LoweredEntersBody();
    var m7, m8 := Memory(H2, BEFORE), Memory(H3, BEFORE);
    Effects(H2, BEFORE);
    assert H2[K := Int(7)] == H3;
    LInstStep(TARGET, Loc(HEADER, BODY, 1), m7, Scalar(K, Const(7), []), m8);
    LStepsTo(At(Loc(HEADER, BODY, 1), m7), 7, At(Loc(HEADER, BODY, 2), m8));
    InsertEffect(H3);
    LInstStep(TARGET, Loc(HEADER, BODY, 2), m8, InPlace(P, Insert, [K]), Memory(H3, AFTER));
    LStepsTo(At(Loc(HEADER, BODY, 2), m8), 8, At(Loc(HEADER, BODY, 3), Memory(H3, AFTER)));
  }

  lemma LoweredBody()
    ensures HRun(TARGET, EMPTY, 11) == At(Loc(BODY, HEADER, 0), Memory(H4, AFTER))
  {
    LBlocks();
    LoweredUpdate();
    var m9, m10 := Memory(H3, AFTER), Memory(H4, AFTER);
    Effects(H3, AFTER);
    assert H3[Y := Int(1)] == H4;
    LInstStep(TARGET, Loc(HEADER, BODY, 3), m9, AskCell(Y, P, Size, []), m10);
    LStepsTo(At(Loc(HEADER, BODY, 3), m9), 9, At(Loc(HEADER, BODY, 4), m10));
    LStepsTo(At(Loc(HEADER, BODY, 4), m10), 10, At(Loc(BODY, HEADER, 0), m10));
  }

  lemma LoweredReturns()
    ensures HRun(TARGET, EMPTY, 12) == At(Loc(BODY, HEADER, 1), Memory(H4, AFTER))
  {
    LBlocks();
    LoweredBody();
    var m := Memory(H4, AFTER);
    HeaderPhi(H4, BODY);
    assert PhiEnv(H4, P) == H4;
    LStepsTo(At(Loc(BODY, HEADER, 0), m), 11, At(Loc(BODY, HEADER, 1), m));
  }

  lemma LoweredSecondRound()
    ensures HRun(TARGET, EMPTY, 13) == At(Loc(BODY, HEADER, 2), Memory(H5, AFTER))
  {
    LBlocks();
    LoweredReturns();
    var m11, m12 := Memory(H4, AFTER), Memory(H5, AFTER);
    Effects(H4, AFTER);
    assert H4[Z := Int(1)] == H5;
    LInstStep(TARGET, Loc(BODY, HEADER, 1), m11, AskCell(Z, P, Size, []), m12);
    LStepsTo(At(Loc(BODY, HEADER, 1), m11), 12, At(Loc(BODY, HEADER, 2), m12));
  }

  /** The lowered run sees the update of the first round in the second, and returns. */
  lemma LoweredRun()
    ensures HRun(TARGET, EMPTY, 14) == At(Loc(HEADER, EXIT, 0), Memory(H5, AFTER))
    ensures HRun(TARGET, EMPTY, 16) == Done(Num(1))
  {
    LBlocks();
    LoweredSecondRound();
    var m := Memory(H5, AFTER);
    LStepsTo(At(Loc(BODY, HEADER, 2), m), 13, At(Loc(HEADER, EXIT, 0), m));
    assert H5 + PhiValues([], HEADER, H5) == H5;
    LStepsTo(At(Loc(HEADER, EXIT, 0), m), 14, At(Loc(HEADER, EXIT, 1), m));
    LStepsTo(At(Loc(HEADER, EXIT, 1), m), 15, Done(Num(1)));
  }

  /**
    With live sets that satisfy the equations the code uses, every check passes and every
    update result is live, yet after fourteen steps the program goes round again and the
    lowered program is about to return.
   */
  lemma LostPhiIsMiscompiled()
    ensures CodeSound(SETTING) && PhisFit(SETTING) && !AllCarried(SETTING) && Verifier.InputsKnown(PROGRAM)
    ensures SsaForm(SETTING) && Linear(SETTING) && UpdatesJoined(SETTING) && PhiClosed(SETTING) && Dominance(SETTING)
    ensures UpdatesConsume(SETTING)
    ensures forall block, pc {:trigger ResultLives(SETTING, block, pc)} :: ResultLives(SETTING, block, pc)
    ensures FRun(PROGRAM, map[], 14) == At(Loc(HEADER, BODY, 0), F4)
    ensures HRun(Target(SETTING), EMPTY, 14) == At(Loc(HEADER, EXIT, 0), Memory(H5, AFTER))
    ensures HRun(Target(SETTING), EMPTY, 16) == Done(Num(1))
  {
    FixedPoint();
    NotCarried();
    LoopInputsKnown();
    Form();
    Checks();
    OperandsConsumed();
    Dominates();
    TargetIs();
    FunctionalRun();
    LoweredRun();
  }
}
