/** What SSA destruction emits: calls that mutate collections in cells, with every use renamed. */
module Lowered {
  import opened Wrappers
  import opened Coalescing
  import opened Ssa

  datatype LInst =
    | NewCell(def: Name, kind: Kind, args: seq<Name>)
    | CopyCell(def: Name, src: Name, args: seq<Name>)
    | InPlace(obj: Name, op: UpdateOp, args: seq<Name>)
    | AskCell(def: Name, obj: Name, query: Query, args: seq<Name>)
    | Scalar(def: Name, fn: Fn, args: seq<Name>)

  datatype LBlock = LBlock(phis: seq<Phi>, body: seq<LInst>, term: Terminator)

  type LProgram = map<Label, LBlock>

  // ---- lowering and renaming ----

  /** The call that a visitor inserts for an instruction, before any use is renamed. */
  function LowerInst(inst: Inst): LInst {
    match inst
    case Alloc(def, kind, args) => NewCell(def, kind, args)
    case Copy(def, src, args) => CopyCell(def, src, args)
    case Update(_, obj, op, args) => InPlace(obj, op, args)
    case Ask(def, obj, query, args) => AskCell(def, obj, query, args)
    case Compute(def, fn, args) => Scalar(def, fn, args)
  }

  function LowerBlock(b: Block): LBlock {
    LBlock(b.phis, seq(|b.body|, i requires 0 <= i < |b.body| => LowerInst(b.body[i])), b.term)
  }

  function LowerProgram(p: Program): LProgram {
    map l | l in p :: LowerBlock(p[l])
  }

  function RenameAll(r: Renaming, names: seq<Name>): seq<Name> {
    seq(|names|, i requires 0 <= i < |names| => Resolve(r, names[i]))
  }

  function RenameInst(r: Renaming, inst: LInst): LInst {
    match inst
    case NewCell(def, kind, args) => NewCell(def, kind, RenameAll(r, args))
    case CopyCell(def, src, args) => CopyCell(def, Resolve(r, src), RenameAll(r, args))
    case InPlace(obj, op, args) => InPlace(Resolve(r, obj), op, RenameAll(r, args))
    case AskCell(def, obj, query, args) => AskCell(def, Resolve(r, obj), query, RenameAll(r, args))
    case Scalar(def, fn, args) => Scalar(def, fn, RenameAll(r, args))
  }

  function RenamePhi(r: Renaming, phi: Phi): Phi {
    Phi(phi.def, map l | l in phi.incoming :: Resolve(r, phi.incoming[l]))
  }

  function RenameTerm(r: Renaming, term: Terminator): Terminator {
    match term
    case Jump(_) => term
    case Branch(cond, ifTrue, ifFalse) => Branch(Resolve(r, cond), ifTrue, ifFalse)
    case Return(value) => Return(Resolve(r, value))
  }

  function RenameBlock(r: Renaming, b: LBlock): LBlock {
    LBlock(seq(|b.phis|, i requires 0 <= i < |b.phis| => RenamePhi(r, b.phis[i])),
           seq(|b.body|, i requires 0 <= i < |b.body| => RenameInst(r, b.body[i])),
           RenameTerm(r, b.term))
  }

  /** Every use of a name replaced; definitions keep their names. */
  function RenameProgram(r: Renaming, p: LProgram): LProgram {
    map l | l in p :: RenameBlock(r, p[l])
  }

  /** The program that SSA destruction leaves, for the coalescing map `m`. */
  ghost function Destruct(p: Program, m: Renaming): LProgram
    requires Chains(m)
  {
    RenameProgram(Forwarded(m, m.Keys), LowerProgram(p))
  }

  /** Renaming twice is renaming once, when the names agree. */
  ghost predicate Composes(first: Renaming, second: Renaming, both: Renaming) {
    forall n :: Resolve(second, Resolve(first, n)) == Resolve(both, n)
  }

  lemma RenameAllTwice(first: Renaming, second: Renaming, both: Renaming, names: seq<Name>)
    requires Composes(first, second, both)
    ensures RenameAll(second, RenameAll(first, names)) == RenameAll(both, names)
  {
  }

  lemma RenameInstTwice(first: Renaming, second: Renaming, both: Renaming, inst: LInst)
    requires Composes(first, second, both)
    ensures RenameInst(second, RenameInst(first, inst)) == RenameInst(both, inst)
  {
    RenameAllTwice(first, second, both, inst.args);
  }

  lemma RenamePhiTwice(first: Renaming, second: Renaming, both: Renaming, phi: Phi)
    requires Composes(first, second, both)
    ensures RenamePhi(second, RenamePhi(first, phi)) == RenamePhi(both, phi)
  {
  }

  lemma RenameBlockTwice(first: Renaming, second: Renaming, both: Renaming, b: LBlock)
    requires Composes(first, second, both)
    ensures RenameBlock(second, RenameBlock(first, b)) == RenameBlock(both, b)
  {
    var twice, once := RenameBlock(second, RenameBlock(first, b)), RenameBlock(both, b);
    forall i | 0 <= i < |b.phis| ensures twice.phis[i] == once.phis[i] {
      RenamePhiTwice(first, second, both, b.phis[i]);
    }
    forall i | 0 <= i < |b.body| ensures twice.body[i] == once.body[i] {
      RenameInstTwice(first, second, both, b.body[i]);
    }
  }

  lemma RenameTwice(first: Renaming, second: Renaming, both: Renaming, p: LProgram)
    requires Composes(first, second, both)
    ensures RenameProgram(second, RenameProgram(first, p)) == RenameProgram(both, p)
  {
    forall l | l in p ensures RenameBlock(second, RenameBlock(first, p[l])) == RenameBlock(both, p[l]) {
      RenameBlockTwice(first, second, both, p[l]);
    }
  }

  lemma RenameNothing(p: LProgram)
    ensures RenameProgram(map[], p) == p
  {
    forall l | l in p ensures RenameBlock(map[], p[l]) == p[l] {
      var b, c := p[l], RenameBlock(map[], p[l]);
      forall i | 0 <= i < |b.phis| ensures c.phis[i] == b.phis[i] {
        assert c.phis[i].incoming == b.phis[i].incoming;
      }
      forall i | 0 <= i < |b.body| ensures c.body[i] == b.body[i] {
        assert RenameAll(map[], b.body[i].args) == b.body[i].args;
      }
      assert c.phis == b.phis && c.body == b.body;
    }
  }

  // ---- the meaning of the lowered program ----

  datatype Word = Int(n: int) | Ref(cell: nat)

  type HEnv = map<Name, Word>

  type Heap = seq<Coll>

  datatype Memory = Memory(env: HEnv, heap: Heap)

  function Deref(heap: Heap, w: Word): Option<Value> {
    match w
    case Int(n) => Some(Num(n))
    case Ref(cell) => if cell < |heap| then Some(Collection(heap[cell])) else None
  }

  function DerefAll(heap: Heap, ws: seq<Word>): (r: Option<seq<Value>>)
    ensures r.Some? <==> forall i :: 0 <= i < |ws| ==> Deref(heap, ws[i]).Some?
    ensures r.Some? ==> |r.value| == |ws| && forall i :: 0 <= i < |ws| ==> Deref(heap, ws[i]) == Some(r.value[i])
  {
    if ws == [] then Some([])
    else
      match (Deref(heap, ws[0]), DerefAll(heap, ws[1..]))
      case (Some(v), Some(rest)) => Some([v] + rest)
      case _ => None
  }

  function CellOf(mem: Memory, n: Name): Option<nat> {
    if n in mem.env && mem.env[n].Ref? && mem.env[n].cell < |mem.heap| then Some(mem.env[n].cell) else None
  }

  /** A fresh cell at the end of the heap. */
  function Allocate(mem: Memory, def: Name, c: Option<Coll>): Option<Memory> {
    match c
    case Some(d) => Some(Memory(mem.env[def := Ref(|mem.heap|)], mem.heap + [d]))
    case None => None
  }

  function Define(mem: Memory, def: Name, n: Option<int>): Option<Memory> {
    match n
    case Some(k) => Some(Memory(mem.env[def := Int(k)], mem.heap))
    case None => None
  }

  function Mutate(mem: Memory, cell: nat, c: Option<Coll>): Option<Memory>
    requires cell < |mem.heap|
  {
    match c
    case Some(d) => Some(Memory(mem.env, mem.heap[cell := d]))
    case None => None
  }

  function ReadArgs(mem: Memory, names: seq<Name>): Option<seq<Value>> {
    match LookupAll(mem.env, names)
    case None => None
    case Some(words) => DerefAll(mem.heap, words)
  }

  function Execute(mem: Memory, inst: LInst): Option<Memory> {
    match ReadArgs(mem, inst.args)
    case None => None
    case Some(args) =>
      match inst
      case NewCell(def, kind, _) => Allocate(mem, def, NewCollection(kind, args))
      case CopyCell(def, src, _) =>
        (match CellOf(mem, src) case Some(cell) => Allocate(mem, def, CopyOf(mem.heap[cell], args)) case None => None)
      case InPlace(obj, op, _) =>
        (match CellOf(mem, obj) case Some(cell) => Mutate(mem, cell, ApplyUpdate(op, mem.heap[cell], args))
            case None => None)
      case AskCell(def, obj, q, _) =>
        (match CellOf(mem, obj) case Some(cell) => Define(mem, def, Answer(q, mem.heap[cell], args)) case None => None)
      case Scalar(def, fn, _) => Define(mem, def, Evaluate(fn, args))
  }

  function HStep(p: LProgram, c: Conf<Memory>): Conf<Memory> {
    match c
    case Done(_) => c
    case Stuck => c
    case At(loc, mem) =>
      if loc.block !in p then Stuck
      else
        var b := p[loc.block];
        if loc.pc == 0 then
          if PhisReady(b.phis, loc.prev, mem.env) then
            At(Next(loc), Memory(mem.env + PhiValues(b.phis, loc.prev, mem.env), mem.heap))
          else Stuck
        else if loc.pc <= |b.body| then
          match Execute(mem, b.body[loc.pc - 1])
          case Some(after) => At(Next(loc), after)
          case None => Stuck
        else
          match b.term
          case Jump(target) => At(Enter(loc, target), mem)
          case Branch(cond, ifTrue, ifFalse) =>
            if cond in mem.env && mem.env[cond].Int?
                then At(Enter(loc, if mem.env[cond].n != 0 then ifTrue else ifFalse), mem)
            else Stuck
          case Return(v) =>
            if v in mem.env && Deref(mem.heap, mem.env[v]).Some? then Done(Deref(mem.heap, mem.env[v]).value) else Stuck
  }

  function HRun(p: LProgram, mem: Memory, n: nat): Conf<Memory> {
    if n == 0 then At(START, mem) else HStep(p, HRun(p, mem, n - 1))
  }
}
