/**
  A small MEMOIR: collections in SSA form, where an update names a new collection and
  leaves its operand as it was. Blocks hold PHIs, instructions and a terminator; the
  meaning of a program is a step function that gives names values.
 */
module Ssa {
  import opened Wrappers
  import opened Coalescing

  datatype Label = Label(id: nat)

  datatype Coll =
    | Sequence(elems: seq<int>)
    | Assoc(entries: map<int, int>)

  datatype Value = Num(n: int) | Collection(c: Coll)

  datatype Kind = SequenceKind | AssocKind

  datatype UpdateOp = Write | Insert | InsertValue | InsertInput | Remove | RemoveRange | Clear

  datatype Query = Read | Has | Size

  datatype Fn = Const(k: int) | Add | Less

  datatype Inst =
    | Alloc(def: Name, kind: Kind, args: seq<Name>)
    | Copy(def: Name, src: Name, args: seq<Name>)
    | Update(def: Name, obj: Name, op: UpdateOp, args: seq<Name>)
    | Ask(def: Name, obj: Name, query: Query, args: seq<Name>)
    | Compute(def: Name, fn: Fn, args: seq<Name>)

  datatype Phi = Phi(def: Name, incoming: map<Label, Name>)

  datatype Terminator =
    | Jump(target: Label)
    | Branch(cond: Name, ifTrue: Label, ifFalse: Label)
    | Return(value: Name)

  datatype Block = Block(phis: seq<Phi>, body: seq<Inst>, term: Terminator)

  type Program = map<Label, Block>

  const ENTRY := Label(0)

  // ---- what the operations compute; None where the source leaves the result undefined ----

  function InBounds(i: int, s: seq<int>): bool {
    0 <= i < |s|
  }

  function NewCollection(kind: Kind, args: seq<Value>): Option<Coll> {
    if kind == SequenceKind && |args| == 1 && args[0].Num? && args[0].n >= 0 then
      Some(Sequence(seq(args[0].n, _ => 0)))
    else if kind == AssocKind && args == [] then Some(Assoc(map[]))
    else None
  }

  function CopyOf(c: Coll, args: seq<Value>): Option<Coll> {
    if args == [] then Some(c)
    else if c.Sequence? && |args| == 2 && args[0].Num? && args[1].Num? && 0 <= args[0].n <= args[1].n <= |c.elems| then
      Some(Sequence(c.elems[args[0].n..args[1].n]))
    else None
  }

  function UpdateSequence(op: UpdateOp, s: seq<int>, args: seq<Value>): Option<seq<int>> {
    match op
    case Write =>
      if |args| == 2 && args[0].Num? && args[1].Num? && InBounds(args[0].n, s) then Some(s[args[0].n := args[1].n])
          else None
    case Insert =>
      if |args| == 1 && args[0].Num? && 0 <= args[0].n <= |s| then Some(s[..args[0].n] + [0] + s[args[0].n..]) else None
    case InsertValue =>
      if |args| == 2 && args[0].Num? && args[1].Num? && 0 <= args[0].n <= |s| then
        Some(s[..args[0].n] + [args[1].n] + s[args[0].n..])
      else None
    case InsertInput =>
      if |args| == 2 && args[0].Num? && 0 <= args[0].n <= |s| && args[1].Collection? && args[1].c.Sequence? then
        Some(s[..args[0].n] + args[1].c.elems + s[args[0].n..])
      else None
    case Remove =>
      if |args| == 1 && args[0].Num? && InBounds(args[0].n, s) then Some(s[..args[0].n] + s[args[0].n + 1..]) else None
    case RemoveRange =>
      if |args| == 2 && args[0].Num? && args[1].Num? && 0 <= args[0].n <= args[1].n <= |s| then
        Some(s[..args[0].n] + s[args[1].n..])
      else None
    case Clear =>
      if args == [] then Some([]) else None
  }

  function UpdateAssoc(op: UpdateOp, m: map<int, int>, args: seq<Value>): Option<map<int, int>> {
    match op
    case Write =>
      if |args| == 2 && args[0].Num? && args[1].Num? && args[0].n in m then Some(m[args[0].n := args[1].n]) else None
    case Insert =>
      if |args| == 1 && args[0].Num? then Some(if args[0].n in m then m else m[args[0].n := 0]) else None
    case InsertValue =>
      if |args| == 2 && args[0].Num? && args[1].Num? then Some(m[args[0].n := args[1].n]) else None
    case Remove =>
      if |args| == 1 && args[0].Num? then Some(m - {args[0].n}) else None
    case Clear =>
      if args == [] then Some(map[]) else None
    case _ => None
  }

  function ApplyUpdate(op: UpdateOp, c: Coll, args: seq<Value>): Option<Coll> {
    match c
    case Sequence(s) => (match UpdateSequence(op, s, args) case Some(t) => Some(Sequence(t)) case None => None)
    case Assoc(m) => (match UpdateAssoc(op, m, args) case Some(n) => Some(Assoc(n)) case None => None)
  }

  function Answer(q: Query, c: Coll, args: seq<Value>): Option<int> {
    match q
    case Size => if args != [] then None else Some(if c.Sequence? then |c.elems| else |c.entries|)
    case Has => if c.Assoc? && |args| == 1 && args[0].Num? then Some(if args[0].n in c.entries then 1 else 0) else None
    case Read =>
      if |args| != 1 || !args[0].Num? then None
      else if c.Sequence? then (if InBounds(args[0].n, c.elems) then Some(c.elems[args[0].n]) else None)
      else if args[0].n in c.entries then Some(c.entries[args[0].n])
      else None
  }

  function Evaluate(fn: Fn, args: seq<Value>): Option<int> {
    match fn
    case Const(k) => if args == [] then Some(k) else None
    case Add => if |args| == 2 && args[0].Num? && args[1].Num? then Some(args[0].n + args[1].n) else None
    case Less => if |args| == 2 && args[0].Num? && args[1].Num? then Some(if args[0].n < args[1].n then 1 else 0)
        else None
  }

  // ---- where a run is ----

  /** Position 0 of a block is its PHIs, then come the instructions, then the terminator. */
  datatype Loc = Loc(prev: Label, block: Label, pc: nat)

  const START := Loc(ENTRY, ENTRY, 0)

  datatype Conf<S> = At(loc: Loc, state: S) | Done(result: Value) | Stuck

  function Next(loc: Loc): Loc {
    Loc(loc.prev, loc.block, loc.pc + 1)
  }

  function Enter(loc: Loc, target: Label): Loc {
    Loc(loc.block, target, 0)
  }

  // ---- environments ----

  function LookupAll<V>(env: map<Name, V>, names: seq<Name>): (r: Option<seq<V>>)
    ensures r.Some? <==> forall i :: 0 <= i < |names| ==> names[i] in env
    ensures r.Some? ==> |r.value| == |names| && forall i :: 0 <= i < |names| ==> r.value[i] == env[names[i]]
  {
    if names == [] then Some([])
    else if names[0] !in env then None
    else
      match LookupAll(env, names[1..])
      case None => None
      case Some(rest) => Some([env[names[0]]] + rest)
  }

  /** Every PHI has a value for the block that control came from. */
  predicate PhisReady<V>(phis: seq<Phi>, prev: Label, env: map<Name, V>) {
    forall i :: 0 <= i < |phis| ==> prev in phis[i].incoming && phis[i].incoming[prev] in env
  }

  function PhiDefs(phis: seq<Phi>): set<Name> {
    set i | 0 <= i < |phis| :: phis[i].def
  }

  ghost predicate DistinctPhis(phis: seq<Phi>) {
    forall i, j :: 0 <= i < j < |phis| ==> phis[i].def != phis[j].def
  }

  /** The PHIs of a block take their values all at once; the last of several with one name wins. */
  function PhiValues<V>(phis: seq<Phi>, prev: Label, env: map<Name, V>): (r: map<Name, V>)
    requires PhisReady(phis, prev, env)
    ensures r.Keys == PhiDefs(phis)
    ensures forall n :: n in r ==>
        exists i :: 0 <= i < |phis| && phis[i].def == n && r[n] == env[phis[i].incoming[prev]]
  {
    if phis == [] then map[]
    else
      var last := |phis| - 1;
      var before := PhiValues(phis[..last], prev, env);
      assert forall i :: 0 <= i < last ==> phis[..last][i] == phis[i];
      assert PhiDefs(phis) == PhiDefs(phis[..last]) + {phis[last].def} by {
        forall n ensures n in PhiDefs(phis) <==> n in PhiDefs(phis[..last]) + {phis[last].def} {
          if n in PhiDefs(phis[..last]) {
            var i :| 0 <= i < last && phis[..last][i].def == n;
            assert phis[i].def == n;
          }
        }
      }
      before[phis[last].def := env[phis[last].incoming[prev]]]
  }

  // ---- the functional meaning ----

  type Env = map<Name, Value>

  /** The value an instruction gives its name. */
  function InstValue(env: Env, inst: Inst): Option<Value> {
    match LookupAll(env, inst.args)
    case None => None
    case Some(args) =>
      match inst
      case Alloc(_, kind, _) => Wrap(NewCollection(kind, args))
      case Copy(_, src, _) => if src in env && env[src].Collection? then Wrap(CopyOf(env[src].c, args)) else None
      case Update(_, obj, op, _) => if obj in env && env[obj].Collection? then Wrap(ApplyUpdate(op, env[obj].c, args))
          else None
      case Ask(_, obj, q, _) => if obj in env && env[obj].Collection? then WrapNum(Answer(q, env[obj].c, args))
          else None
      case Compute(_, fn, _) => WrapNum(Evaluate(fn, args))
  }

  function Wrap(c: Option<Coll>): Option<Value> {
    match c case Some(d) => Some(Collection(d)) case None => None
  }

  function WrapNum(n: Option<int>): Option<Value> {
    match n case Some(k) => Some(Num(k)) case None => None
  }

  function FStep(p: Program, c: Conf<Env>): Conf<Env> {
    match c
    case Done(_) => c
    case Stuck => c
    case At(loc, env) =>
      if loc.block !in p then Stuck
      else
        var b := p[loc.block];
        if loc.pc == 0 then
          if PhisReady(b.phis, loc.prev, env) then At(Next(loc), env + PhiValues(b.phis, loc.prev, env)) else Stuck
        else if loc.pc <= |b.body| then
          match InstValue(env, b.body[loc.pc - 1])
          case Some(v) => At(Next(loc), env[b.body[loc.pc - 1].def := v])
          case None => Stuck
        else
          match b.term
          case Jump(target) => At(Enter(loc, target), env)
          case Branch(cond, ifTrue, ifFalse) =>
            if cond in env && env[cond].Num? then At(Enter(loc, if env[cond].n != 0 then ifTrue else ifFalse), env)
                else Stuck
          case Return(v) => if v in env then Done(env[v]) else Stuck
  }

  function FRun(p: Program, env: Env, n: nat): Conf<Env> {
    if n == 0 then At(START, env) else FStep(p, FRun(p, env, n - 1))
  }
}
