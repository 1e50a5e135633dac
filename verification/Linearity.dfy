/** What linearity verification and SSA dominance say about a program. */
module Linearity {
  import opened Coalescing
  import opened Ssa

  /** The live names before each instruction and terminator, by block and position. */
  type Live = map<(Label, nat), set<Name>>

  /** The part of each name that the verifier tracks. */
  type Partition = map<Name, Name>

  /** A program with what is known of it: liveness, partition, coalescing map, and the incoming names. */
  datatype Setting = Setting(p: Program, live: Live, part: Partition, coalesced: Renaming, incoming: set<Name>)

  ghost function Names(s: seq<Name>): set<Name> {
    set i | 0 <= i < |s| :: s[i]
  }

  ghost function Uses(inst: Inst): set<Name> {
    Names(inst.args) + match inst
      case Copy(_, src, _) => {src}
      case Update(_, obj, _, _) => {obj}
      case Ask(_, obj, _, _) => {obj}
      case _ => {}
  }

  ghost function TermUses(term: Terminator): set<Name> {
    match term
    case Jump(_) => {}
    case Branch(cond, _, _) => {cond}
    case Return(value) => {value}
  }

  function Successors(term: Terminator): set<Label> {
    match term
    case Jump(target) => {target}
    case Branch(_, ifTrue, ifFalse) => {ifTrue, ifFalse}
    case Return(_) => {}
  }

  /** What the PHIs read when control comes from `prev`. */
  function Incoming(phis: seq<Phi>, prev: Label): set<Name> {
    set i | 0 <= i < |phis| && prev in phis[i].incoming :: phis[i].incoming[prev]
  }

  function LiveBefore(s: Setting, block: Label, pc: nat): set<Name> {
    if (block, pc) in s.live then s.live[(block, pc)] else {}
  }

  /** The live names along the edge from `prev`: the PHIs' names are not born yet, what they read still lives. */
  function EdgeLive(s: Setting, prev: Label, block: Label): set<Name> {
    if block in s.p then
      LiveBefore(s, block, 1) - PhiDefs(s.p[block].phis) + Incoming(s.p[block].phis, prev)
    else {}
  }

  ghost function LiveAt(s: Setting, loc: Loc): set<Name> {
    if loc.pc == 0 then EdgeLive(s, loc.prev, loc.block) else LiveBefore(s, loc.block, loc.pc)
  }

  function Defs(p: Program, block: Label, pc: nat): set<Name> {
    if block !in p then {}
    else if pc == 0 then PhiDefs(p[block].phis)
    else if pc <= |p[block].body| then {p[block].body[pc - 1].def}
    else {}
  }

  ghost function DefsAt(s: Setting, loc: Loc): set<Name> {
    Defs(s.p, loc.block, loc.pc)
  }

  // ---- liveness ----

  /** The equations of a backward liveness at one position, as inclusions. */
  ghost predicate SoundAt(s: Setting, block: Label, pc: nat) {
    block in s.p && 1 <= pc ==>
      var b := s.p[block];
      && (pc <= |b.body| ==>
            Uses(b.body[pc - 1]) <= LiveBefore(s, block, pc)
            && LiveBefore(s, block, pc + 1) - {b.body[pc - 1].def} <= LiveBefore(s, block, pc))
      && (pc == |b.body| + 1 ==>
            TermUses(b.term) <= LiveBefore(s, block, pc)
            && forall t :: t in Successors(b.term) ==> EdgeLive(s, block, t) <= LiveBefore(s, block, pc))
  }

  ghost predicate SoundLiveness(s: Setting) {
    forall block, pc {:trigger SoundAt(s, block, pc)} :: SoundAt(s, block, pc)
  }

  // ---- the partition ----

  /** At most one name of each part is live. */
  ghost predicate AtMostOne(part: Partition, live: set<Name>) {
    forall x, y {:trigger SamePart(part, x, y)} :: x in live && y in live && SamePart(part, x, y) ==> x == y
  }

  ghost predicate SamePart(part: Partition, x: Name, y: Name) {
    x in part && y in part && part[x] == part[y]
  }

  ghost predicate LinearAt(s: Setting, block: Label, pc: nat) {
    block in s.p && 1 <= pc <= |s.p[block].body| + 1 ==> AtMostOne(s.part, LiveBefore(s, block, pc))
  }

  /** What `verify_linearity` checks before every instruction. */
  ghost predicate Linear(s: Setting) {
    forall block, pc {:trigger LinearAt(s, block, pc)} :: LinearAt(s, block, pc)
  }

  /** An update shares a part with its operand. */
  ghost predicate UpdateJoined(s: Setting, block: Label, pc: nat) {
    block in s.p && 1 <= pc <= |s.p[block].body| && s.p[block].body[pc - 1].Update? ==>
      SamePart(s.part, s.p[block].body[pc - 1].def, s.p[block].body[pc - 1].obj)
  }

  ghost predicate UpdatesJoined(s: Setting) {
    forall block, pc {:trigger UpdateJoined(s, block, pc)} :: UpdateJoined(s, block, pc)
  }

  /** A PHI shares a part with each name it reads, as soon as either is in the partition. */
  ghost predicate PhiClosedAt(s: Setting, block: Label, i: nat, prev: Label) {
    block in s.p && i < |s.p[block].phis| && prev in s.p[block].phis[i].incoming ==>
      var phi := s.p[block].phis[i];
      phi.def in s.part || phi.incoming[prev] in s.part ==> SamePart(s.part, phi.def, phi.incoming[prev])
  }

  ghost predicate PhiClosed(s: Setting) {
    forall block, i, prev {:trigger PhiClosedAt(s, block, i, prev)} :: PhiClosedAt(s, block, i, prev)
  }

  /** The operand of an update is dead after it. */
  ghost predicate Consumes(s: Setting, block: Label, pc: nat) {
    block in s.p && 1 <= pc <= |s.p[block].body| && s.p[block].body[pc - 1].Update? ==>
      s.p[block].body[pc - 1].obj !in LiveBefore(s, block, pc + 1)
  }

  ghost predicate UpdatesConsume(s: Setting) {
    forall block, pc {:trigger Consumes(s, block, pc)} :: Consumes(s, block, pc)
  }

  /** The result of an update is live after it. */
  ghost predicate ResultLives(s: Setting, block: Label, pc: nat) {
    block in s.p && 1 <= pc <= |s.p[block].body| && s.p[block].body[pc - 1].Update? ==>
      s.p[block].body[pc - 1].def in LiveBefore(s, block, pc + 1)
  }

  lemma NoSelfUpdate(m: Renaming, n: Name)
    requires Chains(m) && n in m
    ensures m[n] != n
  {
    OnwardShrinks(m, n);
  }

  /** If every result is live, the linearity check is what shows that every operand is consumed. */
  lemma LiveResultsConsume(s: Setting)
    requires Linear(s) && UpdatesJoined(s) && SsaForm(s)
    requires forall block, pc {:trigger ResultLives(s, block, pc)} :: ResultLives(s, block, pc)
    ensures UpdatesConsume(s)
  {
    forall block, pc: nat {:trigger Consumes(s, block, pc)} ensures Consumes(s, block, pc) {
      assert ResultLives(s, block, pc) && UpdateJoined(s, block, pc) && LinearAt(s, block, pc + 1);
      assert UpdateRecorded(s, block, pc);
      if block in s.p && 1 <= pc <= |s.p[block].body| && s.p[block].body[pc - 1].Update? {
        var inst := s.p[block].body[pc - 1];
        NoSelfUpdate(s.coalesced, inst.def);
        assert SamePart(s.part, inst.def, inst.obj);
      }
    }
  }

  // ---- SSA form and dominance ----

  ghost predicate DefinedOnce(s: Setting, block: Label, pc: nat, block': Label, pc': nat, n: Name) {
    n in Defs(s.p, block, pc) && n in Defs(s.p, block', pc') ==> block == block' && pc == pc'
  }

  ghost predicate NotIncoming(s: Setting, block: Label, pc: nat) {
    Defs(s.p, block, pc) !! s.incoming
  }

  ghost predicate UpdateRecorded(s: Setting, block: Label, pc: nat) {
    block in s.p && 1 <= pc <= |s.p[block].body| && s.p[block].body[pc - 1].Update? ==>
      var inst := s.p[block].body[pc - 1];
      inst.def in s.coalesced && s.coalesced[inst.def] == inst.obj
  }

  ghost predicate DefinesByUpdate(s: Setting, block: Label, pc: nat, n: Name) {
    block in s.p && 1 <= pc <= |s.p[block].body| && s.p[block].body[pc - 1].Update? && s.p[block].body[pc - 1].def == n
  }

  /** Every coalesced name is the result of an update. */
  ghost predicate IsUpdate(s: Setting, n: Name) {
    n in s.coalesced ==> exists block, pc :: DefinesByUpdate(s, block, pc, n)
  }

  /** Each name is defined in one place, incoming names nowhere, and the entry has no PHIs. */
  ghost predicate SingleAssignment(s: Setting) {
    && (forall b, pc, b', pc', n {:trigger DefinedOnce(s, b, pc, b', pc', n)} :: DefinedOnce(s, b, pc, b', pc', n))
    && (forall b, pc {:trigger NotIncoming(s, b, pc)} :: NotIncoming(s, b, pc))
    && (forall b {:trigger s.p[b]} :: b in s.p ==> DistinctPhis(s.p[b].phis))
    && (ENTRY in s.p ==> s.p[ENTRY].phis == [])
  }

  /** The coalescing map sends exactly the results of updates to their operands. */
  ghost predicate RecordsUpdates(s: Setting) {
    && (forall b, pc {:trigger UpdateRecorded(s, b, pc)} :: UpdateRecorded(s, b, pc))
    && (forall n {:trigger IsUpdate(s, n)} :: IsUpdate(s, n))
  }

  ghost predicate SsaForm(s: Setting) {
    SingleAssignment(s) && RecordsUpdates(s) && Chains(s.coalesced)
  }

  ghost predicate LocEdge(s: Setting, l: Loc, l': Loc) {
    l.block in s.p &&
    if l.pc <= |s.p[l.block].body| then l' == Next(l)
    else l.pc == |s.p[l.block].body| + 1 && l'.block in Successors(s.p[l.block].term) && l' == Enter(l, l'.block)
  }

  ghost predicate IsPath(s: Setting, path: seq<Loc>) {
    |path| > 0 && path[0] == START && forall i :: 0 <= i < |path| - 1 ==> LocEdge(s, path[i], path[i + 1])
  }

  ghost predicate DefinedBefore(s: Setting, path: seq<Loc>, k: nat, n: Name) {
    exists i :: 0 <= i < k && i < |path| && n in DefsAt(s, path[i])
  }

  /** Whatever is live at the end of the path is incoming or was defined on the way. */
  ghost predicate DominatedOn(s: Setting, path: seq<Loc>) {
    |path| > 0 ==>
      forall x {:trigger DefinedBefore(s, path, |path| - 1, x)} ::
        x in LiveAt(s, path[|path| - 1]) ==> x in s.incoming || DefinedBefore(s, path, |path| - 1, x)
  }

  /** Definitions dominate: no path from the entry reaches a live name without passing its definition. */
  ghost predicate Dominance(s: Setting) {
    forall path {:trigger DominatedOn(s, path)} :: IsPath(s, path) ==> DominatedOn(s, path)
  }

  lemma PathPrefix(s: Setting, path: seq<Loc>, k: nat)
    requires IsPath(s, path) && k < |path|
    ensures IsPath(s, path[..k + 1])
  {
  }

  lemma PathExtend(s: Setting, path: seq<Loc>, l: Loc)
    requires IsPath(s, path) && LocEdge(s, path[|path| - 1], l)
    ensures IsPath(s, path + [l])
  {
  }

  /** The site of a coalesced name on a path is its update, so its operand is live there. */
  lemma OperandLive(s: Setting, path: seq<Loc>, i: nat, x: Name)
    requires SsaForm(s) && SoundLiveness(s) && i < |path| && x in DefsAt(s, path[i]) && x in s.coalesced
    ensures path[i].pc >= 1 && s.coalesced[x] in LiveAt(s, path[i])
    ensures DefsAt(s, path[i]) == {x}
  {
    assert IsUpdate(s, x);
    var block, pc :| DefinesByUpdate(s, block, pc, x);
    assert x in Defs(s.p, block, pc);
    assert DefinedOnce(s, block, pc, path[i].block, path[i].pc, x);
    assert UpdateRecorded(s, block, pc) && SoundAt(s, block, pc);
  }

  lemma UpdateNotIncoming(s: Setting, x: Name)
    requires SsaForm(s)
    ensures x in s.coalesced ==> x !in s.incoming
  {
    assert IsUpdate(s, x);
    if x in s.coalesced {
      var block, pc :| DefinesByUpdate(s, block, pc, x);
      assert NotIncoming(s, block, pc) && x in Defs(s.p, block, pc);
    }
  }

  /** The end of a chain is defined, or comes in, before any name of the chain is defined. */
  lemma {:induction false} ChainEndFirst(s: Setting, path: seq<Loc>, i: nat, x: Name)
    requires SsaForm(s) && SoundLiveness(s) && Dominance(s)
    requires IsPath(s, path) && i < |path| && x in DefsAt(s, path[i]) && x in s.coalesced
    ensures ChainEnd(s.coalesced, x) in s.incoming || DefinedBefore(s, path, i, ChainEnd(s.coalesced, x))
    decreases i
  {
    OperandLive(s, path, i, x);
    ChainEndEnds(s.coalesced, x);
    var o := s.coalesced[x];
    var prefix := path[..i + 1];
    PathPrefix(s, path, i);
    assert DominatedOn(s, prefix);
    assert prefix[|prefix| - 1] == path[i];
    assert o in s.incoming || DefinedBefore(s, prefix, |prefix| - 1, o);
    if o in s.incoming {
      UpdateNotIncoming(s, o);
    } else {
      var k :| 0 <= k < |prefix| - 1 && k < |prefix| && o in DefsAt(s, prefix[k]);
      assert prefix[k] == path[k];
      if o in s.coalesced {
        ChainEndFirst(s, path, k, o);
        if !(ChainEnd(s.coalesced, x) in s.incoming) {
          var j :| 0 <= j < k && j < |path| && ChainEnd(s.coalesced, o) in DefsAt(s, path[j]);
        }
      }
    }
  }

  /**
    Just after a name is defined, no live name is coalesced onto it: such a name would
    have to be defined both after the first definition and, by dominance, before it.
   */
  lemma NoStaleAlias(s: Setting, path: seq<Loc>, d: Name, x: Name)
    requires SsaForm(s) && SoundLiveness(s) && Dominance(s) && IsPath(s, path)
    requires d in DefsAt(s, path[|path| - 1])
    requires x in LiveAt(s, Next(path[|path| - 1])) && x in s.coalesced
    ensures ChainEnd(s.coalesced, x) != d
  {
    var l := path[|path| - 1];
    if ChainEnd(s.coalesced, x) == d {
      var j := FirstDefinition(s, path, d);
      assert DefinedOnce(s, l.block, l.pc, path[j].block, path[j].pc, d);
      var prefix := path[..j + 1];
      PathPrefix(s, path, j);
      assert prefix[|prefix| - 1] == path[j];
      var longer := prefix + [Next(path[j])];
      PathExtend(s, prefix, Next(path[j]));
      assert DominatedOn(s, longer) && longer[|longer| - 1] == Next(path[j]);
      assert x in LiveAt(s, Next(path[j]));
      assert x in s.incoming || DefinedBefore(s, longer, |longer| - 1, x);
      UpdateNotIncoming(s, x);
      assert NotIncoming(s, l.block, l.pc);
      var i :| 0 <= i < |longer| - 1 && i < |longer| && x in DefsAt(s, longer[i]);
      assert longer[i] == path[i] && i <= j;
      ChainEndEnds(s.coalesced, x);
      OperandLive(s, path, i, x);
      ChainEndFirst(s, path, i, x);
    }
  }

  lemma FirstDefinition(s: Setting, path: seq<Loc>, d: Name) returns (j: nat)
    requires |path| > 0 && d in DefsAt(s, path[|path| - 1])
    ensures j < |path| && d in DefsAt(s, path[j]) && forall k :: 0 <= k < j ==> d !in DefsAt(s, path[k])
  {
    j := 0;
    while d !in DefsAt(s, path[j])
      invariant j < |path| && forall k :: 0 <= k < j ==> d !in DefsAt(s, path[k])
      decreases |path| - j
    {
      j := j + 1;
    }
  }
}
