/**
  What the operations on collections make and answer, element by element and key by key,
  and what a step of the functional program does with them: stated on the elements, entries
  and environments, so that it can be compared with the runtime's containers line by line.
 */
module Operations {
  import opened Wrappers
  import opened Coalescing
  import opened Ssa

  // ---- updates of a sequence ----

  lemma WriteElement(s: seq<int>, args: seq<Value>)
    ensures var r := ApplyUpdate(Write, Sequence(s), args);
      && (r.Some? <==> |args| == 2 && args[0].Num? && args[1].Num? && 0 <= args[0].n < |s|)
      && (r.Some? ==>
            && r.value.Sequence? && |r.value.elems| == |s|
            && forall j :: 0 <= j < |s| ==> r.value.elems[j] == if j == args[0].n then args[1].n else s[j])
  {
  }

  /** One longer: what was at `i` or after it moves up, and a zero comes in. */
  lemma InsertElement(s: seq<int>, args: seq<Value>)
    ensures var r := ApplyUpdate(Insert, Sequence(s), args);
      && (r.Some? <==> |args| == 1 && args[0].Num? && 0 <= args[0].n <= |s|)
      && (r.Some? ==>
            && r.value.Sequence? && |r.value.elems| == |s| + 1 && r.value.elems[args[0].n] == 0
            && (forall j :: 0 <= j < args[0].n ==> r.value.elems[j] == s[j])
            && forall j :: args[0].n <= j < |s| ==> r.value.elems[j + 1] == s[j])
  {
  }

  lemma InsertGivenElement(s: seq<int>, args: seq<Value>)
    ensures var r := ApplyUpdate(InsertValue, Sequence(s), args);
      && (r.Some? <==> |args| == 2 && args[0].Num? && args[1].Num? && 0 <= args[0].n <= |s|)
      && (r.Some? ==>
            && r.value.Sequence? && |r.value.elems| == |s| + 1 && r.value.elems[args[0].n] == args[1].n
            && (forall j :: 0 <= j < args[0].n ==> r.value.elems[j] == s[j])
            && forall j :: args[0].n <= j < |s| ==> r.value.elems[j + 1] == s[j])
  {
  }

  /** Longer by the input, whose elements stand at `i` in their order. */
  lemma InsertElements(s: seq<int>, args: seq<Value>)
    ensures var r := ApplyUpdate(InsertInput, Sequence(s), args);
      && (r.Some? <==>
            && |args| == 2 && args[0].Num? && 0 <= args[0].n <= |s|
            && args[1].Collection? && args[1].c.Sequence?)
      && (r.Some? ==>
            var t := args[1].c.elems;
            && r.value.Sequence? && |r.value.elems| == |s| + |t|
            && (forall j :: 0 <= j < args[0].n ==> r.value.elems[j] == s[j])
            && (forall j :: 0 <= j < |t| ==> r.value.elems[args[0].n + j] == t[j])
            && forall j :: args[0].n <= j < |s| ==> r.value.elems[j + |t|] == s[j])
  {
  }

  /** One shorter: what was after `i` moves down. */
  lemma RemoveElement(s: seq<int>, args: seq<Value>)
    ensures var r := ApplyUpdate(Remove, Sequence(s), args);
      && (r.Some? <==> |args| == 1 && args[0].Num? && 0 <= args[0].n < |s|)
      && (r.Some? ==>
            && r.value.Sequence? && |r.value.elems| == |s| - 1
            && (forall j :: 0 <= j < args[0].n ==> r.value.elems[j] == s[j])
            && forall j :: args[0].n <= j < |s| - 1 ==> r.value.elems[j] == s[j + 1])
  {
  }

  lemma RemoveElements(s: seq<int>, args: seq<Value>)
    ensures var r := ApplyUpdate(RemoveRange, Sequence(s), args);
      && (r.Some? <==> |args| == 2 && args[0].Num? && args[1].Num? && 0 <= args[0].n <= args[1].n <= |s|)
      && (r.Some? ==>
            var gone := args[1].n - args[0].n;
            && r.value.Sequence? && |r.value.elems| == |s| - gone
            && (forall j :: 0 <= j < args[0].n ==> r.value.elems[j] == s[j])
            && forall j :: args[0].n <= j < |s| - gone ==> r.value.elems[j] == s[j + gone])
  {
  }

  // ---- updates of an associative array ----

  /** The value of a key that is there changes, and no other. */
  lemma WriteEntry(m: map<int, int>, args: seq<Value>)
    ensures var r := ApplyUpdate(Write, Assoc(m), args);
      && (r.Some? <==> |args| == 2 && args[0].Num? && args[1].Num? && args[0].n in m)
      && (r.Some? ==>
            && r.value.Assoc? && r.value.entries.Keys == m.Keys
            && forall k :: k in m ==> r.value.entries[k] == if k == args[0].n then args[1].n else m[k])
  {
  }

  /** A key that is there keeps its value; a new one gets zero. */
  lemma InsertEntry(m: map<int, int>, args: seq<Value>)
    ensures var r := ApplyUpdate(Insert, Assoc(m), args);
      && (r.Some? <==> |args| == 1 && args[0].Num?)
      && (r.Some? ==>
            && r.value.Assoc? && r.value.entries.Keys == m.Keys + {args[0].n}
            && (forall k :: k in m ==> r.value.entries[k] == m[k])
            && (args[0].n !in m ==> r.value.entries[args[0].n] == 0))
  {
  }

  lemma InsertGivenEntry(m: map<int, int>, args: seq<Value>)
    ensures var r := ApplyUpdate(InsertValue, Assoc(m), args);
      && (r.Some? <==> |args| == 2 && args[0].Num? && args[1].Num?)
      && (r.Some? ==>
            && r.value.Assoc? && r.value.entries.Keys == m.Keys + {args[0].n}
            && r.value.entries[args[0].n] == args[1].n
            && forall k :: k in m && k != args[0].n ==> r.value.entries[k] == m[k])
  {
  }

  lemma RemoveEntry(m: map<int, int>, args: seq<Value>)
    ensures var r := ApplyUpdate(Remove, Assoc(m), args);
      && (r.Some? <==> |args| == 1 && args[0].Num?)
      && (r.Some? ==>
            && r.value.Assoc? && (forall k :: k in r.value.entries <==> k in m && k != args[0].n)
            && forall k :: k in r.value.entries ==> r.value.entries[k] == m[k])
  {
  }

  /** Nothing is left of either; the other operations are for sequences only. */
  lemma ClearAll(c: Coll, args: seq<Value>)
    ensures var r := ApplyUpdate(Clear, c, args);
      && (r.Some? <==> args == [])
      && (r.Some? ==> if c.Sequence? then r.value.Sequence? && |r.value.elems| == 0
                      else r.value.Assoc? && forall k :: k !in r.value.entries)
    ensures c.Assoc? ==> ApplyUpdate(InsertInput, c, args).None? && ApplyUpdate(RemoveRange, c, args).None?
  {
  }

  // ---- new collections ----

  lemma NewElements(kind: Kind, args: seq<Value>)
    ensures var r := NewCollection(kind, args);
      && (r.Some? <==> if kind == SequenceKind then |args| == 1 && args[0].Num? && args[0].n >= 0 else args == [])
      && (r.Some? && kind == SequenceKind ==>
            r.value.Sequence? && |r.value.elems| == args[0].n && forall j :: 0 <= j < args[0].n ==>
                r.value.elems[j] == 0)
      && (r.Some? && kind == AssocKind ==> r.value.Assoc? && forall k :: k !in r.value.entries)
  {
  }

  /** All of the collection, or the elements of a sequence from one position up to another. */
  lemma CopyElements(c: Coll, args: seq<Value>)
    ensures var r := CopyOf(c, args);
      && (r.Some? <==>
            || args == []
            || (c.Sequence? && |args| == 2 && args[0].Num? && args[1].Num? && 0 <= args[0].n <= args[1].n <= |c.elems|))
      && (r.Some? && args == [] ==> r.value == c)
      && (r.Some? && args != [] ==>
            && r.value.Sequence? && |r.value.elems| == args[1].n - args[0].n
            && forall j :: 0 <= j < args[1].n - args[0].n ==> r.value.elems[j] == c.elems[args[0].n + j])
  {
  }

  // ---- questions and scalars ----

  lemma Answers(c: Coll, args: seq<Value>)
    ensures Answer(Size, c, args) == if args != [] then None
        else Some(if c.Sequence? then |c.elems| else |c.entries.Keys|)
    ensures Answer(Has, c, args).Some? <==> c.Assoc? && |args| == 1 && args[0].Num?
    ensures Answer(Has, c, args).Some? ==> Answer(Has, c, args).value == if args[0].n in c.entries.Keys then 1 else 0
    ensures var r := Answer(Read, c, args);
      && (r.Some? <==>
            && |args| == 1 && args[0].Num?
            && if c.Sequence? then 0 <= args[0].n < |c.elems| else args[0].n in c.entries)
      && (r.Some? ==> r.value == if c.Sequence? then c.elems[args[0].n] else c.entries[args[0].n])
  {
    if c.Assoc? {
      assert |c.entries| == |c.entries.Keys|;
    }
  }

  lemma Scalars(k: int, args: seq<Value>)
    ensures Evaluate(Const(k), args) == if args == [] then Some(k) else None
    ensures var numbers := |args| == 2 && args[0].Num? && args[1].Num?;
      && (Evaluate(Add, args).Some? <==> numbers) && (Evaluate(Less, args).Some? <==> numbers)
      && (numbers ==> Evaluate(Add, args).value == args[0].n + args[1].n)
      && (numbers ==> Evaluate(Less, args).value == if args[0].n < args[1].n then 1 else 0)
  {
  }

  // ---- what one undoes or shows of another ----

  lemma RemoveUndoesInsert(s: seq<int>, i: int, v: int)
    requires 0 <= i <= |s|
    ensures ApplyUpdate(InsertValue, Sequence(s), [Num(i), Num(v)]).Some?
    ensures ApplyUpdate(Remove, ApplyUpdate(InsertValue, Sequence(s), [Num(i), Num(v)]).value, [Num(i)])
         == Some(Sequence(s))
  {
    var t := ApplyUpdate(InsertValue, Sequence(s), [Num(i), Num(v)]).value;
    var u := ApplyUpdate(Remove, t, [Num(i)]).value;
    RemoveElement(t.elems, [Num(i)]);
    assert u.elems == s;
  }

  /** What was put in can be copied out, and taken out as a range. */
  lemma InputComesOut(s: seq<int>, i: int, input: seq<int>)
    requires 0 <= i <= |s|
    ensures ApplyUpdate(InsertInput, Sequence(s), [Num(i), Collection(Sequence(input))]).Some?
    ensures var t := ApplyUpdate(InsertInput, Sequence(s), [Num(i), Collection(Sequence(input))]).value;
      && CopyOf(t, [Num(i), Num(i + |input|)]) == Some(Sequence(input))
      && ApplyUpdate(RemoveRange, t, [Num(i), Num(i + |input|)]) == Some(Sequence(s))
  {
    var t := ApplyUpdate(InsertInput, Sequence(s), [Num(i), Collection(Sequence(input))]).value;
    var args := [Num(i), Num(i + |input|)];
    CopyElements(t, args);
    RemoveElements(t.elems, args);
    assert CopyOf(t, args).value.elems == input;
    assert ApplyUpdate(RemoveRange, t, args).value.elems == s;
  }

  // ---- the instructions ----

  ghost predicate Known(env: Env, args: seq<Name>) {
    forall i :: 0 <= i < |args| ==> args[i] in env
  }

  /** The values of the arguments, in their order. */
  ghost function ValuesOf(env: Env, args: seq<Name>): seq<Value>
    requires Known(env, args)
  {
    seq(|args|, i requires 0 <= i < |args| => env[args[i]])
  }

  /** An instruction asks and changes the collection its operand names, and gives its name the outcome. */
  lemma InstMeans(env: Env, d: Name, o: Name, args: seq<Name>, op: UpdateOp, q: Query, kind: Kind, fn: Fn)
    ensures var there := Known(env, args) && o in env && env[o].Collection?;
      && (InstValue(env, Inst.Update(d, o, op, args)).Some? <==>
            there && ApplyUpdate(op, env[o].c, ValuesOf(env, args)).Some?)
      && (InstValue(env, Inst.Copy(d, o, args)).Some? <==> there && CopyOf(env[o].c, ValuesOf(env, args)).Some?)
      && (InstValue(env, Inst.Ask(d, o, q, args)).Some? <==> there && Answer(q, env[o].c, ValuesOf(env, args)).Some?)
    ensures InstValue(env, Inst.Alloc(d, kind, args)).Some? <==>
              Known(env, args) && NewCollection(kind, ValuesOf(env, args)).Some?
    ensures InstValue(env, Inst.Compute(d, fn, args)).Some? <==>
              Known(env, args) && Evaluate(fn, ValuesOf(env, args)).Some?
    ensures var u := InstValue(env, Inst.Update(d, o, op, args));
      u.Some? ==> u.value == Collection(ApplyUpdate(op, env[o].c, ValuesOf(env, args)).value)
    ensures var u := InstValue(env, Inst.Copy(d, o, args));
      u.Some? ==> u.value == Collection(CopyOf(env[o].c, ValuesOf(env, args)).value)
    ensures var u := InstValue(env, Inst.Ask(d, o, q, args));
      u.Some? ==> u.value == Num(Answer(q, env[o].c, ValuesOf(env, args)).value)
    ensures var u := InstValue(env, Inst.Alloc(d, kind, args));
      u.Some? ==> u.value == Collection(NewCollection(kind, ValuesOf(env, args)).value)
    ensures var u := InstValue(env, Inst.Compute(d, fn, args));
      u.Some? ==> u.value == Num(Evaluate(fn, ValuesOf(env, args)).value)
  {
    if LookupAll(env, args).Some? {
      assert LookupAll(env, args).value == ValuesOf(env, args);
    }
  }

  /** An instruction gives its name its value and leaves every other name alone, or the run is stuck. */
  lemma InstStepMeans(p: Program, loc: Loc, env: Env)
    requires loc.block in p && 1 <= loc.pc <= |p[loc.block].body|
    ensures var inst, next := p[loc.block].body[loc.pc - 1], FStep(p, At(loc, env));
      && (next.Stuck? <==> InstValue(env, inst).None?) && (next.At? <==> InstValue(env, inst).Some?)
      && (next.At? ==>
            && next.loc == Loc(loc.prev, loc.block, loc.pc + 1)
            && next.state.Keys == env.Keys + {inst.def} && next.state[inst.def] == InstValue(env, inst).value
            && forall x :: x in env && x != inst.def ==> next.state[x] == env[x])
  {
  }

  /** All PHIs take the values that their incoming names had before. */
  lemma PhiStepMeans(p: Program, loc: Loc, env: Env)
    requires loc.block in p && loc.pc == 0 && DistinctPhis(p[loc.block].phis)
    ensures var phis, next := p[loc.block].phis, FStep(p, At(loc, env));
      var ready := forall i :: 0 <= i < |phis| ==> loc.prev in phis[i].incoming && phis[i].incoming[loc.prev] in env;
      && (next.At? <==> ready) && (next.Stuck? <==> !ready)
      && (ready ==>
            && next.loc == Loc(loc.prev, loc.block, 1)
            && (forall i :: 0 <= i < |phis| ==>
                  phis[i].def in next.state && next.state[phis[i].def] == env[phis[i].incoming[loc.prev]])
            && forall x :: (forall i :: 0 <= i < |phis| ==> phis[i].def != x) ==>
                 (x in next.state <==> x in env) && (x in env ==> next.state[x] == env[x]))
  {
    var phis := p[loc.block].phis;
    if PhisReady(phis, loc.prev, env) {
      forall i | 0 <= i < |phis|
        ensures phis[i].def in PhiDefs(phis)
        ensures PhiValues(phis, loc.prev, env)[phis[i].def] == env[phis[i].incoming[loc.prev]]
      {
        var j :| 0 <= j < |phis| && phis[j].def == phis[i].def
                 && PhiValues(phis, loc.prev, env)[phis[i].def] == env[phis[j].incoming[loc.prev]];
        assert j == i;
      }
    }
  }

  /** A jump, a branch on a number other than zero or on zero, and a return. */
  lemma TermStepMeans(p: Program, loc: Loc, env: Env)
    requires loc.block in p && loc.pc == |p[loc.block].body| + 1
    ensures var term, next := p[loc.block].term, FStep(p, At(loc, env));
      && (term.Jump? ==> next == At(Loc(loc.block, term.target, 0), env))
      && (term.Branch? ==>
            if term.cond in env && env[term.cond] == Num(0) then next == At(Loc(loc.block, term.ifFalse, 0), env)
            else if term.cond in env && env[term.cond].Num? then next == At(Loc(loc.block, term.ifTrue, 0), env)
            else next.Stuck?)
      && (term.Return? ==> if term.value in env then next == Done(env[term.value]) else next.Stuck?)
  {
  }
}
