/** The coalescing maps of SSA destruction: what is recorded for a name may itself be replaced, in chains. */
module Coalescing {
  import opened Paths

  datatype Name = Name(id: nat)

  type Renaming = map<Name, Name>

  function Resolve(m: Renaming, n: Name): Name {
    if n in m then m[n] else n
  }

  ghost function Links(m: Renaming): Relation<Name> {
    set n | n in m :: (n, m[n])
  }

  ghost predicate Chains(m: Renaming) {
    Acyclic(Links(m))
  }

  ghost function Onward(m: Renaming, n: Name): set<Name> {
    set k | k in m && Reach(Links(m), n, k)
  }

  lemma OnwardShrinks(m: Renaming, n: Name)
    requires Chains(m) && n in m
    ensures Onward(m, m[n]) < Onward(m, n)
  {
    assert (n, m[n]) in Links(m);
    ReachRefl(Links(m), n);
    forall k | k in Onward(m, m[n]) ensures k in Onward(m, n) {
      ReachCons(Links(m), n, m[n], k);
    }
    if n in Onward(m, m[n]) {
      assert ReachPlus(Links(m), n, n);
    }
  }

  /** The first name on the chain of `n` that is not among `done`. */
  ghost function Forward(m: Renaming, done: set<Name>, n: Name): Name
    requires Chains(m)
    decreases Onward(m, n)
  {
    if n in m && n in done then
      OnwardShrinks(m, n);
      Forward(m, done, m[n])
    else n
  }

  /** The name at the end of the chain of `n`. */
  ghost function ChainEnd(m: Renaming, n: Name): Name
    requires Chains(m)
  {
    Forward(m, m.Keys, n)
  }

  /** The end of a chain is no key, and the whole chain shares it. */
  lemma {:induction false} ChainEndEnds(m: Renaming, n: Name)
    requires Chains(m)
    ensures ChainEnd(m, n) !in m
    ensures n in m ==> ChainEnd(m, n) == ChainEnd(m, m[n]) && ChainEnd(m, n) != n
    decreases Onward(m, n)
  {
    if n in m {
      OnwardShrinks(m, n);
      ChainEndEnds(m, m[n]);
    }
  }

  lemma {:induction false} ForwardIsLast(m: Renaming, done: set<Name>, n: Name)
    requires Chains(m)
    ensures !(Forward(m, done, n) in m && Forward(m, done, n) in done)
    decreases Onward(m, n)
  {
    if n in m && n in done {
      OnwardShrinks(m, n);
      ForwardIsLast(m, done, m[n]);
    }
  }

  /** When `v` joins the names that are done, whatever stopped at `v` moves on to where `m[v]` stops. */
  lemma {:induction false} ForwardStep(m: Renaming, done: set<Name>, v: Name, n: Name)
    requires Chains(m) && v in m
    ensures Forward(m, done + {v}, n)
         == if Forward(m, done, n) == v then Forward(m, done + {v}, m[v]) else Forward(m, done, n)
    decreases Onward(m, n)
  {
    if n in m && (n in done || n == v) {
      OnwardShrinks(m, n);
      if n in done {
        ForwardStep(m, done, v, m[n]);
      }
    }
  }

  lemma {:induction false} ForwardReach(m: Renaming, done: set<Name>, n: Name)
    requires Chains(m)
    ensures Reach(Links(m), n, Forward(m, done, n))
    decreases Onward(m, n)
  {
    ReachRefl(Links(m), n);
    if n in m && n in done {
      OnwardShrinks(m, n);
      ForwardReach(m, done, m[n]);
      assert (n, m[n]) in Links(m);
      ReachCons(Links(m), n, m[n], Forward(m, done, n));
    }
  }

  /** Past `v` the chain never comes back to `v`, so whether `v` is done does not matter there. */
  lemma ForwardPast(m: Renaming, done: set<Name>, v: Name)
    requires Chains(m) && v in m
    ensures Forward(m, done + {v}, m[v]) == Forward(m, done, m[v])
  {
    ForwardStep(m, done, v, m[v]);
    ForwardReach(m, done, m[v]);
    assert (v, m[v]) in Links(m);
    assert Forward(m, done, m[v]) == v ==> ReachPlus(Links(m), v, v);
  }

  /** `v` is replaced by a name further along its chain, with only finished names passed over. */
  ghost predicate ReplacedAlong(m: Renaming, done: set<Name>, replaced: Renaming, v: Name)
    requires Chains(m)
  {
    v in replaced ==>
      && v in m
      && Onward(m, replaced[v]) < Onward(m, v)
      && Forward(m, done, replaced[v]) == Forward(m, done, v)
  }

  /** The invariant of `replaced_values` when `done` are the names coalesced so far. */
  ghost predicate Replaced(m: Renaming, done: set<Name>, replaced: Renaming)
    requires Chains(m)
  {
    && replaced.Keys == done
    && done <= m.Keys
    && (forall v {:trigger ReplacedAlong(m, done, replaced, v)} :: ReplacedAlong(m, done, replaced, v))
  }

  /** What each name in use has become once `done` are coalesced. */
  ghost function Forwarded(m: Renaming, done: set<Name>): Renaming
    requires Chains(m)
  {
    map n | n in done :: Forward(m, done, n)
  }

  lemma ForwardedAt(m: Renaming, done: set<Name>, n: Name)
    requires Chains(m)
    ensures Resolve(Forwarded(m, done), n) == Forward(m, done, n)
  {
  }

  lemma OnwardOfForward(m: Renaming, done: set<Name>, v: Name)
    requires Chains(m) && v in m
    ensures Onward(m, Forward(m, done, m[v])) < Onward(m, v)
  {
    OnwardShrinks(m, v);
    ForwardReach(m, done, m[v]);
    var w := Forward(m, done, m[v]);
    forall k | k in Onward(m, w) ensures k in Onward(m, m[v]) {
      ReachTrans(Links(m), m[v], w, k);
    }
  }

  /** Coalescing `v` moves every use of it to the first unfinished name on its chain. */
  lemma CoalesceStep(m: Renaming, done: set<Name>, replaced: Renaming, v: Name)
    requires Chains(m) && v in m && Replaced(m, done, replaced)
    ensures Replaced(m, done + {v}, replaced[v := Forward(m, done, m[v])])
    ensures forall n :: Forward(m, done + {v}, n)
                     == if Forward(m, done, n) == v then Forward(m, done, m[v]) else Forward(m, done, n)
  {
    var w := Forward(m, done, m[v]);
    var done', replaced' := done + {v}, replaced[v := w];
    ForwardPast(m, done, v);
    forall n ensures Forward(m, done', n) == if Forward(m, done, n) == v then w else Forward(m, done, n) {
      ForwardStep(m, done, v, n);
    }
    OnwardOfForward(m, done, v);
    ForwardIsLast(m, done, m[v]);
    forall n {:trigger ReplacedAlong(m, done', replaced', n)} ensures ReplacedAlong(m, done', replaced', n) {
      assert ReplacedAlong(m, done, replaced, n);
    }
  }
}
