/** The type checker's unification of flat types by bindings. */
module TypeCheck {
  import opened Wrappers
  import opened Paths

  datatype Type = Variable(id: nat) | Concrete(address: nat)

  type Substitution = map<Type, Type>

  // ---- unifiers ----

  function Apply(sigma: Substitution, t: Type): Type {
    if t.Variable? && t in sigma then sigma[t] else t
  }

  /** `sigma` makes the two sides of every pair equal; it leaves concrete types alone. */
  ghost predicate Unifier(sigma: Substitution, pairs: Relation<Type>) {
    forall e :: e in pairs ==> Apply(sigma, e.0) == Apply(sigma, e.1)
  }

  /** The pairs relate two concrete types that differ. */
  ghost predicate Clash(pairs: Relation<Type>) {
    exists c: Type, d: Type :: c.Concrete? && d.Concrete? && c != d && Connected(pairs, c, d)
  }

  lemma {:induction false} UnifierWalk(sigma: Substitution, pairs: Relation<Type>, a: Type, steps: seq<Type>, b: Type)
    requires Unifier(sigma, pairs) && Walk(Symmetric(pairs), a, steps, b)
    ensures Apply(sigma, a) == Apply(sigma, b)
    decreases |steps|
  {
    if steps != [] {
      UnifierWalk(sigma, pairs, steps[0], steps[1..], b);
      if (a, steps[0]) !in pairs {
        assert (steps[0], a) in pairs;
      }
    }
  }

  /** A unifier of the pairs unifies whatever they relate. */
  lemma UnifierRespects(sigma: Substitution, pairs: Relation<Type>, a: Type, b: Type)
    requires Unifier(sigma, pairs) && Connected(pairs, a, b)
    ensures Apply(sigma, a) == Apply(sigma, b)
  {
    var steps :| Walk(Symmetric(pairs), a, steps, b);
    UnifierWalk(sigma, pairs, a, steps, b);
  }

  lemma ClashHasNoUnifier(pairs: Relation<Type>)
    requires Clash(pairs)
    ensures !exists sigma :: Unifier(sigma, pairs)
  {
    var c: Type, d: Type :| c.Concrete? && d.Concrete? && c != d && Connected(pairs, c, d);
    forall sigma | Unifier(sigma, pairs) ensures false {
      UnifierRespects(sigma, pairs, c, d);
    }
  }

  lemma ClashGrows(pairs: Relation<Type>, more: Relation<Type>)
    requires Clash(pairs) && pairs <= more
    ensures Clash(more)
  {
    var c: Type, d: Type :| c.Concrete? && d.Concrete? && c != d && Connected(pairs, c, d);
    ConnectedMono(pairs, more, c, d);
  }

  // ---- the bindings, and the type that each type's bindings lead to ----

  datatype State = State(bindings: map<Type, Type>, root: map<Type, Type>, depth: map<Type, nat>)

  ghost function Above(depth: map<Type, nat>, t: Type): nat {
    if t in depth then depth[t] else 0
  }

  /** The binding of `x` has the same root and lies less deep; an `x` bound to itself is a root. */
  ghost predicate PointsUp(s: State, x: Type) {
    x in s.bindings ==>
      && x.Variable? && x in s.root && s.bindings[x] in s.root && s.root[s.bindings[x]] == s.root[x]
      && (if s.bindings[x] == x then s.root[x] == x && Above(s.depth, x) == 0
          else Above(s.depth, s.bindings[x]) < Above(s.depth, x))
  }

  /** The root of `x` is a concrete type or bound to itself. */
  ghost predicate Ends(s: State, x: Type) {
    x in s.root ==>
      && s.root[x] in s.root && s.root[s.root[x]] == s.root[x]
      && (x.Variable? ==> x in s.bindings) && (x.Concrete? ==> s.root[x] == x && Above(s.depth, x) == 0)
      && (s.root[x].Variable? ==> s.root[x] in s.bindings && s.bindings[s.root[x]] == s.root[x])
  }

  ghost predicate Joined(s: State, unified: Relation<Type>, x: Type) {
    x in s.root ==> Connected(unified, x, s.root[x])
  }

  ghost predicate Agrees(s: State, e: (Type, Type)) {
    e.0 in s.root && e.1 in s.root && s.root[e.0] == s.root[e.1]
  }

  ghost predicate Forest(s: State) {
    && (forall x {:trigger PointsUp(s, x)} :: PointsUp(s, x))
    && (forall x {:trigger Ends(s, x)} :: Ends(s, x))
  }

  /** Two types have one root exactly when the unified pairs relate them. */
  ghost predicate Tracks(s: State, unified: Relation<Type>) {
    && (forall x {:trigger Joined(s, unified, x)} :: Joined(s, unified, x))
    && (forall e {:trigger Agrees(s, e)} :: e in unified ==> Agrees(s, e))
  }

  ghost predicate Inv(s: State, unified: Relation<Type>) {
    Forest(s) && Tracks(s, unified)
  }

  lemma SameRootIffConnected(s: State, unified: Relation<Type>, x: Type, y: Type)
    requires Inv(s, unified) && x in s.root && y in s.root
    ensures s.root[x] == s.root[y] <==> Connected(unified, x, y)
  {
    assert Joined(s, unified, x) && Joined(s, unified, y);
    if s.root[x] == s.root[y] {
      ConnectedSym(unified, y, s.root[y]);
      ConnectedTrans(unified, x, s.root[x], y);
    }
    if Connected(unified, x, y) {
      assert forall e :: e in unified ==> Agrees(s, e);
      ConnectedAgree(unified, s.root, x, y);
    }
  }

  /** The roots are a unifier, and every unifier factors through them. */
  lemma RootsAreMostGeneral(s: State, unified: Relation<Type>)
    requires Inv(s, unified)
    ensures Unifier(s.root, unified)
    ensures forall sigma, t :: Unifier(sigma, unified) ==> Apply(sigma, Apply(s.root, t)) == Apply(sigma, t)
    ensures !Clash(unified)
  {
    assert forall t {:trigger Ends(s, t)} :: Ends(s, t);
    assert forall e {:trigger Agrees(s, e)} :: e in unified ==> Agrees(s, e);
    forall e | e in unified ensures Apply(s.root, e.0) == Apply(s.root, e.1) {
      assert Agrees(s, e) && Ends(s, e.0) && Ends(s, e.1);
    }
    forall sigma, t | Unifier(sigma, unified) ensures Apply(sigma, Apply(s.root, t)) == Apply(sigma, t) {
      assert Joined(s, unified, t);
      if t in s.root {
        UnifierRespects(sigma, unified, t, s.root[t]);
      }
    }
    if Clash(unified) {
      ClashHasNoUnifier(unified);
    }
  }

  // ---- the steps ----

  function Enter(s: State, t: Type): State {
    if t in s.root then s
    else State(if t.Variable? then s.bindings[t := t] else s.bindings, s.root[t := t], s.depth[t := 0])
  }

  lemma EnterInv(s: State, unified: Relation<Type>, t: Type)
    requires Inv(s, unified)
    ensures Inv(Enter(s, t), unified)
  {
    var s' := Enter(s, t);
    if t !in s.root {
      forall x {:trigger PointsUp(s', x)} ensures PointsUp(s', x) {
        assert PointsUp(s, x) && Ends(s, x);
        assert x in s.bindings ==> Ends(s, s.bindings[x]);
      }
      forall x {:trigger Ends(s', x)} ensures Ends(s', x) {
        assert Ends(s, x) && PointsUp(s, t);
      }
      forall x {:trigger Joined(s', unified, x)} ensures Joined(s', unified, x) {
        assert Joined(s, unified, x);
        ReachRefl(Symmetric(unified), x);
      }
      forall e {:trigger Agrees(s', e)} | e in unified ensures Agrees(s', e) {
        assert Agrees(s, e);
      }
    }
  }

  /** Binding a variable to its root changes no root. */
  lemma CompressInv(s: State, unified: Relation<Type>, t: Type)
    requires Inv(s, unified) && t in s.bindings && t in s.root
    ensures Inv(s.(bindings := s.bindings[t := s.root[t]]), unified)
  {
    var s' := s.(bindings := s.bindings[t := s.root[t]]);
    assert PointsUp(s, t) && Ends(s, t) && PointsUp(s, s.root[t]) && Ends(s, s.root[t]);
    forall x {:trigger PointsUp(s', x)} ensures PointsUp(s', x) {
      assert PointsUp(s, x);
    }
    forall x {:trigger Ends(s', x)} ensures Ends(s', x) {
      assert Ends(s, x);
    }
    forall x {:trigger Joined(s', unified, x)} ensures Joined(s', unified, x) {
      assert Joined(s, unified, x);
    }
    forall e {:trigger Agrees(s', e)} | e in unified ensures Agrees(s', e) {
      assert Agrees(s, e);
    }
  }

  /** The root `t` is bound to the root `u`. */
  ghost function Bind(s: State, t: Type, u: Type): State {
    State(s.bindings[t := u],
          map x | x in s.root :: if s.root[x] == t then u else s.root[x],
          map x | x in s.root :: Above(s.depth, x) + if s.root[x] == t then 1 else 0)
  }

  ghost predicate TwoRoots(s: State, t: Type, u: Type) {
    t in s.root && u in s.root && s.root[t] == t && s.root[u] == u && t != u && t.Variable?
  }

  lemma BindForest(s: State, t: Type, u: Type)
    requires Forest(s) && TwoRoots(s, t, u)
    ensures Forest(Bind(s, t, u))
  {
    var s' := Bind(s, t, u);
    assert PointsUp(s, t) && Ends(s, t) && PointsUp(s, u) && Ends(s, u);
    forall x {:trigger PointsUp(s', x)} ensures PointsUp(s', x) {
      assert PointsUp(s, x);
    }
    forall x {:trigger Ends(s', x)} ensures Ends(s', x) {
      assert Ends(s, x);
    }
  }

  lemma BindConnects(s: State, unified: Relation<Type>, a: Type, b: Type)
    requires Tracks(s, unified) && a in s.root && b in s.root
    ensures Connected(unified + {(a, b)}, s.root[a], s.root[b])
  {
    var more := unified + {(a, b)};
    assert Joined(s, unified, a) && Joined(s, unified, b);
    ConnectedMono(unified, more, a, s.root[a]);
    ConnectedMono(unified, more, b, s.root[b]);
    ConnectedPair(more, a, b);
    ConnectedSym(more, a, s.root[a]);
    ConnectedTrans(more, s.root[a], a, b);
    ConnectedTrans(more, s.root[a], b, s.root[b]);
  }

  lemma BindTracks(s: State, unified: Relation<Type>, t: Type, u: Type, a: Type, b: Type)
    requires Tracks(s, unified) && a in s.root && b in s.root && u in s.root
    requires (s.root[a] == t && s.root[b] == u) || (s.root[a] == u && s.root[b] == t)
    ensures Tracks(Bind(s, t, u), unified + {(a, b)})
  {
    var s', more := Bind(s, t, u), unified + {(a, b)};
    BindConnects(s, unified, a, b);
    ConnectedSym(more, s.root[a], s.root[b]);
    forall x {:trigger Joined(s', more, x)} ensures Joined(s', more, x) {
      assert Joined(s, unified, x);
      if x in s.root {
        ConnectedMono(unified, more, x, s.root[x]);
        if s.root[x] == t {
          ConnectedTrans(more, x, t, u);
        }
      }
    }
    forall e {:trigger Agrees(s', e)} | e in more ensures Agrees(s', e) {
      if e in unified {
        assert Agrees(s, e);
      }
    }
  }

  lemma AlreadyUnified(s: State, unified: Relation<Type>, a: Type, b: Type)
    requires Inv(s, unified) && a in s.root && b in s.root && s.root[a] == s.root[b]
    ensures Inv(s, unified + {(a, b)})
  {
    var more := unified + {(a, b)};
    forall x {:trigger Joined(s, more, x)} ensures Joined(s, more, x) {
      assert Joined(s, unified, x);
      if x in s.root {
        ConnectedMono(unified, more, x, s.root[x]);
      }
    }
    forall e {:trigger Agrees(s, e)} | e in more ensures Agrees(s, e) {
      if e in unified {
        assert Agrees(s, e);
      }
    }
  }

  ghost function PairsOf(requests: seq<(Type, Type)>): Relation<Type> {
    set i | 0 <= i < |requests| :: requests[i]
  }

  class TypeChecker {
    var bindings: map<Type, Type>
    ghost var root: map<Type, Type>
    ghost var depth: map<Type, nat>
    /** The pairs unified so far. */
    ghost var unified: Relation<Type>

    ghost function Now(): State
      reads this
    {
      State(bindings, root, depth)
    }

    ghost predicate Valid()
      reads this
    {
      Inv(Now(), unified)
    }

    constructor ()
      ensures Valid() && unified == {} && bindings == map[]
    {
      bindings, root, depth, unified := map[], map[], map[], {};
    }

    /** A variable that nothing has been said about. */
    method NewTypeVariable(unused: nat) returns (v: Type)
      requires Valid() && Variable(unused) !in root
      modifies `bindings, `root, `depth
      ensures Valid() && v == Variable(unused) && root == old(root)[v := v] && bindings == old(bindings)[v := v]
    {
      v := Variable(unused);
      EnterInv(Now(), unified, v);
      bindings, root, depth := bindings[v := v], root[v := v], depth[v := 0];
    }

    /** The root of a type, to which its binding then leads at once; no root changes. */
    method Find(t: Type) returns (r: Type)
      requires Valid()
      modifies `bindings, `root, `depth
      ensures Valid() && t in root && r == root[t] && root == old(if t in root then root else root[t := t])
      ensures t.Variable? ==> t in bindings && bindings[t] == r
      ensures forall x :: x in old(bindings) ==>
          x in bindings && (bindings[x] == old(bindings)[x] || (x in root && bindings[x] == root[x]))
      ensures t in old(root) ==> depth == old(depth)
      decreases Above(depth, t)
    {
      assert PointsUp(Now(), t) && Ends(Now(), t);
      if !t.Variable? {
        EnterInv(Now(), unified, t);
        if t !in root {
          root, depth := root[t := t], depth[t := 0];
        }
        return t;
      }
      if t !in bindings {
        EnterInv(Now(), unified, t);
        bindings, root, depth := bindings[t := t], root[t := t], depth[t := 0];
        return t;
      }
      var parent := bindings[t];
      if parent == t {
        return t;
      }
      var newParent := Find(parent);
      CompressInv(Now(), unified, t);
      bindings := bindings[t := newParent];
      return newParent;
    }

    /** Makes two types one, unless that would make two concrete types one. */
    method Unify(a: Type, b: Type) returns (r: Option<Type>)
      requires Valid()
      modifies this
      ensures Valid() && a in root && b in root
      ensures r.None? <==> Clash(old(unified) + {(a, b)})
      ensures unified == if r.Some? then old(unified) + {(a, b)} else old(unified)
      ensures r.Some? ==> r.value == root[a] == root[b]
    {
      var t := Find(a);
      var u := Find(b);
      assert Ends(Now(), a) && Ends(Now(), b);
      BindConnects(Now(), unified, a, b);
      if t == u {
        AlreadyUnified(Now(), unified, a, b);
        r := Some(t);
      } else if t.Variable? {
        BindForest(Now(), t, u);
        BindTracks(Now(), unified, t, u, a, b);
        BindState(t, u);
        r := Some(u);
      } else if u.Variable? {
        BindForest(Now(), u, t);
        BindTracks(Now(), unified, u, t, a, b);
        BindState(u, t);
        r := Some(t);
      } else {
        return None;
      }
      unified := unified + {(a, b)};
      RootsAreMostGeneral(Now(), unified);
    }

    method BindState(t: Type, u: Type)
      modifies `bindings, `root, `depth
      ensures Now() == Bind(old(Now()), t, u)
    {
      root, depth := Bind(Now(), t, u).root, Bind(Now(), t, u).depth;
      bindings := bindings[t := u];
    }

    /** A run of requests goes through exactly when they have a unifier; the roots are then a most general one. */
    method UnifyAll(requests: seq<(Type, Type)>) returns (ok: bool)
      requires Valid() && unified == {}
      modifies this
      ensures Valid()
      ensures ok <==> exists sigma :: Unifier(sigma, PairsOf(requests))
      ensures ok ==>
                && Unifier(root, PairsOf(requests))
                && forall sigma, t :: Unifier(sigma, PairsOf(requests)) ==>
                    Apply(sigma, Apply(root, t)) == Apply(sigma, t)
    {
      for i := 0 to |requests|
        invariant Valid() && unified == PairsOf(requests[..i])
      {
        assert PairsOf(requests[..i + 1]) == PairsOf(requests[..i]) + {(requests[i].0, requests[i].1)} by {
          assert requests[..i + 1] == requests[..i] + [requests[i]];
        }
        var r := Unify(requests[i].0, requests[i].1);
        if r.None? {
          ClashGrows(PairsOf(requests[..i + 1]), PairsOf(requests));
          ClashHasNoUnifier(PairsOf(requests));
          return false;
        }
      }
      assert requests[..|requests|] == requests;
      RootsAreMostGeneral(Now(), unified);
      return true;
    }
  }
}
