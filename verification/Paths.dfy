/**
  Walks along a finite relation, and the reachability and the equivalence closure that
  they define. The graph algorithms, union-find, unification, the coalescing maps and the
  type map all speak about reachability through this one definition, and use the few
  facts about walks that are collected here.
 */
module Paths {

  type Relation<T(==)> = set<(T, T)>

  /** `steps` are the nodes visited after `a`, the last of them being `b`. */
  ghost predicate Walk<T>(edges: Relation<T>, a: T, steps: seq<T>, b: T)
    decreases |steps|
  {
    if steps == [] then a == b
    else (a, steps[0]) in edges && Walk(edges, steps[0], steps[1..], b)
  }

  /** Zero or more edges lead from `a` to `b`. */
  ghost predicate Reach<T(!new)>(edges: Relation<T>, a: T, b: T) {
    exists steps: seq<T> :: Walk(edges, a, steps, b)
  }

  /** One or more edges lead from `a` to `b`. */
  ghost predicate ReachPlus<T(!new)>(edges: Relation<T>, a: T, b: T) {
    exists c :: (a, c) in edges && Reach(edges, c, b)
  }

  ghost predicate Acyclic<T(!new)>(edges: Relation<T>) {
    forall a :: !ReachPlus(edges, a, a)
  }

  /** No edge leaves `c`. */
  ghost predicate Closed<T(!new)>(edges: Relation<T>, c: set<T>) {
    forall a, b :: (a, b) in edges && a in c ==> b in c
  }

  ghost function Symmetric<T>(edges: Relation<T>): Relation<T> {
    edges + set e | e in edges :: (e.1, e.0)
  }

  /** `a` and `b` are related by the least equivalence containing `edges`. */
  ghost predicate Connected<T(!new)>(edges: Relation<T>, a: T, b: T) {
    Reach(Symmetric(edges), a, b)
  }

  lemma ReachRefl<T(!new)>(edges: Relation<T>, a: T)
    ensures Reach(edges, a, a)
  {
    assert Walk(edges, a, [], a);
  }

  lemma ReachCons<T(!new)>(edges: Relation<T>, a: T, b: T, c: T)
    requires (a, b) in edges && Reach(edges, b, c)
    ensures Reach(edges, a, c)
  {
    var steps :| Walk(edges, b, steps, c);
    assert ([b] + steps)[1..] == steps;
    assert Walk(edges, a, [b] + steps, c);
  }

  lemma ReachEdge<T(!new)>(edges: Relation<T>, a: T, b: T)
    requires (a, b) in edges
    ensures Reach(edges, a, b)
  {
    ReachRefl(edges, b);
    ReachCons(edges, a, b, b);
  }

  lemma {:induction false} WalkReach<T(!new)>(edges: Relation<T>, a: T, steps: seq<T>, b: T, c: T)
    requires Walk(edges, a, steps, b) && Reach(edges, b, c)
    ensures Reach(edges, a, c)
    decreases |steps|
  {
    if steps != [] {
      WalkReach(edges, steps[0], steps[1..], b, c);
      ReachCons(edges, a, steps[0], c);
    }
  }

  lemma ReachTrans<T(!new)>(edges: Relation<T>, a: T, b: T, c: T)
    requires Reach(edges, a, b) && Reach(edges, b, c)
    ensures Reach(edges, a, c)
  {
    var steps :| Walk(edges, a, steps, b);
    WalkReach(edges, a, steps, b, c);
  }

  lemma ReachPlusTrans<T(!new)>(edges: Relation<T>, a: T, b: T, c: T)
    requires ReachPlus(edges, a, b) && Reach(edges, b, c)
    ensures ReachPlus(edges, a, c)
  {
    var m :| (a, m) in edges && Reach(edges, m, b);
    ReachTrans(edges, m, b, c);
  }

  lemma {:induction false} WalkClosed<T(!new)>(edges: Relation<T>, c: set<T>, a: T, steps: seq<T>, b: T)
    requires Closed(edges, c) && a in c && Walk(edges, a, steps, b)
    ensures b in c
    decreases |steps|
  {
    if steps != [] {
      WalkClosed(edges, c, steps[0], steps[1..], b);
    }
  }

  /** Nothing outside a closed set is reachable from inside it. */
  lemma ReachClosed<T(!new)>(edges: Relation<T>, c: set<T>, a: T, b: T)
    requires Closed(edges, c) && a in c && Reach(edges, a, b)
    ensures b in c
  {
    var steps :| Walk(edges, a, steps, b);
    WalkClosed(edges, c, a, steps, b);
  }

  lemma {:induction false} WalkMono<T(!new)>(edges: Relation<T>, more: Relation<T>, a: T, steps: seq<T>, b: T)
    requires edges <= more && Walk(edges, a, steps, b)
    ensures Walk(more, a, steps, b)
    decreases |steps|
  {
    if steps != [] {
      WalkMono(edges, more, steps[0], steps[1..], b);
    }
  }

  lemma ReachMono<T(!new)>(edges: Relation<T>, more: Relation<T>, a: T, b: T)
    requires edges <= more && Reach(edges, a, b)
    ensures Reach(more, a, b)
  {
    var steps :| Walk(edges, a, steps, b);
    WalkMono(edges, more, a, steps, b);
  }

  // ---- the equivalence closure ----

  lemma SymmetricPair<T(!new)>(edges: Relation<T>, a: T, b: T)
    requires (a, b) in Symmetric(edges)
    ensures (b, a) in Symmetric(edges)
  {
    if (a, b) !in edges {
      var e :| e in edges && (e.1, e.0) == (a, b);
      assert e == (b, a);
    }
  }

  lemma {:induction false} WalkBack<T(!new)>(edges: Relation<T>, a: T, steps: seq<T>, b: T)
    requires Walk(Symmetric(edges), a, steps, b)
    ensures Connected(edges, b, a)
    decreases |steps|
  {
    if steps == [] {
      ReachRefl(Symmetric(edges), a);
    } else {
      WalkBack(edges, steps[0], steps[1..], b);
      SymmetricPair(edges, a, steps[0]);
      ReachEdge(Symmetric(edges), steps[0], a);
      ReachTrans(Symmetric(edges), b, steps[0], a);
    }
  }

  lemma ConnectedSym<T(!new)>(edges: Relation<T>, a: T, b: T)
    requires Connected(edges, a, b)
    ensures Connected(edges, b, a)
  {
    var steps :| Walk(Symmetric(edges), a, steps, b);
    WalkBack(edges, a, steps, b);
  }

  lemma ConnectedTrans<T(!new)>(edges: Relation<T>, a: T, b: T, c: T)
    requires Connected(edges, a, b) && Connected(edges, b, c)
    ensures Connected(edges, a, c)
  {
    ReachTrans(Symmetric(edges), a, b, c);
  }

  lemma ConnectedPair<T(!new)>(edges: Relation<T>, a: T, b: T)
    requires (a, b) in edges
    ensures Connected(edges, a, b) && Connected(edges, b, a)
  {
    ReachEdge(Symmetric(edges), a, b);
    ConnectedSym(edges, a, b);
  }

  lemma ConnectedMono<T(!new)>(edges: Relation<T>, more: Relation<T>, a: T, b: T)
    requires edges <= more && Connected(edges, a, b)
    ensures Connected(more, a, b)
  {
    ReachMono(Symmetric(edges), Symmetric(more), a, b);
  }

  lemma {:induction false} WalkAgree<T(!new), K>(edges: Relation<T>, tag: map<T, K>, a: T, steps: seq<T>, b: T)
    requires forall e :: e in edges ==> e.0 in tag && e.1 in tag && tag[e.0] == tag[e.1]
    requires a in tag && Walk(Symmetric(edges), a, steps, b)
    ensures b in tag && tag[a] == tag[b]
    decreases |steps|
  {
    if steps != [] {
      WalkAgree(edges, tag, steps[0], steps[1..], b);
    }
  }

  /** A labelling constant on every pair is constant on every class. */
  lemma ConnectedAgree<T(!new), K>(edges: Relation<T>, tag: map<T, K>, a: T, b: T)
    requires forall e :: e in edges ==> e.0 in tag && e.1 in tag && tag[e.0] == tag[e.1]
    requires a in tag && Connected(edges, a, b)
    ensures b in tag && tag[a] == tag[b]
  {
    var steps :| Walk(Symmetric(edges), a, steps, b);
    WalkAgree(edges, tag, a, steps, b);
  }

  // ---- relations with one closure ----

  lemma {:induction false} WalkVia<T(!new)>(edges: Relation<T>, other: Relation<T>, a: T, steps: seq<T>, b: T)
    requires forall e :: e in edges ==> Connected(other, e.0, e.1)
    requires Walk(Symmetric(edges), a, steps, b)
    ensures Connected(other, a, b)
    decreases |steps|
  {
    if steps == [] {
      ReachRefl(Symmetric(other), a);
    } else {
      if (a, steps[0]) !in edges {
        SymmetricPair(edges, a, steps[0]);
        assert (steps[0], a) in edges;
        ConnectedSym(other, steps[0], a);
      }
      WalkVia(edges, other, steps[0], steps[1..], b);
      ConnectedTrans(other, a, steps[0], b);
    }
  }

  /** What connects the ends of every edge connects whatever the edges connect. */
  lemma ConnectedVia<T(!new)>(edges: Relation<T>, other: Relation<T>, a: T, b: T)
    requires forall e :: e in edges ==> Connected(other, e.0, e.1)
    requires Connected(edges, a, b)
    ensures Connected(other, a, b)
  {
    var steps :| Walk(Symmetric(edges), a, steps, b);
    WalkVia(edges, other, a, steps, b);
  }

  ghost predicate SameConnection<T(!new)>(edges: Relation<T>, other: Relation<T>, a: T, b: T) {
    Connected(edges, a, b) <==> Connected(other, a, b)
  }

  /** Both relations have one equivalence closure. */
  ghost predicate SameClasses<T(!new)>(edges: Relation<T>, other: Relation<T>) {
    forall a, b {:trigger SameConnection(edges, other, a, b)} :: SameConnection(edges, other, a, b)
  }

  lemma SameClassesIf<T(!new)>(edges: Relation<T>, other: Relation<T>)
    requires forall e :: e in edges ==> Connected(other, e.0, e.1)
    requires forall e :: e in other ==> Connected(edges, e.0, e.1)
    ensures SameClasses(edges, other)
  {
    forall a, b {:trigger SameConnection(edges, other, a, b)} ensures SameConnection(edges, other, a, b) {
      if Connected(edges, a, b) {
        ConnectedVia(edges, other, a, b);
      }
      if Connected(other, a, b) {
        ConnectedVia(other, edges, a, b);
      }
    }
  }

  /** One more pair may end at either of two nodes that are connected already. */
  lemma SameClassesSwap<T(!new)>(edges: Relation<T>, x: T, y: T, z: T)
    requires Connected(edges, z, y)
    ensures SameClasses(edges + {(x, y)}, edges + {(x, z)})
  {
    SwapOne(edges, x, y, z);
    ConnectedSym(edges, z, y);
    SwapOne(edges, x, z, y);
    SameClassesIf(edges + {(x, y)}, edges + {(x, z)});
  }

  lemma SwapOne<T(!new)>(edges: Relation<T>, x: T, y: T, z: T)
    requires Connected(edges, z, y)
    ensures forall e :: e in edges + {(x, y)} ==> Connected(edges + {(x, z)}, e.0, e.1)
  {
    var other := edges + {(x, z)};
    forall e | e in edges + {(x, y)} ensures Connected(other, e.0, e.1) {
      if e in edges {
        ConnectedPair(other, e.0, e.1);
      } else {
        ConnectedPair(other, x, z);
        ConnectedMono(edges, other, z, y);
        ConnectedTrans(other, x, z, y);
      }
    }
  }

  /** More pairs on both sides keep the closures alike. */
  lemma SameClassesUnion<T(!new)>(edges: Relation<T>, other: Relation<T>, more: Relation<T>)
    requires SameClasses(edges, other)
    ensures SameClasses(edges + more, other + more)
  {
    UnionInto(edges, other, more);
    assert SameClasses(other, edges) by {
      forall a, b {:trigger SameConnection(other, edges, a, b)} ensures SameConnection(other, edges, a, b) {
        assert SameConnection(edges, other, a, b);
      }
    }
    UnionInto(other, edges, more);
    SameClassesIf(edges + more, other + more);
  }

  lemma UnionInto<T(!new)>(edges: Relation<T>, other: Relation<T>, more: Relation<T>)
    requires SameClasses(edges, other)
    ensures forall e :: e in edges + more ==> Connected(other + more, e.0, e.1)
  {
    forall e | e in edges + more ensures Connected(other + more, e.0, e.1) {
      if e in more {
        ConnectedPair(other + more, e.0, e.1);
      } else {
        ConnectedPair(edges, e.0, e.1);
        assert SameConnection(edges, other, e.0, e.1);
        ConnectedMono(other, other + more, e.0, e.1);
      }
    }
  }

  lemma SameClassesTrans<T(!new)>(edges: Relation<T>, middle: Relation<T>, other: Relation<T>)
    requires SameClasses(edges, middle) && SameClasses(middle, other)
    ensures SameClasses(edges, other)
  {
    forall a, b {:trigger SameConnection(edges, other, a, b)} ensures SameConnection(edges, other, a, b) {
      assert SameConnection(edges, middle, a, b) && SameConnection(middle, other, a, b);
    }
  }
}
