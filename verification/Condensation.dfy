/** DirectedGraph::condense, and the sort of its result in LiveRangeAnalysis. */
module Condensation {
  import opened Paths
  import opened GraphLite
  import opened Tarjan
  import TopologicalOrder

  function Successors<P, E>(a: AdjList<P, E>): Digraph {
    map x | x in a :: a[x].outs.Keys
  }

  lemma SuccessorsAgree<P, E>(a: AdjList<P, E>)
    requires Consistent(a)
    ensures WellFormed(Successors(a)) && Edges(Successors(a)) == EdgeSet(a)
  {
    forall x, y | x in a && y in a[x].outs ensures y in a {
      assert HasOut(a, x, y) <==> HasIn(a, x, y);
    }
    SameEdges(a, Edges(Successors(a)));
  }

  /** The edges between two different members of `roots`. */
  ghost function Induced(edges: Relation<Node>, roots: set<Node>): Relation<Node> {
    set e | e in edges && e.0 in roots && e.1 in roots && e.0 != e.1
  }

  type Condensed<E> = Graph<set<Node>, E>

  /** What the outer loop of `condense` has built when the components in `done` are in. */
  ghost predicate Built<P, E>(a: AdjList<P, E>, components: Components, c: AdjList<set<Node>, E>, done: set<Node>) {
    && done <= components.Keys && c.Keys == done
    && (forall r :: r in done ==> c[r].prop == components[r])
    && (forall x, y :: HasOut(c, x, y) ==> HasOut(a, x, y) && c[x].outs[y] == a[x].outs[y])
  }

  /** One `add_edge_with_prop` with the property of the original edge. */
  lemma StillBuilt<P, E>(a: AdjList<P, E>, components: Components, c: AdjList<set<Node>, E>, c': AdjList<set<Node>, E>,
                         done: set<Node>, s: Node, t: Node)
    requires Built(a, components, c, done) && HasOut(a, s, t)
    requires c'.Keys == c.Keys && forall x :: x in c' ==> c'[x].prop == c[x].prop
    requires forall x :: x in c' && x != s ==> c'[x].outs == c[x].outs
    requires s in c' ==> c'[s].outs == c[s].outs || c'[s].outs == c[s].outs[t := a[s].outs[t]]
    ensures Built(a, components, c', done)
  {
    forall x, y | HasOut(c', x, y)
      ensures HasOut(a, x, y) && c'[x].outs[y] == a[x].outs[y]
    {
      assert HasOut(c, x, y) || (x, y) == (s, t);
    }
  }

  /** The edges at `root` whose other end is in `ends`, a node already there, and in another component. */
  ghost function CrossIn(edges: Relation<Node>, component: set<Node>, root: Node, done: set<Node>,
          ends: set<Node>): Relation<Node>
  {
    set e | e in edges && e.1 == root && e.0 in done && e.0 in ends && e.0 !in component
  }

  ghost function CrossOut(edges: Relation<Node>, component: set<Node>, root: Node, done: set<Node>,
          ends: set<Node>): Relation<Node>
  {
    set e | e in edges && e.0 == root && e.1 in done && e.1 in ends && e.1 !in component
  }

  lemma CrossInStep(edges: Relation<Node>, component: set<Node>, root: Node, done: set<Node>, ends: set<Node>,
          source: Node)
    requires (source, root) in edges
    ensures CrossIn(edges, component, root, done, ends + {source})
         == if source in done && source !in component
             then CrossIn(edges, component, root, done, ends) + {(source, root)}
            else CrossIn(edges, component, root, done, ends)
  {
    assert forall e: (Node, Node) :: e == (e.0, e.1);
  }

  lemma CrossOutStep(edges: Relation<Node>, component: set<Node>, root: Node, done: set<Node>, ends: set<Node>,
          target: Node)
    requires (root, target) in edges
    ensures CrossOut(edges, component, root, done, ends + {target})
         == if target in done && target !in component
             then CrossOut(edges, component, root, done, ends) + {(root, target)}
            else CrossOut(edges, component, root, done, ends)
  {
    assert forall e: (Node, Node) :: e == (e.0, e.1);
  }

  lemma UnionAssoc<T>(a: set<T>, b: set<T>, c: set<T>)
    ensures (a + b) + c == a + (b + c)
  {
  }

  lemma MoveOne<T>(seen: set<T>, todo: set<T>, x: T)
    requires x in todo
    ensures (seen + {x}) + (todo - {x}) == seen + todo
  {
  }

  /** One edge is tried; it is dropped unless both ends are nodes already. */
  method TryEdge<P, E>(a: AdjList<P, E>, c: Condensed<E>, components: Components, s: Node, t: Node,
          ghost done: set<Node>)
    requires HasOut(a, s, t) && c.Valid() && Built(a, components, c.adjList, done)
    modifies c
    ensures c.Valid() && Built(a, components, c.adjList, done)
    ensures EdgeSet(c.adjList) == if s in done && t in done then old(EdgeSet(c.adjList)) + {(s, t)}
        else old(EdgeSet(c.adjList))
  {
    ghost var c0 := c.adjList;
    var _ := c.AddEdge(s, t, a[s].outs[t]);
    StillBuilt(a, components, c0, c.adjList, done, s, t);
  }

  /** Each edge into `root` is tried as `in -> root`. */
  method AddIncoming<P, E>(a: AdjList<P, E>, c: Condensed<E>, components: Components, root: Node, ghost done: set<Node>)
    requires Consistent(a) && c.Valid() && root in components && root in a
    requires Built(a, components, c.adjList, done) && root in done
    modifies c
    ensures c.Valid() && Built(a, components, c.adjList, done)
    ensures EdgeSet(c.adjList)
        == old(EdgeSet(c.adjList)) + CrossIn(EdgeSet(a), components[root], root, done, a[root].ins.Keys)
  {
    var todo := a[root].ins.Keys;
    ghost var seen: set<Node> := {};
    assert seen + todo == todo;
    while todo != {}
      invariant seen + todo == a[root].ins.Keys
      invariant c.Valid() && Built(a, components, c.adjList, done)
      invariant EdgeSet(c.adjList) == old(EdgeSet(c.adjList)) + CrossIn(EdgeSet(a), components[root], root, done, seen)
    {
      var source :| source in todo;
      assert HasIn(a, source, root) && HasOut(a, source, root);
      CrossInStep(EdgeSet(a), components[root], root, done, seen, source);
      UnionAssoc(old(EdgeSet(c.adjList)), CrossIn(EdgeSet(a), components[root], root, done, seen), {(source, root)});
      MoveOne(seen, todo, source);
      if source !in components[root] {
        TryEdge(a, c, components, source, root, done);
      }
      todo := todo - {source};
      seen := seen + {source};
    }
  }

  /** Each edge out of `root` is tried as `root -> out`. */
  method AddOutgoing<P, E>(a: AdjList<P, E>, c: Condensed<E>, components: Components, root: Node, ghost done: set<Node>)
    requires Consistent(a) && c.Valid() && root in components && root in a
    requires Built(a, components, c.adjList, done) && root in done
    modifies c
    ensures c.Valid() && Built(a, components, c.adjList, done)
    ensures EdgeSet(c.adjList)
        == old(EdgeSet(c.adjList)) + CrossOut(EdgeSet(a), components[root], root, done, a[root].outs.Keys)
  {
    var todo := a[root].outs.Keys;
    ghost var seen: set<Node> := {};
    assert seen + todo == todo;
    while todo != {}
      invariant seen + todo == a[root].outs.Keys
      invariant c.Valid() && Built(a, components, c.adjList, done)
      invariant EdgeSet(c.adjList) == old(EdgeSet(c.adjList)) + CrossOut(EdgeSet(a), components[root], root, done, seen)
    {
      var target :| target in todo;
      assert HasOut(a, root, target);
      CrossOutStep(EdgeSet(a), components[root], root, done, seen, target);
      UnionAssoc(old(EdgeSet(c.adjList)), CrossOut(EdgeSet(a), components[root], root, done, seen), {(root, target)});
      MoveOne(seen, todo, target);
      if target !in components[root] {
        TryEdge(a, c, components, root, target, done);
      }
      todo := todo - {target};
      seen := seen + {target};
    }
  }

  /** The node of one component comes in, with whatever edges it has to the nodes that are there. */
  lemma InducedStep<P, E>(a: AdjList<P, E>, components: Components, done: set<Node>, root: Node)
    requires Consistent(a) && AreSccs(Successors(a), components) && done <= components.Keys
    requires root in components && root in a && root !in done
    ensures Induced(EdgeSet(a), done + {root}) == Induced(EdgeSet(a), done)
      + CrossIn(EdgeSet(a), components[root], root, done + {root}, a[root].ins.Keys)
      + CrossOut(EdgeSet(a), components[root], root, done + {root}, a[root].outs.Keys)
  {
    forall r | r in done ensures r !in components[root] {
      assert r in components[r];
    }
    forall e | e in EdgeSet(a)
      ensures e.1 == root ==> e.0 in a[root].ins
      ensures e.0 == root ==> e.1 in a[root].outs
    {
      assert e == (e.0, e.1) && HasOut(a, e.0, e.1) && HasIn(a, e.0, e.1);
    }
  }

  method Condense<P, E>(graph: Graph<P, E>) returns (c: Condensed<E>, ghost components: Components)
    requires graph.Valid()
    ensures fresh(c) && c.Valid()
    ensures AreSccs(Successors(graph.adjList), components) && Covers(components, graph.adjList.Keys)
    ensures Built(graph.adjList, components, c.adjList, components.Keys)
    ensures EdgeSet(c.adjList) == Induced(EdgeSet(graph.adjList), components.Keys)
  {
    var a := graph.adjList;
    SuccessorsAgree(a);
    var sccs := TarjanScc(Successors(a));
    c := new Graph();
    var todo := sccs.Keys;
    ghost var done: set<Node> := {};
    while todo != {}
      invariant done + todo == sccs.Keys && done !! todo
      invariant fresh(c) && c.Valid() && Built(a, sccs, c.adjList, done)
      invariant EdgeSet(c.adjList) == Induced(EdgeSet(a), done)
    {
      var root :| root in todo;
      assert Covered(sccs, root);
      AddComponent(a, c, sccs, root, done);
      MoveOne(done, todo, root);
      todo := todo - {root};
      done := done + {root};
    }
    components := sccs;
  }

  method AddComponent<P, E>(a: AdjList<P, E>, c: Condensed<E>, components: Components, root: Node,
          ghost done: set<Node>)
    requires Consistent(a) && AreSccs(Successors(a), components) && root in components && root in a && root !in done
    requires c.Valid() && Built(a, components, c.adjList, done)
    requires EdgeSet(c.adjList) == Induced(EdgeSet(a), done)
    modifies c
    ensures c.Valid() && Built(a, components, c.adjList, done + {root})
    ensures EdgeSet(c.adjList) == Induced(EdgeSet(a), done + {root})
  {
    ghost var c0 := c.adjList;
    var _ := c.AddNode(root, components[root]);
    NodeBuilt(a, components, c0, done, root);
    InducedStep(a, components, done, root);
    AddIncoming(a, c, components, root, done + {root});
    AddOutgoing(a, c, components, root, done + {root});
  }

  lemma NodeBuilt<P, E>(a: AdjList<P, E>, components: Components, c: AdjList<set<Node>, E>, done: set<Node>, root: Node)
    requires Built(a, components, c, done) && root in components && root !in done
    ensures Built(a, components, c[root := Adjacency(components[root], map[], map[])], done + {root})
  {
    var c' := c[root := Adjacency(components[root], map[], map[])];
    forall x, y | HasOut(c', x, y)
      ensures HasOut(a, x, y) && c'[x].outs[y] == a[x].outs[y]
    {
      assert HasOut(c, x, y);
    }
  }

  lemma RootsApart(g: Digraph, components: Components, r: Node, s: Node)
    requires AreSccs(g, components) && r in components && s in components && Mutual(g, r, s)
    ensures r == s
  {
    assert s in components[r] && s in components[s];
  }

  /** Two roots on a common cycle would be one component. */
  lemma InducedIsAcyclic(g: Digraph, components: Components)
    requires AreSccs(g, components)
    ensures Acyclic(Induced(Edges(g), components.Keys))
  {
    var c := Induced(Edges(g), components.Keys);
    forall a ensures !ReachPlus(c, a, a) {
      if ReachPlus(c, a, a) {
        var b :| (a, b) in c && Reach(c, b, a);
        ReachMono(c, Edges(g), b, a);
        ReachEdge(Edges(g), a, b);
        RootsApart(g, components, a, b);
      }
    }
  }

  /**
    The start of LiveRangeAnalysisDriver::evaluate: the order of the condensation is
    dereferenced without a check, and always has a value.
   */
  method SortCondensation<P, E>(graph: Graph<P, E>) returns (c: Condensed<E>, order: seq<Node>)
    requires graph.Valid()
    ensures c.Valid() && TopologicalOrder.IsTopological(Successors(c.adjList), order)
  {
    ghost var components;
    c, components := Condense(graph);
    SuccessorsAgree(graph.adjList);
    SuccessorsAgree(c.adjList);
    InducedIsAcyclic(Successors(graph.adjList), components);
    var sorted := TopologicalOrder.Sort(Successors(c.adjList));
    order := sorted.value;
  }

  // ---- which reachability the condensation keeps ----

  /** Whatever reaches in the graph reaches between the roots of the condensation. */
  ghost predicate KeepsReach(g: Digraph, components: Components) {
    forall u, v, ru, rv ::
      ru in components && rv in components && u in components[ru] && v in components[rv] && Reach(Edges(g), u, v)
      ==> Reach(Induced(Edges(g), components.Keys), ru, rv)
  }

  /** Every single edge between two components has a path between their roots, through roots only. */
  ghost predicate EdgesHaveRootPaths(g: Digraph, components: Components) {
    forall u, v, ru, rv ::
      ru in components && rv in components && u in components[ru] && v in components[rv] && (u, v) in Edges(g)
      ==> Reach(Induced(Edges(g), components.Keys), ru, rv)
  }

  lemma {:induction false} RootPathOfWalk(g: Digraph, components: Components, u: Node, steps: seq<Node>, v: Node,
          ru: Node, rv: Node)
    requires WellFormed(g) && AreSccs(g, components) && Covers(components, g.Keys) && EdgesHaveRootPaths(g, components)
    requires ru in components && rv in components && u in components[ru] && v in components[rv]
    requires Walk(Edges(g), u, steps, v)
    ensures Reach(Induced(Edges(g), components.Keys), ru, rv)
    decreases |steps|
  {
    var c := Induced(Edges(g), components.Keys);
    if steps == [] {
      ReachRefl(c, ru);
    } else {
      EdgeIn(g, u, steps[0]);
      assert Covered(components, steps[0]);
      var rw :| rw in components && steps[0] in components[rw];
      RootPathOfWalk(g, components, steps[0], steps[1..], v, rw, rv);
      ReachTrans(c, ru, rw, rv);
    }
  }

  /** The condensation keeps reachability exactly when every edge between components has a path through roots. */
  lemma KeepsReachIff(g: Digraph, components: Components)
    requires WellFormed(g) && AreSccs(g, components) && Covers(components, g.Keys)
    ensures KeepsReach(g, components) <==> EdgesHaveRootPaths(g, components)
  {
    if EdgesHaveRootPaths(g, components) {
      forall u, v, ru, rv | ru in components && rv in components && u in components[ru] && v in components[rv] &&
          Reach(Edges(g), u, v)
        ensures Reach(Induced(Edges(g), components.Keys), ru, rv)
      {
        var steps :| Walk(Edges(g), u, steps, v);
        RootPathOfWalk(g, components, u, steps, v, ru, rv);
      }
    }
    if KeepsReach(g, components) {
      forall u, v, ru, rv | ru in components && rv in components && u in components[ru] && v in components[rv] &&
          (u, v) in Edges(g)
        ensures Reach(Induced(Edges(g), components.Keys), ru, rv)
      {
        ReachEdge(Edges(g), u, v);
      }
    }
  }

  // A two-node cycle rooted at node 1, whose other node has the only edge out.

  ghost const LOSSY: Digraph := map[Node(1) := {Node(2)}, Node(2) := {Node(1), Node(3)}, Node(3) := {}]

  ghost const LOSSY_SCCS: Components := map[Node(1) := {Node(1), Node(2)}, Node(3) := {Node(3)}]

  lemma LossyReach()
    ensures Reach(Edges(LOSSY), Node(1), Node(3))
    ensures Mutual(LOSSY, Node(1), Node(1)) && Mutual(LOSSY, Node(1), Node(2)) && Mutual(LOSSY, Node(3), Node(3))
    ensures Closed(Edges(LOSSY), {Node(3)}) && Closed(Edges(LOSSY), LOSSY.Keys)
  {
    var e := Edges(LOSSY);
    assert forall x, y :: (x, y) in e <==> x in LOSSY && y in LOSSY[x];
    ReachEdge(e, Node(1), Node(2));
    ReachEdge(e, Node(2), Node(1));
    ReachEdge(e, Node(2), Node(3));
    ReachCons(e, Node(1), Node(2), Node(3));
    ReachRefl(e, Node(1));
    ReachRefl(e, Node(3));
  }

  lemma LossySccs()
    ensures WellFormed(LOSSY) && AreSccs(LOSSY, LOSSY_SCCS) && Covers(LOSSY_SCCS, LOSSY.Keys)
    ensures Reach(Edges(LOSSY), Node(1), Node(3))
  {
    LossyReach();
    forall r, z | r in LOSSY_SCCS && Mutual(LOSSY, r, z) ensures z in LOSSY_SCCS[r] {
      ReachClosed(Edges(LOSSY), LOSSY.Keys, r, z);
      if r == Node(3) {
        ReachClosed(Edges(LOSSY), {Node(3)}, r, z);
      } else if z == Node(3) {
        ReachClosed(Edges(LOSSY), {Node(3)}, z, r);
      }
    }
    forall x {:trigger Covered(LOSSY_SCCS, x)} ensures Covered(LOSSY_SCCS, x) <==> x in LOSSY {
      assert x in LOSSY_SCCS[Node(1)] || x in LOSSY_SCCS[Node(3)] <==> x in LOSSY;
    }
  }

  /** The condensation does not keep all reachability: node 1 no longer reaches node 3. */
  lemma LosesReach()
    ensures WellFormed(LOSSY) && AreSccs(LOSSY, LOSSY_SCCS) && Covers(LOSSY_SCCS, LOSSY.Keys)
    ensures !KeepsReach(LOSSY, LOSSY_SCCS)
  {
    LossySccs();
    var c := Induced(Edges(LOSSY), LOSSY_SCCS.Keys);
    assert Node(1) in LOSSY_SCCS[Node(1)] && Node(3) in LOSSY_SCCS[Node(3)];
    assert Closed(c, {Node(1)});
    if Reach(c, Node(1), Node(3)) {
      ReachClosed(c, {Node(1)}, Node(1), Node(3));
    }
  }
}
