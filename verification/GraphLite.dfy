/** The graph of graph_lite as DirectedGraph uses it: directed, with self-loops, every edge stored twice. */
module GraphLite {
  import opened Paths

  /** Nodes are compared and hashed, never looked into: an address will do. */
  datatype Node = Node(address: int)

  datatype Adjacency<P, E> = Adjacency(prop: P, outs: map<Node, E>, ins: map<Node, E>)

  type AdjList<P, E> = map<Node, Adjacency<P, E>>

  ghost function EdgeSet<P, E>(a: AdjList<P, E>): Relation<Node> {
    set x, y | x in a && y in a[x].outs :: (x, y)
  }

  ghost predicate HasOut<P, E>(a: AdjList<P, E>, x: Node, y: Node) {
    x in a && y in a[x].outs
  }

  ghost predicate HasIn<P, E>(a: AdjList<P, E>, x: Node, y: Node) {
    y in a && x in a[y].ins
  }

  /** Both copies of every edge are there, and carry the same property. */
  ghost predicate Consistent<P, E>(a: AdjList<P, E>) {
    forall x, y ::
      && (HasOut(a, x, y) <==> HasIn(a, x, y))
      && (HasOut(a, x, y) ==> a[x].outs[y] == a[y].ins[x])
  }

  /** The pairs with `n` at either end. */
  ghost function Incident<P, E>(a: AdjList<P, E>, n: Node): Relation<Node>
    requires n in a
  {
    (set y | y in a[n].outs :: (n, y)) + (set x | x in a[n].ins :: (x, n))
  }

  /** What is left of `a` when `n` and every edge at `n` are gone. */
  ghost function WithoutNode<P, E>(a: AdjList<P, E>, n: Node): AdjList<P, E> {
    map x | x in a && x != n :: Adjacency(a[x].prop, a[x].outs - {n}, a[x].ins - {n})
  }

  function PurgeIns<P, E>(a: AdjList<P, E>, n: Node, done: set<Node>): AdjList<P, E> {
    map x | x in a :: if x != n && x in done then a[x].(ins := a[x].ins - {n}) else a[x]
  }

  function PurgeOuts<P, E>(a: AdjList<P, E>, n: Node, done: set<Node>): AdjList<P, E> {
    map x | x in a :: if x != n && x in done then a[x].(outs := a[x].outs - {n}) else a[x]
  }

  lemma {:induction false} RowSize(n: Node, row: set<Node>)
    ensures |set y | y in row :: (n, y)| == |row|
  {
    if row != {} {
      var y :| y in row;
      RowSize(n, row - {y});
      assert (set z | z in row :: (n, z)) == (set z | z in row - {y} :: (n, z)) + {(n, y)};
    }
  }

  lemma {:induction false} ColumnSize(n: Node, column: set<Node>)
    ensures |set x | x in column :: (x, n)| == |column|
  {
    if column != {} {
      var x :| x in column;
      ColumnSize(n, column - {x});
      assert (set z | z in column :: (z, n)) == (set z | z in column - {x} :: (z, n)) + {(x, n)};
    }
  }

  /** Why `remove_nodes` subtracts the self-loop once: it is in both rows. */
  lemma IncidentSize<P, E>(a: AdjList<P, E>, n: Node)
    requires Consistent(a) && n in a
    ensures Incident(a, n) <= EdgeSet(a)
    ensures |Incident(a, n)| == |a[n].outs| + |a[n].ins| - (if n in a[n].outs then 1 else 0)
  {
    var row := set y | y in a[n].outs :: (n, y);
    var column := set x | x in a[n].ins :: (x, n);
    RowSize(n, a[n].outs.Keys);
    ColumnSize(n, a[n].ins.Keys);
    assert row == set y | y in a[n].outs.Keys :: (n, y);
    assert column == set x | x in a[n].ins.Keys :: (x, n);
    assert HasOut(a, n, n) <==> HasIn(a, n, n);
    assert row * column == if n in a[n].outs then {(n, n)} else {};
    assert |row + column| + |row * column| == |row| + |column|;
    forall e | e in Incident(a, n) ensures e in EdgeSet(a) {
      assert HasIn(a, e.0, e.1) || HasOut(a, e.0, e.1);
      assert HasOut(a, e.0, e.1);
    }
  }

  lemma WithoutNodeEdges<P, E>(a: AdjList<P, E>, n: Node)
    requires Consistent(a) && n in a
    ensures Consistent(WithoutNode(a, n))
    ensures EdgeSet(WithoutNode(a, n)) == EdgeSet(a) - Incident(a, n)
  {
    var b := WithoutNode(a, n);
    forall x, y ensures HasOut(b, x, y) <==> HasOut(a, x, y) && x != n && y != n
                ensures HasIn(b, x, y) <==> HasIn(a, x, y) && x != n && y != n {
      assert HasOut(a, x, y) <==> HasIn(a, x, y);
    }
    forall x, y ensures HasOut(b, x, y) <==> (x, y) in EdgeSet(a) - Incident(a, n) {
      assert (x, y) in EdgeSet(a) <==> HasOut(a, x, y);
      assert HasOut(a, x, y) <==> HasIn(a, x, y);
    }
    SameEdges(b, EdgeSet(a) - Incident(a, n));
  }

  /** `a` with the edge from `s` to `t` entered in both rows. */
  ghost function WithEdge<P, E>(a: AdjList<P, E>, s: Node, t: Node, prop: E): AdjList<P, E> {
    map x | x in a :: Adjacency(a[x].prop,
                                if x == s then a[x].outs[t := prop] else a[x].outs,
                                if x == t then a[x].ins[s := prop] else a[x].ins)
  }

  /** `a` with the edge from `s` to `t` struck from both rows. */
  ghost function WithoutEdge<P, E>(a: AdjList<P, E>, s: Node, t: Node): AdjList<P, E> {
    map x | x in a :: Adjacency(a[x].prop,
                                if x == s then a[x].outs - {t} else a[x].outs,
                                if x == t then a[x].ins - {s} else a[x].ins)
  }

  /** Two adjacency lists have the edge sets that their rows say. */
  lemma SameEdges<P, E>(a: AdjList<P, E>, edges: Relation<Node>)
    requires forall x, y :: HasOut(a, x, y) <==> (x, y) in edges
    ensures EdgeSet(a) == edges
  {
    forall e ensures e in EdgeSet(a) <==> e in edges {
      assert e == (e.0, e.1);
      assert e in EdgeSet(a) <==> HasOut(a, e.0, e.1);
    }
  }

  lemma WithEdgeEdges<P, E>(a: AdjList<P, E>, s: Node, t: Node, prop: E)
    requires Consistent(a) && s in a && t in a
    ensures Consistent(WithEdge(a, s, t, prop))
    ensures EdgeSet(WithEdge(a, s, t, prop)) == EdgeSet(a) + {(s, t)}
  {
    var b := WithEdge(a, s, t, prop);
    forall x, y ensures HasOut(b, x, y) <==> HasOut(a, x, y) || (x, y) == (s, t)
                ensures HasIn(b, x, y) <==> HasIn(a, x, y) || (x, y) == (s, t)
                ensures HasOut(b, x, y) ==> b[x].outs[y] == b[y].ins[x] {
      assert HasOut(a, x, y) <==> HasIn(a, x, y);
    }
    forall x, y ensures HasOut(b, x, y) <==> (x, y) in EdgeSet(a) + {(s, t)} {
      assert (x, y) in EdgeSet(a) <==> HasOut(a, x, y);
    }
    SameEdges(b, EdgeSet(a) + {(s, t)});
  }

  lemma WithoutEdgeEdges<P, E>(a: AdjList<P, E>, s: Node, t: Node)
    requires Consistent(a)
    ensures Consistent(WithoutEdge(a, s, t))
    ensures EdgeSet(WithoutEdge(a, s, t)) == EdgeSet(a) - {(s, t)}
  {
    var b := WithoutEdge(a, s, t);
    forall x, y ensures HasOut(b, x, y) <==> HasOut(a, x, y) && (x, y) != (s, t)
                ensures HasIn(b, x, y) <==> HasIn(a, x, y) && (x, y) != (s, t)
                ensures HasOut(b, x, y) ==> b[x].outs[y] == b[y].ins[x] {
      assert HasOut(a, x, y) <==> HasIn(a, x, y);
    }
    forall x, y ensures HasOut(b, x, y) <==> (x, y) in EdgeSet(a) - {(s, t)} {
      assert (x, y) in EdgeSet(a) <==> HasOut(a, x, y);
    }
    SameEdges(b, EdgeSet(a) - {(s, t)});
  }

  lemma EdgesAwayFrom<P, E>(a: AdjList<P, E>, n: Node)
    requires Consistent(a)
    ensures n in a ==> EdgeSet(a) - Incident(a, n) == set e | e in EdgeSet(a) && e.0 != n && e.1 != n
    ensures n !in a ==> EdgeSet(a) == set e | e in EdgeSet(a) && e.0 != n && e.1 != n
  {
    forall e | e in EdgeSet(a)
      ensures n !in a ==> e.0 != n && e.1 != n
      ensures n in a ==> (e !in Incident(a, n) <==> e.0 != n && e.1 != n)
    {
      assert e == (e.0, e.1);
      assert HasOut(a, e.0, e.1) && HasIn(a, e.0, e.1);
    }
  }

  /** What purging leaves of one other node. */
  lemma PurgedNode<P, E>(a: AdjList<P, E>, n: Node, x: Node)
    requires Consistent(a) && n in a && x in a && x != n
    ensures PurgeOuts(PurgeIns(a, n, a[n].outs.Keys), n, a[n].ins.Keys)[x] == WithoutNode(a, n)[x]
  {
    assert HasOut(a, n, x) <==> HasIn(a, n, x);
    assert HasOut(a, x, n) <==> HasIn(a, x, n);
    if n !in a[x].ins {
      assert a[x].ins - {n} == a[x].ins;
    }
    if n !in a[x].outs {
      assert a[x].outs - {n} == a[x].outs;
    }
  }

  lemma PurgedIsWithoutNode<P, E>(a: AdjList<P, E>, n: Node)
    requires Consistent(a) && n in a
    ensures PurgeOuts(PurgeIns(a, n, a[n].outs.Keys), n, a[n].ins.Keys) - {n} == WithoutNode(a, n)
  {
    var purged, without := PurgeOuts(PurgeIns(a, n, a[n].outs.Keys), n, a[n].ins.Keys), WithoutNode(a, n);
    forall x | x in a && x != n ensures purged[x] == without[x] {
      PurgedNode(a, n, x);
    }
    assert (purged - {n}).Keys == without.Keys;
  }

  /** The sum of the out-degrees of the nodes in `from`. */
  ghost function OutDegrees<P, E>(a: AdjList<P, E>, from: set<Node>): nat
    requires from <= a.Keys
    decreases |from|
  {
    if from == {} then 0
    else
      var x :| x in from;
      |a[x].outs| + OutDegrees(a, from - {x})
  }

  /** The edges out of the nodes in `from`. */
  ghost function Rows<P, E>(a: AdjList<P, E>, from: set<Node>): Relation<Node> {
    set x, y | x in from && x in a && y in a[x].outs :: (x, y)
  }

  lemma RowsStep<P, E>(a: AdjList<P, E>, from: set<Node>, n: Node)
    requires n in from && n in a
    ensures |Rows(a, from)| == |a[n].outs| + |Rows(a, from - {n})|
  {
    RowSize(n, a[n].outs.Keys);
    var row := set y | y in a[n].outs.Keys :: (n, y);
    assert Rows(a, from) == row + Rows(a, from - {n});
    assert row !! Rows(a, from - {n});
  }

  lemma {:induction false} OutDegreesCount<P, E>(a: AdjList<P, E>, from: set<Node>)
    requires from <= a.Keys
    ensures OutDegrees(a, from) == |Rows(a, from)|
    decreases |from|
  {
    if from == {} {
      assert Rows(a, from) == {};
    } else {
      var n :| n in from && OutDegrees(a, from) == |a[n].outs| + OutDegrees(a, from - {n});
      OutDegreesCount(a, from - {n});
      RowsStep(a, from, n);
    }
  }

  /** `num_of_edges` of a valid graph is the total out-degree of its nodes. */
  lemma EdgesAreTotalOutDegree<P, E>(a: AdjList<P, E>)
    ensures OutDegrees(a, a.Keys) == |EdgeSet(a)|
  {
    OutDegreesCount(a, a.Keys);
    assert EdgeSet(a) == Rows(a, a.Keys);
  }

  // ---- the plain graph that the adjacency lists stand for ----

  datatype Plain = Plain(nodes: set<Node>, edges: Relation<Node>)

  datatype Op<P, E> =
    | AddNodeOp(n: Node, nodeProp: P)
    | AddEdgeOp(s: Node, t: Node, edgeProp: E)
    | RemoveEdgeOp(s: Node, t: Node)
    | RemoveNodeOp(n: Node)

  ghost function Apply<P, E>(g: Plain, op: Op<P, E>): Plain {
    match op
    case AddNodeOp(n, _) => Plain(g.nodes + {n}, g.edges)
    case AddEdgeOp(s, t, _) => if s in g.nodes && t in g.nodes then Plain(g.nodes, g.edges + {(s, t)}) else g
    case RemoveEdgeOp(s, t) => Plain(g.nodes, g.edges - {(s, t)})
    case RemoveNodeOp(n) => Plain(g.nodes - {n}, set e | e in g.edges && e.0 != n && e.1 != n)
  }

  lemma RemovedView<P, E>(a: AdjList<P, E>, n: Node)
    requires Consistent(a)
    ensures Apply<P, E>(Plain(a.Keys, EdgeSet(a)), RemoveNodeOp(n))
         == if n in a then Plain(WithoutNode(a, n).Keys, EdgeSet(a) - Incident(a, n)) else Plain(a.Keys, EdgeSet(a))
  {
    EdgesAwayFrom(a, n);
    assert n in a ==> WithoutNode(a, n).Keys == a.Keys - {n};
  }

  ghost function ApplyAll<P, E>(g: Plain, ops: seq<Op<P, E>>): Plain {
    if ops == [] then g else Apply(ApplyAll(g, ops[..|ops| - 1]), ops[|ops| - 1])
  }

  class Graph<P, E> {
    var adjList: AdjList<P, E>
    var numOfEdges: int

    /** What every sequence of operations keeps. */
    ghost predicate Valid()
      reads this
    {
      Consistent(adjList) && numOfEdges == |EdgeSet(adjList)|
    }

    constructor ()
      ensures Valid() && adjList == map[]
    {
      adjList := map[];
      numOfEdges := 0;
      new;
      assert EdgeSet(adjList) == {};
    }

    method AddNode(n: Node, prop: P) returns (added: int)
      requires Valid()
      modifies this
      ensures Valid()
      ensures added == if n in old(adjList) then 0 else 1
      ensures adjList == if n in old(adjList) then old(adjList) else old(adjList)[n := Adjacency(prop, map[], map[])]
      ensures EdgeSet(adjList) == old(EdgeSet(adjList))
    {
      if n !in adjList {
        ghost var before := adjList;
        adjList := adjList[n := Adjacency(prop, map[], map[])];
        forall x, y ensures HasOut(adjList, x, y) <==> (x, y) in EdgeSet(before)
                    ensures HasIn(adjList, x, y) <==> HasIn(before, x, y) {
          assert (x, y) in EdgeSet(before) <==> HasOut(before, x, y);
          assert HasOut(before, x, y) <==> HasIn(before, x, y);
        }
        SameEdges(adjList, EdgeSet(before));
        return 1;
      }
      return 0;
    }

    /** An edge that is there already, or has an absent end, is dropped. */
    method AddEdge(source: Node, target: Node, prop: E) returns (added: int)
      requires Valid()
      modifies this
      ensures Valid()
      ensures added == if source in old(adjList) && target in old(adjList) &&
          (source, target) !in old(EdgeSet(adjList)) then 1 else 0
      ensures EdgeSet(adjList) == if added == 1 then old(EdgeSet(adjList)) + {(source, target)}
          else old(EdgeSet(adjList))
      ensures added == 0 ==> adjList == old(adjList)
      ensures added == 1 ==> adjList[source].outs == old(adjList[source].outs)[target := prop]
      ensures adjList.Keys == old(adjList.Keys)
      ensures forall x :: x in adjList ==> adjList[x].prop == old(adjList)[x].prop
      ensures forall x :: x in adjList && x != source ==> adjList[x].outs == old(adjList)[x].outs
    {
      if source !in adjList || target !in adjList {
        return 0;
      }
      if target in adjList[source].outs {
        return 0;
      }
      ghost var before := adjList;
      adjList := adjList[source := adjList[source].(outs := adjList[source].outs[target := prop])];
      adjList := adjList[target := adjList[target].(ins := adjList[target].ins[source := prop])];
      numOfEdges := numOfEdges + 1;
      assert adjList == WithEdge(before, source, target, prop);
      WithEdgeEdges(before, source, target, prop);
      return 1;
    }

    /** Removal through a pair of valid iterators. */
    method RemoveEdge(source: Node, target: Node)
      requires Valid()
      requires (source, target) in EdgeSet(adjList)
      modifies this
      ensures Valid()
      ensures adjList == WithoutEdge(old(adjList), source, target)
      ensures EdgeSet(adjList) == old(EdgeSet(adjList)) - {(source, target)}
    {
      assert HasOut(adjList, source, target) && HasIn(adjList, source, target);
      ghost var before := adjList;
      adjList := adjList[source := adjList[source].(outs := adjList[source].outs - {target})];
      adjList := adjList[target := adjList[target].(ins := adjList[target].ins - {source})];
      numOfEdges := numOfEdges - 1;
      assert adjList == WithoutEdge(before, source, target);
      WithoutEdgeEdges(before, source, target);
    }

    /**
      Removal by value goes through the iterator overload and then decrements
      once more: the adjacency stays consistent, and the count is off by one
      exactly when an edge was removed.
     */
    method RemoveEdgeByValue(source: Node, target: Node) returns (removed: int)
      requires Valid()
      modifies this
      ensures Consistent(adjList)
      ensures adjList == if removed == 1 then WithoutEdge(old(adjList), source, target) else old(adjList)
      ensures removed == if (source, target) in old(EdgeSet(adjList)) then 1 else 0
      ensures EdgeSet(adjList) == old(EdgeSet(adjList)) - {(source, target)}
      ensures numOfEdges == |EdgeSet(adjList)| - removed
      ensures Valid() <==> (source, target) !in old(EdgeSet(adjList))
    {
      if source !in adjList || target !in adjList {
        assert HasOut(adjList, source, target) <==> HasIn(adjList, source, target);
        return 0;
      }
      if target !in adjList[source].outs {
        return 0;
      }
      RemoveEdge(source, target);
      numOfEdges := numOfEdges - 1;
      return 1;
    }

    /** Drops `n` from the in-neighbours of each of its out-neighbours. */
    method PurgeOutgoing(n: Node)
      requires n in adjList && Consistent(adjList)
      modifies this`adjList
      ensures adjList == PurgeIns(old(adjList), n, old(adjList[n].outs.Keys))
    {
      var neighbors := adjList[n].outs.Keys;
      var todo := neighbors;
      assert adjList == PurgeIns(adjList, n, {});
      while todo != {}
        invariant todo <= neighbors
        invariant adjList == PurgeIns(old(adjList), n, neighbors - todo)
      {
        var y :| y in todo;
        assert HasOut(old(adjList), n, y) && HasIn(old(adjList), n, y);
        if y != n {
          adjList := adjList[y := adjList[y].(ins := adjList[y].ins - {n})];
        }
        assert neighbors - (todo - {y}) == (neighbors - todo) + {y};
        todo := todo - {y};
      }
      assert neighbors - todo == neighbors;
    }

    /** Drops `n` from the out-neighbours of each of its in-neighbours. */
    method PurgeIncoming(n: Node)
      requires n in adjList && forall x :: x in adjList[n].ins ==> x in adjList
      modifies this`adjList
      ensures adjList == PurgeOuts(old(adjList), n, old(adjList[n].ins.Keys))
    {
      var neighbors := adjList[n].ins.Keys;
      var todo := neighbors;
      assert adjList == PurgeOuts(adjList, n, {});
      while todo != {}
        invariant todo <= neighbors
        invariant adjList == PurgeOuts(old(adjList), n, neighbors - todo)
      {
        var x :| x in todo;
        if x != n {
          adjList := adjList[x := adjList[x].(outs := adjList[x].outs - {n})];
        }
        assert neighbors - (todo - {x}) == (neighbors - todo) + {x};
        todo := todo - {x};
      }
      assert neighbors - todo == neighbors;
    }

    method RemoveNode(n: Node) returns (removed: int)
      requires Valid()
      modifies this
      ensures Valid()
      ensures removed == if n in old(adjList) then 1 else 0
      ensures n !in old(adjList) ==> adjList == old(adjList)
      ensures n in old(adjList) ==> adjList == WithoutNode(old(adjList), n)
      ensures n in old(adjList) ==> EdgeSet(adjList) == old(EdgeSet(adjList) - Incident(adjList, n))
    {
      if n !in adjList {
        return 0;
      }
      ghost var before := adjList;
      PurgeOutgoing(n);
      forall x | x in adjList[n].ins ensures x in adjList {
        assert HasIn(before, x, n) && HasOut(before, x, n);
      }
      PurgeIncoming(n);
      assert adjList[n] == before[n];
      var purged := |adjList[n].outs| + |adjList[n].ins| - (if n in adjList[n].outs then 1 else 0);
      numOfEdges := numOfEdges - purged;
      adjList := adjList - {n};
      PurgedIsWithoutNode(before, n);
      IncidentSize(before, n);
      WithoutNodeEdges(before, n);
      return 1;
    }

    ghost function View(): Plain
      reads this
    {
      Plain(adjList.Keys, EdgeSet(adjList))
    }

    /** One operation, with removal of an edge going through the iterator that finds it. */
    method Perform(op: Op<P, E>)
      requires Valid()
      modifies this
      ensures Valid() && View() == Apply(old(View()), op)
    {
      ghost var before := adjList;
      match op {
        case AddNodeOp(n, prop) =>
          var _ := AddNode(n, prop);
        case AddEdgeOp(s, t, prop) =>
          var _ := AddEdge(s, t, prop);
          assert (s, t) in old(View()).edges ==> old(View()).edges + {(s, t)} == old(View()).edges;
        case RemoveEdgeOp(s, t) =>
          assert (s, t) in EdgeSet(before) <==> HasOut(before, s, t);
          if s in adjList && t in adjList[s].outs {
            RemoveEdge(s, t);
          } else {
            assert old(View()).edges - {(s, t)} == old(View()).edges;
          }
        case RemoveNodeOp(n) =>
          var _ := RemoveNode(n);
          RemovedView<P, E>(before, n);
      }
    }

    /** From any valid graph, any sequence of operations agrees with the plain graph. */
    method PerformAll(ops: seq<Op<P, E>>)
      requires Valid()
      modifies this
      ensures Valid() && View() == ApplyAll(old(View()), ops)
      ensures numOfEdges == OutDegrees(adjList, adjList.Keys) == |ApplyAll(old(View()), ops).edges|
    {
      for i := 0 to |ops|
        invariant Valid() && View() == ApplyAll(old(View()), ops[..i])
      {
        assert ops[..i + 1][..i] == ops[..i];
        Perform(ops[i]);
      }
      assert ops[..|ops|] == ops;
      EdgesAreTotalOutDegree(adjList);
    }
  }
}
