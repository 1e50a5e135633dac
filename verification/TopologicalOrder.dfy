/** Depth-first topological sorting, as DirectedGraph::topological_order runs it. */
module TopologicalOrder {
  import opened Wrappers
  import opened Paths
  import opened GraphLite
  import opened Tarjan

  datatype Marks = Marks(order: seq<Node>, permanent: set<Node>, temporary: set<Node>)

  ghost predicate HasCycle(g: Digraph) {
    exists c :: ReachPlus(Edges(g), c, c)
  }

  /** Every node in `order` comes after all its successors; `order` holds the permanent marks once each. */
  ghost predicate Sorted(g: Digraph, m: Marks) {
    && m.permanent <= g.Keys
    && (forall x :: x in m.permanent <==> x in m.order)
    && (forall i, j :: 0 <= i < j < |m.order| ==> m.order[i] != m.order[j])
    && (forall i :: 0 <= i < |m.order| ==> m.order[i] in g)
    && (forall i, y :: 0 <= i < |m.order| && y in g[m.order[i]] ==> y in m.order[..i])
  }

  lemma Append(g: Digraph, m: Marks, node: Node)
    requires Sorted(g, m) && node in g && node !in m.permanent && g[node] <= m.permanent
    ensures Sorted(g, Marks(m.order + [node], m.permanent + {node}, m.temporary - {node}))
  {
    var m' := Marks(m.order + [node], m.permanent + {node}, m.temporary - {node});
    forall i, y | 0 <= i < |m'.order| && y in g[m'.order[i]]
      ensures y in m'.order[..i]
    {
      if i < |m.order| {
        assert y in m.order[..i];
        assert m'.order[..i] == m.order[..i];
      } else {
        assert m'.order[..i] == m.order;
      }
    }
  }

  /**
    `false` means that a temporarily marked node was met again; every temporarily
    marked node reaches the one being visited, so that is a cycle.
   */
  method Helper(g: Digraph, node: Node, m: Marks) returns (ok: bool, m': Marks)
    requires WellFormed(g) && node in g && Sorted(g, m)
    requires m.temporary <= g.Keys && m.temporary !! m.permanent
    requires forall t :: t in m.temporary ==> ReachPlus(Edges(g), t, node)
    ensures !ok ==> HasCycle(g)
    ensures ok ==> Sorted(g, m') && m'.temporary == m.temporary && m'.temporary !! m'.permanent
    ensures ok ==> m.permanent <= m'.permanent && node in m'.permanent
    decreases g.Keys - m.permanent - m.temporary
  {
    m' := m;
    if node in m'.permanent {
      return true, m';
    }
    if node in m'.temporary {
      return false, m';
    }
    m' := m'.(temporary := m'.temporary + {node});
    var todo := g[node];
    while todo != {}
      invariant todo <= g[node]
      invariant Sorted(g, m') && m'.temporary == m.temporary + {node} && m'.temporary !! m'.permanent
      invariant m.permanent <= m'.permanent && g[node] - todo <= m'.permanent
      decreases |todo|
    {
      var out :| out in todo;
      MarkedReach(g, m.temporary, node, out);
      var ok' := false;
      ok', m' := Helper(g, out, m');
      if !ok' {
        return false, m';
      }
      todo := todo - {out};
    }
    Append(g, m', node);
    m' := Marks(m'.order + [node], m'.permanent + {node}, m'.temporary - {node});
    return true, m';
  }

  lemma MarkedReach(g: Digraph, temporary: set<Node>, node: Node, out: Node)
    requires node in g && out in g[node]
    requires forall t :: t in temporary ==> ReachPlus(Edges(g), t, node)
    ensures forall t :: t in temporary + {node} ==> ReachPlus(Edges(g), t, out)
  {
    EdgeIn(g, node, out);
    ReachRefl(Edges(g), out);
    ReachEdge(Edges(g), node, out);
    forall t | t in temporary + {node} ensures ReachPlus(Edges(g), t, out) {
      if t != node {
        ReachPlusTrans(Edges(g), t, node, out);
      }
    }
  }

  /** A permutation of the nodes in which every edge points forward. */
  ghost predicate IsTopological(g: Digraph, order: seq<Node>) {
    && (forall x :: x in g <==> x in order)
    && (forall i, j :: 0 <= i < j < |order| ==> order[i] != order[j])
    && (forall i, j :: 0 <= i < |order| && 0 <= j < |order| && (order[i], order[j]) in Edges(g) ==> i < j)
  }

  function Reversed(s: seq<Node>): seq<Node> {
    seq(|s|, i requires 0 <= i < |s| => s[|s| - 1 - i])
  }

  lemma ReversedAt(s: seq<Node>)
    ensures |Reversed(s)| == |s| && forall i :: 0 <= i < |s| ==> Reversed(s)[i] == s[|s| - 1 - i]
    ensures forall x :: x in Reversed(s) <==> x in s
    ensures (forall i, j :: 0 <= i < j < |s| ==> s[i] != s[j]) ==>
              forall i, j :: 0 <= i < j < |s| ==> Reversed(s)[i] != Reversed(s)[j]
  {
    var r := Reversed(s);
    forall x | x in s ensures x in r {
      var i :| 0 <= i < |s| && s[i] == x;
      assert r[|s| - 1 - i] == x;
    }
  }

  /** In the order in which the visits end, every edge points backward. */
  lemma EdgesPointBack(g: Digraph, m: Marks, i: nat, j: nat)
    requires Sorted(g, m) && i < |m.order| && j < |m.order| && (m.order[i], m.order[j]) in Edges(g)
    ensures j < i
  {
    EdgeIn(g, m.order[i], m.order[j]);
    var k :| 0 <= k < i && m.order[..i][k] == m.order[j];
  }

  ghost predicate BackEdge(g: Digraph, order: seq<Node>, i: nat, j: nat) {
    i < |order| && j < |order| && (order[i], order[j]) in Edges(g) ==> j < i
  }

  /** A permutation of the nodes in which every edge points backward is a topological order backwards. */
  lemma ReverseOfBackward(g: Digraph, order: seq<Node>)
    requires (forall x :: x in g <==> x in order) && forall i, j :: 0 <= i < j < |order| ==> order[i] != order[j]
    requires forall i: nat, j: nat {:trigger BackEdge(g, order, i, j)} :: BackEdge(g, order, i, j)
    ensures IsTopological(g, Reversed(order))
  {
    var r, n := Reversed(order), |order|;
    ReversedAt(order);
    forall i, j | 0 <= i < n && 0 <= j < n && (r[i], r[j]) in Edges(g) ensures i < j {
      assert BackEdge(g, order, n - 1 - i, n - 1 - j);
    }
  }

  lemma ReversedIsTopological(g: Digraph, m: Marks)
    requires Sorted(g, m) && m.permanent == g.Keys
    ensures IsTopological(g, Reversed(m.order))
  {
    forall i: nat, j: nat {:trigger BackEdge(g, m.order, i, j)} ensures BackEdge(g, m.order, i, j) {
      if i < |m.order| && j < |m.order| && (m.order[i], m.order[j]) in Edges(g) {
        EdgesPointBack(g, m, i, j);
      }
    }
    ReverseOfBackward(g, m.order);
  }

  lemma {:induction false} WalkGoesForward(g: Digraph, order: seq<Node>, i: nat, steps: seq<Node>, j: nat)
    requires WellFormed(g) && IsTopological(g, order) && i < |order| && j < |order|
    requires Walk(Edges(g), order[i], steps, order[j])
    ensures i <= j
    decreases |steps|
  {
    if steps != [] {
      EdgeIn(g, order[i], steps[0]);
      assert steps[0] in g;
      var k :| 0 <= k < |order| && order[k] == steps[0];
      WalkGoesForward(g, order, k, steps[1..], j);
    }
  }

  /** A graph with a topological order has no cycle, not even a self-loop. */
  lemma OrderedIsAcyclic(g: Digraph, order: seq<Node>)
    requires WellFormed(g) && IsTopological(g, order)
    ensures Acyclic(Edges(g))
  {
    forall a ensures !ReachPlus(Edges(g), a, a) {
      if ReachPlus(Edges(g), a, a) {
        var c :| (a, c) in Edges(g) && Reach(Edges(g), c, a);
        EdgeIn(g, a, c);
        var i :| 0 <= i < |order| && order[i] == a;
        var j :| 0 <= j < |order| && order[j] == c;
        var steps :| Walk(Edges(g), c, steps, a);
        WalkGoesForward(g, order, j, steps, i);
      }
    }
  }

  method Sort(g: Digraph) returns (result: Option<seq<Node>>)
    requires WellFormed(g)
    ensures result.Some? <==> Acyclic(Edges(g))
    ensures result.Some? ==> IsTopological(g, result.value)
  {
    var m := Marks([], {}, {});
    var todo := g.Keys;
    while todo != {}
      invariant todo <= g.Keys && Sorted(g, m) && m.temporary == {}
      invariant g.Keys - todo <= m.permanent
      decreases |todo|
    {
      var node :| node in todo;
      if node !in m.permanent {
        var ok := false;
        ok, m := Helper(g, node, m);
        if !ok {
          return None;
        }
      }
      todo := todo - {node};
    }
    ReversedIsTopological(g, m);
    OrderedIsAcyclic(g, Reversed(m.order));
    return Some(Reversed(m.order));
  }
}
