/** Strongly connected components, as DirectedGraph::tarjan_scc finds them, for every order of iteration. */
module Tarjan {
  import opened Paths
  import opened GraphLite

  /** The out-neighbours of every node. */
  type Digraph = map<Node, set<Node>>

  ghost predicate WellFormed(g: Digraph) {
    forall x :: x in g ==> g[x] <= g.Keys
  }

  ghost function Edges(g: Digraph): Relation<Node> {
    set x, y | x in g && y in g[x] :: (x, y)
  }

  type Components = map<Node, set<Node>>

  ghost predicate Mutual(g: Digraph, x: Node, y: Node) {
    Reach(Edges(g), x, y) && Reach(Edges(g), y, x)
  }

  /** Every component is the class of its key under mutual reachability, and no two overlap. */
  ghost predicate AreSccs(g: Digraph, components: Components) {
    && (forall r :: r in components ==> r in components[r])
    && (forall r, z :: r in components ==> (z in components[r] <==> Mutual(g, r, z)))
    && (forall r, s :: r in components && s in components && r != s ==> components[r] !! components[s])
  }

  ghost predicate Covered(components: Components, x: Node) {
    exists r :: r in components && x in components[r]
  }

  /** The components together are exactly `nodes`. */
  ghost predicate Covers(components: Components, nodes: set<Node>) {
    forall x {:trigger Covered(components, x)} :: Covered(components, x) <==> x in nodes
  }

  /** The bookkeeping that the recursive helper takes by reference: it goes in and comes out as one value. */
  datatype State = State(
    index: nat,
    indices: map<Node, nat>,
    lowlink: map<Node, nat>,
    stack: seq<Node>)

  ghost function OnStack(st: State): set<Node> {
    set x | x in st.stack
  }

  /** Nodes already given a component. */
  ghost function Done(st: State): set<Node> {
    st.indices.Keys - OnStack(st)
  }

  ghost predicate Numbered(g: Digraph, st: State) {
    && st.lowlink.Keys == st.indices.Keys <= g.Keys
    && (forall x :: x in st.indices ==> st.indices[x] < st.index)
    && (forall x :: x in st.stack ==> x in st.indices)
  }

  /** The stack is in the order in which its nodes were numbered. */
  ghost predicate Ordered(st: State) {
    && (forall x :: x in st.stack ==> x in st.indices)
    && (forall i, j :: 0 <= i < j < |st.stack| ==> st.indices[st.stack[i]] < st.indices[st.stack[j]])
  }

  /** `y` reaches a gray node that is no higher on the stack. */
  ghost predicate Anchored(g: Digraph, st: State, gray: set<Node>, y: Node) {
    exists x :: x in gray && x in st.indices && y in st.indices
      && st.indices[x] <= st.indices[y] && Reach(Edges(g), y, x)
  }

  /**
    `gray` are the nodes whose call has not returned. A gray node reaches all that lies
    above it on the stack, and everything on the stack reaches a gray node below it.
   */
  ghost predicate Inv(g: Digraph, st: State, gray: set<Node>) {
    && Numbered(g, st)
    && gray <= OnStack(st)
    && (forall x :: x in st.indices && x !in gray ==> g[x] <= st.indices.Keys)
    && Closed(Edges(g), Done(st))
    && (forall x, y {:trigger Reach(Edges(g), x, y)} ::
          x in gray && y in st.stack && st.indices[x] <= st.indices[y] ==> Reach(Edges(g), x, y))
    && (forall y {:trigger Anchored(g, st, gray, y)} :: y in st.stack ==> Anchored(g, st, gray, y))
  }

  /** The components found so far are right, and hold exactly the finished nodes. */
  ghost predicate Found(g: Digraph, components: Components, done: set<Node>) {
    AreSccs(g, components) && Covers(components, done)
  }

  /** What a call leaves alone; whatever it adds is numbered from `st.index` on. */
  ghost predicate Extends(st: State, st': State) {
    && st.index <= st'.index
    && (forall x :: x in st.indices ==> x in st'.indices && st'.indices[x] == st.indices[x])
    && (forall x :: x in st.lowlink ==> x in st'.lowlink && st'.lowlink[x] == st.lowlink[x])
    && st.stack <= st'.stack
    && (forall x :: x in st.stack ==> x in st'.stack)
    && (forall x :: x in st'.stack && x in st'.indices ==> x in st.stack || st.index <= st'.indices[x])
  }

  /** No edge from the stack at `k` and above to the stack below `k` is missed by `low`. */
  ghost predicate LowCovers(g: Digraph, st: State, k: nat, low: nat, n: Node, todo: set<Node>)
    requires Numbered(g, st)
  {
    forall x, y :: x in st.stack && y in st.stack && y in g[x] && st.indices[y] < k <= st.indices[x] ==>
      low <= st.indices[y] || (x == n && y in todo)
  }

  ghost predicate LowWitness(g: Digraph, st: State, low: nat, n: Node)
    requires Numbered(g, st)
  {
    exists y :: y in st.stack && st.indices[y] == low && Reach(Edges(g), n, y)
  }

  function Push(st: State, n: Node): State {
    State(st.index + 1, st.indices[n := st.index], st.lowlink[n := st.index], st.stack + [n])
  }

  lemma PushInv(g: Digraph, st: State, gray: set<Node>, n: Node)
    requires WellFormed(g) && n in g && n !in st.indices && Inv(g, st, gray)
    requires forall x :: x in gray ==> Reach(Edges(g), x, n)
    ensures Inv(g, Push(st, n), gray + {n})
  {
    var st' := Push(st, n);
    assert OnStack(st') == OnStack(st) + {n};
    assert Done(st') == Done(st);
    ReachRefl(Edges(g), n);
    forall y {:trigger Anchored(g, st', gray + {n}, y)} | y in st'.stack
      ensures Anchored(g, st', gray + {n}, y)
    {
      if y in st.stack {
        assert Anchored(g, st, gray, y);
      } else {
        assert n in gray + {n};
      }
    }
  }

  lemma EdgeIn(g: Digraph, x: Node, y: Node)
    ensures (x, y) in Edges(g) <==> x in g && y in g[x]
  {
  }

  /** `n` is about to leave: its successors are numbered, and the gray nodes left lie below it. */
  ghost predicate Leaving(g: Digraph, cur: State, gray: set<Node>, n: Node) {
    && WellFormed(g) && Inv(g, cur, gray + {n})
    && n in cur.stack && g[n] <= cur.indices.Keys
    && forall x :: x in gray ==> cur.indices[x] < cur.indices[n]
  }

  /** The part of the stack from `n` upwards. */
  ghost predicate IsTop(cur: State, n: Node, top: set<Node>)
    requires n in cur.indices && forall x :: x in cur.stack ==> x in cur.indices
  {
    forall x :: x in top <==> x in cur.stack && cur.indices[n] <= cur.indices[x]
  }

  /** With no edge leaving the top of the stack downwards, the top and the finished nodes are closed. */
  lemma TopClosed(g: Digraph, cur: State, gray: set<Node>, n: Node, top: set<Node>)
    requires Leaving(g, cur, gray, n) && IsTop(cur, n, top)
    requires LowCovers(g, cur, cur.indices[n], cur.indices[n], n, {})
    ensures Closed(Edges(g), Done(cur) + top)
  {
    forall a, b | (a, b) in Edges(g) && a in Done(cur) + top
      ensures b in Done(cur) + top
    {
      if a in top {
        assert a !in gray;
        assert b in cur.indices;
        assert b in cur.stack ==> cur.indices[n] <= cur.indices[b];
      }
    }
  }

  /** The top of the stack is then exactly the component of `n`. */
  lemma TopIsScc(g: Digraph, cur: State, gray: set<Node>, n: Node, top: set<Node>)
    requires Leaving(g, cur, gray, n) && IsTop(cur, n, top)
    requires LowCovers(g, cur, cur.indices[n], cur.indices[n], n, {})
    ensures forall z :: z in top <==> Mutual(g, n, z)
  {
    var c := Done(cur) + top;
    TopClosed(g, cur, gray, n, top);
    forall z ensures z in top <==> Mutual(g, n, z) {
      if z in top {
        assert Reach(Edges(g), n, z);
        assert Anchored(g, cur, gray + {n}, z);
        var x :| x in gray + {n} && x in cur.indices && cur.indices[x] <= cur.indices[z] && Reach(Edges(g), z, x);
        ReachClosed(Edges(g), c, z, x);
        assert x in OnStack(cur);
        assert x == n;
      } else if Mutual(g, n, z) {
        ReachClosed(Edges(g), c, n, z);
        ReachClosed(Edges(g), Done(cur), z, n);
        assert false;
      }
    }
  }

  ghost predicate IsRest(cur: State, n: Node, rest: seq<Node>)
    requires n in cur.indices && forall x :: x in cur.stack ==> x in cur.indices
  {
    forall x :: x in rest <==> x in cur.stack && cur.indices[x] < cur.indices[n]
  }

  lemma PopFound(g: Digraph, cur: State, components: Components, gray: set<Node>, n: Node, top: set<Node>,
          rest: seq<Node>)
    requires Leaving(g, cur, gray, n) && IsTop(cur, n, top) && IsRest(cur, n, rest)
    requires LowCovers(g, cur, cur.indices[n], cur.indices[n], n, {})
    requires Found(g, components, Done(cur))
    ensures Found(g, components[n := top], Done(cur.(stack := rest)))
  {
    TopIsScc(g, cur, gray, n, top);
    var after := components[n := top];
    assert !Covered(components, n);
    forall r | r in components ensures components[r] !! top {
      forall x | x in components[r] ensures x !in top {
        assert Covered(components, x);
      }
    }
    assert Done(cur.(stack := rest)) == Done(cur) + top;
    forall x {:trigger Covered(after, x)}
      ensures Covered(after, x) <==> x in Done(cur) + top
    {
      assert Covered(components, x) <==> x in Done(cur);
      if Covered(components, x) {
        var r :| r in components && x in components[r];
        assert r in after && x in after[r];
      }
      assert x in top <==> x in after[n];
    }
  }

  lemma PopInv(g: Digraph, cur: State, gray: set<Node>, n: Node, top: set<Node>, rest: seq<Node>)
    requires Leaving(g, cur, gray, n) && IsTop(cur, n, top) && IsRest(cur, n, rest)
    requires Numbered(g, cur.(stack := rest))
    requires LowCovers(g, cur, cur.indices[n], cur.indices[n], n, {})
    ensures Inv(g, cur.(stack := rest), gray)
  {
    var st' := cur.(stack := rest);
    TopClosed(g, cur, gray, n, top);
    assert Done(st') == Done(cur) + top;
    forall y {:trigger Anchored(g, st', gray, y)} | y in st'.stack
      ensures Anchored(g, st', gray, y)
    {
      assert Anchored(g, cur, gray + {n}, y);
    }
  }

  /** A node that is no root leaves `gray`, since it reaches a gray node below it. */
  lemma KeepInv(g: Digraph, cur: State, gray: set<Node>, n: Node, low: nat)
    requires Leaving(g, cur, gray, n) && low < cur.indices[n] && LowWitness(g, cur, low, n)
    ensures Inv(g, cur, gray)
  {
    var w :| w in cur.stack && cur.indices[w] == low && Reach(Edges(g), n, w);
    assert Anchored(g, cur, gray + {n}, w);
    var v :| v in gray + {n} && v in cur.indices && cur.indices[v] <= cur.indices[w] && Reach(Edges(g), w, v);
    ReachTrans(Edges(g), n, w, v);
    forall y {:trigger Anchored(g, cur, gray, y)} | y in cur.stack
      ensures Anchored(g, cur, gray, y)
    {
      assert Anchored(g, cur, gray + {n}, y);
      var x :| x in gray + {n} && x in cur.indices && cur.indices[x] <= cur.indices[y] && Reach(Edges(g), y, x);
      if x == n {
        ReachTrans(Edges(g), y, n, v);
      }
    }
  }

  /** What the visit of `n`, started in `st`, keeps while `todo` is left of its successors. */
  ghost predicate Visiting(g: Digraph, st: State, cur: State, gray: set<Node>, n: Node, todo: set<Node>) {
    && WellFormed(g) && n in g && n !in st.indices && todo <= g[n]
    && Numbered(g, st) && Inv(g, cur, gray + {n}) && Extends(st, cur)
    && gray <= st.indices.Keys
    && |st.stack| < |cur.stack| && cur.stack[|st.stack|] == n && cur.indices[n] == st.index
    && g[n] - todo <= cur.indices.Keys
    && cur.lowlink[n] <= cur.indices[n] && LowWitness(g, cur, cur.lowlink[n], n)
    && LowCovers(g, cur, st.index, cur.lowlink[n], n, todo)
  }

  lemma StartVisit(g: Digraph, st: State, gray: set<Node>, n: Node)
    requires WellFormed(g) && n in g && n !in st.indices && Inv(g, st, gray)
    requires forall x :: x in gray ==> Reach(Edges(g), x, n)
    ensures Visiting(g, st, Push(st, n), gray, n, g[n])
  {
    PushInv(g, st, gray, n);
    ReachRefl(Edges(g), n);
    var cur := Push(st, n);
    assert forall x :: x in gray ==> x in OnStack(st);
    assert cur.stack[|st.stack|] == n;
  }

  lemma PushSame(g: Digraph, st: State, n: Node)
    requires Numbered(g, st) && n !in st.indices
    ensures Ordered(st) ==> Ordered(Push(st, n))
    ensures Done(Push(st, n)) == Done(st)
  {
  }

  function SetLow(st: State, n: Node, low: nat): State {
    st.(lowlink := st.lowlink[n := low])
  }

  lemma SetLowInv(g: Digraph, st: State, gray: set<Node>, n: Node, low: nat)
    requires Inv(g, st, gray) && n in st.indices
    ensures Inv(g, SetLow(st, n, low), gray)
  {
    var st' := SetLow(st, n, low);
    assert OnStack(st') == OnStack(st) && Done(st') == Done(st);
    forall y {:trigger Anchored(g, st', gray, y)} | y in st'.stack
      ensures Anchored(g, st', gray, y)
    {
      assert Anchored(g, st, gray, y);
    }
  }

  lemma SetLowLinks(g: Digraph, st: State, k: nat, low: nat, n: Node, todo: set<Node>)
    requires Numbered(g, st) && n in st.indices && LowWitness(g, st, low, n) && LowCovers(g, st, k, low, n, todo)
    ensures Ordered(st) ==> Ordered(SetLow(st, n, low))
    ensures Done(SetLow(st, n, low)) == Done(st)
    ensures Numbered(g, SetLow(st, n, low)) && SetLow(st, n, low).lowlink[n] == low
    ensures LowWitness(g, SetLow(st, n, low), low, n) && LowCovers(g, SetLow(st, n, low), k, low, n, todo)
  {
  }

  /** Whatever `low` a step arrives at, only its covering and its witness are in question. */
  lemma LowerTo(g: Digraph, st: State, cur: State, gray: set<Node>, n: Node, low: nat, todo: set<Node>)
    requires WellFormed(g) && n in g && n !in st.indices && todo <= g[n]
    requires Numbered(g, st) && Inv(g, cur, gray + {n}) && Extends(st, cur) && gray <= st.indices.Keys
    requires |st.stack| < |cur.stack| && cur.stack[|st.stack|] == n && n in cur.indices && cur.indices[n] == st.index
    requires g[n] - todo <= cur.indices.Keys
    requires low <= cur.indices[n] && LowWitness(g, cur, low, n)
    requires LowCovers(g, cur, st.index, low, n, todo)
    ensures Visiting(g, st, SetLow(cur, n, low), gray, n, todo)
    ensures Ordered(cur) ==> Ordered(SetLow(cur, n, low))
    ensures Done(SetLow(cur, n, low)) == Done(cur)
  {
    SetLowInv(g, cur, gray + {n}, n, low);
    SetLowLinks(g, cur, st.index, low, n, todo);
  }

  lemma ExtendsTrans(g: Digraph, a: State, b: State, c: State)
    requires Numbered(g, b) && Extends(a, b) && Extends(b, c)
    ensures Extends(a, c)
  {
  }

  /** A recursive call on `to` extends what is known of the low link of `n`. */
  lemma CallCovers(g: Digraph, before: State, cur: State, k: nat, n: Node, to: Node, low: nat, todo: set<Node>)
    requires Numbered(g, before) && Numbered(g, cur) && Extends(before, cur) && k <= before.index
    requires n in before.indices && to !in before.indices && to in cur.indices
    requires low <= before.lowlink[n] && low <= cur.lowlink[to]
    requires LowCovers(g, before, k, before.lowlink[n], n, todo)
    requires LowCovers(g, cur, before.index, cur.lowlink[to], to, {})
    ensures LowCovers(g, cur, k, low, n, todo - {to})
  {
    forall x, y | x in cur.stack && y in cur.stack && y in g[x] && cur.indices[y] < k <= cur.indices[x]
      ensures low <= cur.indices[y] || (x == n && y in todo - {to})
    {
      assert y in before.stack;
      if x in before.stack {
        assert before.lowlink[n] <= before.indices[y] || (x == n && y in todo);
      }
    }
  }

  lemma CallWitness(g: Digraph, before: State, cur: State, n: Node, to: Node)
    requires Numbered(g, before) && Numbered(g, cur) && Extends(before, cur)
    requires n in before.indices && before.lowlink[n] <= before.indices[n]
    requires (n, to) in Edges(g) && to in cur.indices && cur.indices[to] == before.index
    requires LowWitness(g, before, before.lowlink[n], n)
    requires cur.lowlink[to] <= cur.indices[to]
    requires cur.lowlink[to] < cur.indices[to] ==> LowWitness(g, cur, cur.lowlink[to], to)
    ensures LowWitness(g, cur, Min(cur.lowlink[n], cur.lowlink[to]), n)
  {
    if cur.lowlink[n] > cur.lowlink[to] {
      var y :| y in cur.stack && cur.indices[y] == cur.lowlink[to] && Reach(Edges(g), to, y);
      ReachCons(Edges(g), n, to, y);
    } else {
      var y :| y in before.stack && before.indices[y] == before.lowlink[n] && Reach(Edges(g), n, y);
      assert y in cur.stack;
    }
  }

  /** What a call of the helper on `to`, made in `before`, promises. */
  ghost predicate Called(g: Digraph, before: State, cur: State, gray: set<Node>, to: Node) {
    && Inv(g, cur, gray) && Extends(before, cur)
    && to in cur.indices && cur.indices[to] == before.index && cur.lowlink[to] <= cur.indices[to]
    && (cur.lowlink[to] < cur.indices[to] ==> LowWitness(g, cur, cur.lowlink[to], to))
    && LowCovers(g, cur, before.index, cur.lowlink[to], to, {})
  }

  lemma CallStep(g: Digraph, st: State, before: State, cur: State, gray: set<Node>, n: Node, to: Node, todo: set<Node>)
    requires Visiting(g, st, before, gray, n, todo) && to in todo && to !in before.indices
    requires Called(g, before, cur, gray + {n}, to)
    ensures Visiting(g, st, SetLow(cur, n, Min(cur.lowlink[n], cur.lowlink[to])), gray, n, todo - {to})
    ensures Ordered(cur) ==> Ordered(SetLow(cur, n, Min(cur.lowlink[n], cur.lowlink[to])))
    ensures Done(SetLow(cur, n, Min(cur.lowlink[n], cur.lowlink[to]))) == Done(cur)
  {
    EdgeIn(g, n, to);
    ExtendsTrans(g, st, before, cur);
    CallWitness(g, before, cur, n, to);
    CallCovers(g, before, cur, st.index, n, to, Min(cur.lowlink[n], cur.lowlink[to]), todo);
    assert cur.stack[|st.stack|] == before.stack[|st.stack|];
    LowerTo(g, st, cur, gray, n, Min(cur.lowlink[n], cur.lowlink[to]), todo - {to});
  }

  lemma BackLow(g: Digraph, cur: State, k: nat, n: Node, to: Node, todo: set<Node>)
    requires Numbered(g, cur) && n in cur.indices && to in cur.stack && (n, to) in Edges(g)
    requires LowWitness(g, cur, cur.lowlink[n], n) && LowCovers(g, cur, k, cur.lowlink[n], n, todo)
    ensures LowWitness(g, cur, Min(cur.lowlink[n], cur.indices[to]), n)
    ensures LowCovers(g, cur, k, Min(cur.lowlink[n], cur.indices[to]), n, todo - {to})
  {
    ReachEdge(Edges(g), n, to);
  }

  /** An edge to a node on the stack. */
  lemma BackStep(g: Digraph, st: State, cur: State, gray: set<Node>, n: Node, to: Node, todo: set<Node>)
    requires Visiting(g, st, cur, gray, n, todo) && to in todo && to in cur.stack
    ensures Visiting(g, st, SetLow(cur, n, Min(cur.lowlink[n], cur.indices[to])), gray, n, todo - {to})
    ensures Ordered(cur) ==> Ordered(SetLow(cur, n, Min(cur.lowlink[n], cur.indices[to])))
    ensures Done(SetLow(cur, n, Min(cur.lowlink[n], cur.indices[to]))) == Done(cur)
  {
    EdgeIn(g, n, to);
    BackLow(g, cur, st.index, n, to, todo);
    LowerTo(g, st, cur, gray, n, Min(cur.lowlink[n], cur.indices[to]), todo - {to});
  }

  /** An edge to a node whose component is known. */
  lemma SkipStep(g: Digraph, st: State, cur: State, gray: set<Node>, n: Node, to: Node, todo: set<Node>)
    requires Visiting(g, st, cur, gray, n, todo) && to in todo && to in cur.indices && to !in cur.stack
    ensures Visiting(g, st, cur, gray, n, todo - {to})
  {
  }

  /** The node being visited is on the stack, above every other gray node. */
  lemma EndVisit(g: Digraph, st: State, cur: State, gray: set<Node>, n: Node, todo: set<Node>)
    requires Visiting(g, st, cur, gray, n, todo) && Inv(g, st, gray)
    ensures n in cur.stack && forall x :: x in gray ==> x in cur.indices && cur.indices[x] < cur.indices[n]
  {
    assert cur.stack[|st.stack|] == n;
    assert forall x :: x in gray ==> x in OnStack(st) && cur.indices[x] == st.indices[x];
  }

  method Helper(g: Digraph, n: Node, st: State, found: Components, ghost gray: set<Node>)
    returns (st': State, components: Components)
    requires WellFormed(g) && n in g && n !in st.indices
    requires Inv(g, st, gray) && Ordered(st) && Found(g, found, Done(st))
    requires forall x :: x in gray ==> Reach(Edges(g), x, n)
    ensures Called(g, st, st', gray, n) && Ordered(st') && Found(g, components, Done(st'))
    decreases |g.Keys - st.indices.Keys|, 1
  {
    var cur := Push(st, n);
    components := found;
    StartVisit(g, st, gray, n);
    PushSame(g, st, n);
    var todo := g[n];
    while todo != {}
      invariant Visiting(g, st, cur, gray, n, todo)
      invariant Ordered(cur) && Found(g, components, Done(cur))
    {
      var to :| to in todo;
      cur, components := Follow(g, n, to, st, cur, components, gray, todo);
      todo := todo - {to};
    }
    st', components := Finish(g, n, st, cur, components, gray);
  }

  /** One outgoing edge of `n`. */
  method Follow(g: Digraph, n: Node, to: Node, ghost st: State, cur: State, found: Components,
                ghost gray: set<Node>, ghost todo: set<Node>)
    returns (cur': State, components: Components)
    requires Visiting(g, st, cur, gray, n, todo) && to in todo && Inv(g, st, gray)
    requires Ordered(cur) && Found(g, found, Done(cur))
    ensures Visiting(g, st, cur', gray, n, todo - {to})
    ensures Ordered(cur') && Found(g, components, Done(cur'))
    decreases |g.Keys - st.indices.Keys|, 0
  {
    cur', components := cur, found;
    if to !in cur.indices {
      ReachChild(g, st, cur, gray, n, to, todo);
      Smaller(g, st, cur, n);
      cur', components := Helper(g, to, cur, found, gray + {n});
      CallStep(g, st, cur, cur', gray, n, to, todo);
      cur' := SetLow(cur', n, Min(cur'.lowlink[n], cur'.lowlink[to]));
    } else if to in cur.stack {
      BackStep(g, st, cur, gray, n, to, todo);
      cur' := SetLow(cur, n, Min(cur.lowlink[n], cur.indices[to]));
    } else {
      SkipStep(g, st, cur, gray, n, to, todo);
    }
  }

  /** The end of a visit: a root pops its component off the stack. */
  method Finish(g: Digraph, n: Node, ghost st: State, cur: State, found: Components, ghost gray: set<Node>)
    returns (st': State, components: Components)
    requires Inv(g, st, gray) && Visiting(g, st, cur, gray, n, {})
    requires Ordered(cur) && Found(g, found, Done(cur))
    ensures Called(g, st, st', gray, n) && Ordered(st') && Found(g, components, Done(st'))
  {
    EndVisit(g, st, cur, gray, n, {});
    if cur.lowlink[n] == cur.indices[n] {
      var scc, stack := PopComponent(cur.stack, n, |st.stack|);
      SplitStack(g, cur, n, |st.stack|);
      PopInv(g, cur, gray, n, scc, stack);
      PopFound(g, cur, found, gray, n, scc, stack);
      return cur.(stack := stack), found[n := scc];
    }
    KeepInv(g, cur, gray, n, cur.lowlink[n]);
    return cur, found;
  }

  lemma ReachChild(g: Digraph, st: State, cur: State, gray: set<Node>, n: Node, to: Node, todo: set<Node>)
    requires Visiting(g, st, cur, gray, n, todo) && Inv(g, st, gray) && to in todo
    ensures forall x :: x in gray + {n} ==> Reach(Edges(g), x, to)
  {
    EndVisit(g, st, cur, gray, n, todo);
    EdgeIn(g, n, to);
    ReachEdge(Edges(g), n, to);
    forall x | x in gray + {n} ensures Reach(Edges(g), x, to) {
      assert Reach(Edges(g), x, n);
      ReachTrans(Edges(g), x, n, to);
    }
  }

  lemma SplitStack(g: Digraph, cur: State, n: Node, base: nat)
    requires Numbered(g, cur) && Ordered(cur) && base < |cur.stack| && cur.stack[base] == n
    ensures IsRest(cur, n, cur.stack[..base]) && IsTop(cur, n, set x | x in cur.stack[base..])
    ensures Numbered(g, cur.(stack := cur.stack[..base])) && Ordered(cur.(stack := cur.stack[..base]))
  {
  }

  function Min(a: nat, b: nat): nat {
    if a < b then a else b
  }

  /** The do-while that empties the stack down to and including `n`. */
  method PopComponent(stack0: seq<Node>, n: Node, ghost base: nat) returns (scc: set<Node>, stack: seq<Node>)
    requires base < |stack0| && stack0[base] == n
    requires forall i, j :: 0 <= i < j < |stack0| ==> stack0[i] != stack0[j]
    ensures stack == stack0[..base] && scc == set x | x in stack0[base..]
  {
    stack := stack0;
    var popNode := stack[|stack| - 1];
    stack := stack[..|stack| - 1];
    scc := {popNode};
    while popNode != n
      invariant base <= |stack| < |stack0| && stack == stack0[..|stack|]
      invariant popNode == stack0[|stack|]
      invariant scc == set x | x in stack0[|stack|..]
      decreases |stack|
    {
      popNode := stack[|stack| - 1];
      stack := stack[..|stack| - 1];
      assert stack0[|stack|..] == [popNode] + stack0[|stack| + 1..];
      scc := scc + {popNode};
    }
  }

  lemma Smaller(g: Digraph, st: State, cur: State, n: Node)
    requires n in g && n !in st.indices && n in cur.indices && Extends(st, cur)
    ensures |g.Keys - cur.indices.Keys| < |g.Keys - st.indices.Keys|
  {
    SubsetSize(g.Keys - cur.indices.Keys, (g.Keys - st.indices.Keys) - {n});
  }

  lemma SubsetSize<T>(a: set<T>, b: set<T>)
    requires a <= b
    ensures |a| <= |b|
  {
    assert b == a + (b - a);
  }

  /** Visiting a fresh node with no visit open leaves the stack empty. */
  lemma NothingOpen(g: Digraph, st: State)
    requires Inv(g, st, {})
    ensures st.stack == [] && Done(st) == st.indices.Keys
  {
    assert st.stack != [] ==> Anchored(g, st, {}, st.stack[0]);
  }

  method TarjanScc(g: Digraph) returns (components: Components)
    requires WellFormed(g)
    ensures AreSccs(g, components) && Covers(components, g.Keys)
  {
    components := map[];
    var st := State(0, map[], map[], []);
    var todo := g.Keys;
    while todo != {}
      invariant todo <= g.Keys && g.Keys - todo <= st.indices.Keys
      invariant Inv(g, st, {}) && Ordered(st) && Found(g, components, Done(st))
      decreases |todo|
    {
      var node :| node in todo;
      if node !in st.indices {
        st, components := Helper(g, node, st, components, {});
      }
      todo := todo - {node};
    }
    NothingOpen(g, st);
  }

  // ---- what the components say about pairs of nodes ----

  ghost predicate ShareComponent(components: Components, x: Node, y: Node) {
    exists r :: r in components && x in components[r] && y in components[r]
  }

  lemma MutualTrans(g: Digraph, x: Node, y: Node, z: Node)
    requires Mutual(g, x, y) && Mutual(g, y, z)
    ensures Mutual(g, x, z) && Mutual(g, z, x)
  {
    ReachTrans(Edges(g), x, y, z);
    ReachTrans(Edges(g), z, y, x);
  }

  /** Two nodes share a component exactly when each reaches the other. */
  lemma SameComponentIffMutual(g: Digraph, components: Components, x: Node, y: Node)
    requires AreSccs(g, components) && Covers(components, g.Keys) && x in g && y in g
    ensures ShareComponent(components, x, y) <==> Mutual(g, x, y)
  {
    if ShareComponent(components, x, y) {
      var r :| r in components && x in components[r] && y in components[r];
      MutualTrans(g, x, r, y);
    }
    if Mutual(g, x, y) {
      assert Covered(components, x);
      var r :| r in components && x in components[r];
      MutualTrans(g, r, x, y);
      assert y in components[r];
    }
  }

  /** Every node is in exactly one component. */
  lemma ComponentsPartition(g: Digraph, components: Components, x: Node)
    requires AreSccs(g, components) && Covers(components, g.Keys) && x in g
    ensures exists r :: r in components && x in components[r]
    ensures forall r, s :: r in components && s in components && x in components[r] && x in components[s] ==> r == s
  {
    assert Covered(components, x);
  }
}
