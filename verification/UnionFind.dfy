/** The union-find of memoir/support, with path compression and a merge order given as a parameter. */
module UnionFind {
  import opened Wrappers
  import opened Paths
  import opened Powers

  // ---- the forest: parent pointers, and the root that each member's pointers lead to ----

  /** The parent of `x` has the same root, and a member that is its own parent is its own root. */
  ghost predicate PointsUp<T(!new)>(parent: map<T, T>, root: map<T, T>, x: T) {
    x in parent ==>
      && x in root && parent[x] in root && root[parent[x]] == root[x]
      && (parent[x] == x ==> root[x] == x)
  }

  /** The root of `x` is its own parent. */
  ghost predicate EndsAtRoot<T(!new)>(parent: map<T, T>, root: map<T, T>, x: T) {
    x in root ==> root[x] in root && root[x] in parent && parent[root[x]] == root[x]
  }

  ghost predicate Rooted<T(!new)>(parent: map<T, T>, root: map<T, T>) {
    && parent.Keys == root.Keys
    && (forall x {:trigger PointsUp(parent, root, x)} :: PointsUp(parent, root, x))
    && (forall x {:trigger EndsAtRoot(parent, root, x)} :: EndsAtRoot(parent, root, x))
  }

  ghost predicate GrowsAt<T(!new)>(parent: map<T, T>, size: map<T, nat>, x: T) {
    x in parent ==>
      && x in size && size[x] >= 1 && parent[x] in parent && parent[x] in size
      && (parent[x] != x ==> size[x] < size[parent[x]])
  }

  /** Recorded sizes grow strictly from child to parent, so no pointers go round. */
  ghost predicate Growing<T(!new)>(parent: map<T, T>, size: map<T, nat>) {
    && parent.Keys == size.Keys
    && (forall x {:trigger GrowsAt(parent, size, x)} :: GrowsAt(parent, size, x))
  }

  ghost predicate HalvedAt<T(!new)>(parent: map<T, T>, size: map<T, nat>, x: T) {
    x in parent && x in size && parent[x] in size && parent[x] != x ==> 2 * size[x] <= size[parent[x]]
  }

  /** A child is at most half its parent: the larger root always became the parent. */
  ghost predicate Halved<T(!new)>(parent: map<T, T>, size: map<T, nat>) {
    forall x {:trigger HalvedAt(parent, size, x)} :: HalvedAt(parent, size, x)
  }

  ghost predicate IsRoot<T(!new)>(parent: map<T, T>, r: T) {
    r in parent && parent[r] == r
  }

  ghost function Class<T(!new)>(root: map<T, T>, r: T): set<T> {
    set x | x in root && root[x] == r
  }

  /** Every root records at least the number of members of its class. */
  ghost predicate Bounded<T(!new)>(parent: map<T, T>, size: map<T, nat>, root: map<T, T>) {
    forall r {:trigger Class(root, r)} :: IsRoot(parent, r) && r in size ==> |Class(root, r)| <= size[r]
  }

  /** Every root records exactly that number. */
  ghost predicate Exact<T(!new)>(parent: map<T, T>, size: map<T, nat>, root: map<T, T>) {
    forall r {:trigger Class(root, r)} :: IsRoot(parent, r) && r in size ==> |Class(root, r)| == size[r]
  }

  /** Every member is related to its root by the merged pairs. */
  ghost predicate Joined<T(!new)>(root: map<T, T>, merged: Relation<T>, x: T) {
    x in root && Connected(merged, x, root[x])
  }

  ghost predicate Tracks<T(!new)>(root: map<T, T>, merged: Relation<T>) {
    && (forall e {:trigger e in merged} :: e in merged ==> e.0 in root && e.1 in root && root[e.0] == root[e.1])
    && (forall x {:trigger Joined(root, merged, x)} :: x in root ==> Joined(root, merged, x))
  }

  /** Two members have one root exactly when the merged pairs relate them. */
  lemma SameRootIffConnected<T(!new)>(root: map<T, T>, merged: Relation<T>, x: T, y: T)
    requires Tracks(root, merged) && x in root && y in root
    ensures root[x] == root[y] <==> Connected(merged, x, y)
  {
    if root[x] == root[y] {
      assert Joined(root, merged, x) && Joined(root, merged, y);
      ConnectedSym(merged, y, root[y]);
      ConnectedTrans(merged, x, root[x], y);
    }
    if Connected(merged, x, y) {
      ConnectedAgree(merged, root, x, y);
    }
  }

  // ---- following parent pointers ----

  /** The members of greater recorded size; following a parent pointer shrinks it. */
  ghost function Above<T(!new)>(size: map<T, nat>, x: T): set<T> {
    set y | y in size && (x in size ==> size[x] < size[y])
  }

  lemma Shrinks<T(!new)>(parent: map<T, T>, size: map<T, nat>, x: T)
    requires Growing(parent, size) && x in parent && parent[x] != x
    ensures parent[x] in parent && parent[x] in size && Above(size, parent[x]) < Above(size, x)
  {
    assert GrowsAt(parent, size, x);
    assert parent[x] in Above(size, x) && parent[x] !in Above(size, parent[x]);
  }

  /** How many pointers lead from `x` to a member that is its own parent. */
  ghost function Depth<T(!new)>(parent: map<T, T>, size: map<T, nat>, x: T): nat
    requires Growing(parent, size) && x in parent
    decreases Above(size, x)
  {
    if parent[x] == x then 0
    else
      Shrinks(parent, size, x);
      1 + Depth(parent, size, parent[x])
  }

  /** Where `n` parent pointers lead from `x`. */
  ghost function Ancestor<T(!new)>(parent: map<T, T>, x: T, n: nat): T
  {
    if n == 0 || x !in parent then x else Ancestor(parent, parent[x], n - 1)
  }

  /** The pointers of `x` do end, and at its root. */
  lemma {:induction false} PointersLeadToRoot<T(!new)>(parent: map<T, T>, size: map<T, nat>, root: map<T, T>, x: T)
    requires Growing(parent, size) && Rooted(parent, root) && x in parent
    ensures Ancestor(parent, x, Depth(parent, size, x)) == root[x] && IsRoot(parent, root[x])
    decreases Above(size, x)
  {
    assert PointsUp(parent, root, x) && EndsAtRoot(parent, root, x);
    if parent[x] != x {
      Shrinks(parent, size, x);
      PointersLeadToRoot(parent, size, root, parent[x]);
    }
  }

  lemma DoubleStep(p: nat, child: nat, above: nat, top: nat)
    requires 2 * child <= above && p * above <= top
    ensures (2 * p) * child <= top
  {
    assert p * (2 * child) <= p * above;
  }

  lemma AtLeast(p: nat, s: nat)
    requires s >= 1
    ensures p <= p * s
  {
  }

  lemma {:induction false} DepthTimesSize<T(!new)>(parent: map<T, T>, size: map<T, nat>, root: map<T, T>, x: T)
    requires Growing(parent, size) && Rooted(parent, root) && Halved(parent, size) && x in parent
    ensures root[x] in size
    ensures Pow2(Depth(parent, size, x)) * size[x] <= size[root[x]]
    decreases Above(size, x)
  {
    assert PointsUp(parent, root, x) && EndsAtRoot(parent, root, x);
    assert GrowsAt(parent, size, x) && HalvedAt(parent, size, x);
    if parent[x] != x {
      Shrinks(parent, size, x);
      DepthTimesSize(parent, size, root, parent[x]);
      DoubleStep(Pow2(Depth(parent, size, parent[x])), size[x], size[parent[x]], size[root[x]]);
    }
  }

  /** With the larger root always the parent, depth is logarithmic in the size recorded at the root. */
  lemma DepthIsLogarithmic<T(!new)>(parent: map<T, T>, size: map<T, nat>, root: map<T, T>, x: T)
    requires Growing(parent, size) && Rooted(parent, root) && Halved(parent, size) && x in parent
    ensures root[x] in size && Pow2(Depth(parent, size, x)) <= size[root[x]]
  {
    DepthTimesSize(parent, size, root, x);
    assert GrowsAt(parent, size, x);
    AtLeast(Pow2(Depth(parent, size, x)), size[x]);
  }

  lemma {:induction false} SizeBelowRoot<T(!new)>(parent: map<T, T>, size: map<T, nat>, root: map<T, T>, t: T)
    requires Growing(parent, size) && Rooted(parent, root) && t in parent
    ensures root[t] in size && root[t] in parent && size[t] <= size[root[t]]
    ensures parent[t] != t ==> size[t] < size[root[t]]
    ensures parent[t] != t && Halved(parent, size) ==> 2 * size[t] <= size[root[t]]
    decreases Above(size, t)
  {
    assert PointsUp(parent, root, t) && EndsAtRoot(parent, root, t);
    assert GrowsAt(parent, size, t);
    if parent[t] != t {
      Shrinks(parent, size, t);
      SizeBelowRoot(parent, size, root, parent[t]);
      assert Halved(parent, size) ==> HalvedAt(parent, size, t);
    }
  }

  // ---- path compression ----

  lemma CompressRooted<T(!new)>(parent: map<T, T>, root: map<T, T>, t: T)
    requires Rooted(parent, root) && t in parent
    ensures Rooted(parent[t := root[t]], root)
  {
    var parent' := parent[t := root[t]];
    assert PointsUp(parent, root, t) && EndsAtRoot(parent, root, t);
    forall x {:trigger PointsUp(parent', root, x)} ensures PointsUp(parent', root, x) {
      assert PointsUp(parent, root, x) && PointsUp(parent, root, root[t]);
    }
    forall x {:trigger EndsAtRoot(parent', root, x)} ensures EndsAtRoot(parent', root, x) {
      assert EndsAtRoot(parent, root, x) && PointsUp(parent, root, root[t]);
    }
  }

  lemma CompressGrowing<T(!new)>(parent: map<T, T>, size: map<T, nat>, root: map<T, T>, t: T)
    requires Growing(parent, size) && Rooted(parent, root) && t in parent
    ensures Growing(parent[t := root[t]], size)
    ensures Halved(parent, size) ==> Halved(parent[t := root[t]], size)
  {
    var parent' := parent[t := root[t]];
    SizeBelowRoot(parent, size, root, t);
    assert PointsUp(parent, root, t);
    forall x {:trigger GrowsAt(parent', size, x)} ensures GrowsAt(parent', size, x) {
      assert GrowsAt(parent, size, x);
    }
    if Halved(parent, size) {
      forall x {:trigger HalvedAt(parent', size, x)} ensures HalvedAt(parent', size, x) {
        assert HalvedAt(parent, size, x);
      }
    }
  }

  lemma CompressSizes<T(!new)>(parent: map<T, T>, size: map<T, nat>, root: map<T, T>, t: T)
    requires Rooted(parent, root) && t in parent
    ensures Bounded(parent, size, root) ==> Bounded(parent[t := root[t]], size, root)
    ensures Exact(parent, size, root) <==> Exact(parent[t := root[t]], size, root)
  {
    forall r {:trigger Class(root, r)} ensures IsRoot(parent[t := root[t]], r) <==> IsRoot(parent, r) {
      assert PointsUp(parent, root, t) && EndsAtRoot(parent, root, t);
    }
  }

  // ---- a new member ----

  lemma InsertShape<T(!new)>(parent: map<T, T>, size: map<T, nat>, root: map<T, T>, t: T)
    requires Growing(parent, size) && Rooted(parent, root) && t !in parent
    ensures Rooted(parent[t := t], root[t := t]) && Growing(parent[t := t], size[t := 1])
    ensures Halved(parent, size) ==> Halved(parent[t := t], size[t := 1])
  {
    var parent', size', root' := parent[t := t], size[t := 1], root[t := t];
    forall x {:trigger PointsUp(parent', root', x)} {:trigger EndsAtRoot(parent', root', x)}
             {:trigger GrowsAt(parent', size', x)}
      ensures PointsUp(parent', root', x) && EndsAtRoot(parent', root', x) && GrowsAt(parent', size', x)
    {
      assert PointsUp(parent, root, x) && EndsAtRoot(parent, root, x) && GrowsAt(parent, size, x);
    }
    if Halved(parent, size) {
      forall x {:trigger HalvedAt(parent', size', x)} ensures HalvedAt(parent', size', x) {
        assert HalvedAt(parent, size, x) && GrowsAt(parent, size, x);
      }
    }
  }

  lemma InsertClass<T(!new)>(parent: map<T, T>, root: map<T, T>, t: T, r: T)
    requires Rooted(parent, root) && t !in parent
    ensures Class(root[t := t], r) == if r == t then {t} else Class(root, r)
  {
    forall x | x in root ensures root[x] != t {
      assert EndsAtRoot(parent, root, x);
    }
  }

  lemma InsertSizes<T(!new)>(parent: map<T, T>, size: map<T, nat>, root: map<T, T>, t: T)
    requires Growing(parent, size) && Rooted(parent, root) && t !in parent
    ensures Bounded(parent, size, root) ==> Bounded(parent[t := t], size[t := 1], root[t := t])
    ensures Exact(parent, size, root) <==> Exact(parent[t := t], size[t := 1], root[t := t])
  {
    forall r {:trigger Class(root[t := t], r)} {:trigger Class(root, r)}
      ensures Class(root[t := t], r) == if r == t then {t} else Class(root, r)
      ensures IsRoot(parent[t := t], r) <==> IsRoot(parent, r) || r == t
    {
      InsertClass(parent, root, t, r);
    }
    assert |Class(root[t := t], t)| == 1;
  }

  lemma InsertTracks<T(!new)>(root: map<T, T>, merged: Relation<T>, t: T)
    requires Tracks(root, merged) && t !in root
    ensures Tracks(root[t := t], merged)
  {
    forall x {:trigger Joined(root[t := t], merged, x)} | x in root[t := t] ensures Joined(root[t := t], merged, x) {
      if x == t {
        ReachRefl(Symmetric(merged), t);
      } else {
        assert Joined(root, merged, x);
      }
    }
  }

  // ---- hanging one root below another ----

  function LinkRoot<T>(root: map<T, T>, t: T, u: T): map<T, T> {
    map x | x in root :: if root[x] == u then t else root[x]
  }

  /** When `t` and `u` are one root, only its size doubles. */
  function LinkSize<T>(size: map<T, nat>, t: T, u: T): map<T, nat>
    requires t in size && u in size
  {
    size[t := size[t] + size[u]]
  }

  lemma LinkRooted<T(!new)>(parent: map<T, T>, root: map<T, T>, t: T, u: T)
    requires Rooted(parent, root) && IsRoot(parent, t) && IsRoot(parent, u)
    ensures Rooted(parent[u := t], LinkRoot(root, t, u))
  {
    var parent', root' := parent[u := t], LinkRoot(root, t, u);
    assert PointsUp(parent, root, t) && PointsUp(parent, root, u);
    forall x {:trigger PointsUp(parent', root', x)} ensures PointsUp(parent', root', x) {
      assert PointsUp(parent, root, x) && EndsAtRoot(parent, root, x);
    }
    forall x {:trigger EndsAtRoot(parent', root', x)} ensures EndsAtRoot(parent', root', x) {
      assert EndsAtRoot(parent, root, x);
    }
  }

  lemma LinkGrowing<T(!new)>(parent: map<T, T>, size: map<T, nat>, t: T, u: T)
    requires Growing(parent, size) && IsRoot(parent, t) && IsRoot(parent, u)
    ensures Growing(parent[u := t], LinkSize(size, t, u))
    ensures Halved(parent, size) && size[u] <= size[t] ==> Halved(parent[u := t], LinkSize(size, t, u))
  {
    var parent', size' := parent[u := t], LinkSize(size, t, u);
    assert GrowsAt(parent, size, t) && GrowsAt(parent, size, u);
    forall x {:trigger GrowsAt(parent', size', x)} ensures GrowsAt(parent', size', x) {
      assert GrowsAt(parent, size, x);
    }
    if Halved(parent, size) && size[u] <= size[t] {
      forall x {:trigger HalvedAt(parent', size', x)} ensures HalvedAt(parent', size', x) {
        assert HalvedAt(parent, size, x) && GrowsAt(parent, size, x);
      }
    }
  }

  lemma LinkClass<T(!new)>(parent: map<T, T>, root: map<T, T>, t: T, u: T, r: T)
    requires Rooted(parent, root) && IsRoot(parent, t) && IsRoot(parent, u) && (r == t || r != u)
    ensures |Class(LinkRoot(root, t, u), r)| == |Class(root, r)| + if r == t && t != u then |Class(root, u)| else 0
  {
    assert PointsUp(parent, root, t) && PointsUp(parent, root, u);
    if r == t && t != u {
      assert Class(LinkRoot(root, t, u), t) == Class(root, t) + Class(root, u);
      assert Class(root, t) !! Class(root, u);
    } else {
      assert Class(LinkRoot(root, t, u), r) == Class(root, r);
    }
  }

  lemma LinkBounded<T(!new)>(parent: map<T, T>, size: map<T, nat>, root: map<T, T>, t: T, u: T)
    requires Growing(parent, size) && Rooted(parent, root) && IsRoot(parent, t) && IsRoot(parent, u)
    requires Bounded(parent, size, root)
    ensures Bounded(parent[u := t], LinkSize(size, t, u), LinkRoot(root, t, u))
  {
    var root' := LinkRoot(root, t, u);
    forall r {:trigger Class(root', r)} | IsRoot(parent[u := t], r)
      ensures |Class(root', r)| <= LinkSize(size, t, u)[r]
    {
      LinkClass(parent, root, t, u, r);
      assert |Class(root, r)| <= size[r] && |Class(root, u)| <= size[u];
    }
  }

  /** A link keeps an exact record exact only if it joins two different roots. */
  lemma LinkExact<T(!new)>(parent: map<T, T>, size: map<T, nat>, root: map<T, T>, t: T, u: T)
    requires Growing(parent, size) && Rooted(parent, root) && IsRoot(parent, t) && IsRoot(parent, u)
    requires Bounded(parent, size, root)
    ensures Exact(parent[u := t], LinkSize(size, t, u), LinkRoot(root, t, u)) <==> Exact(parent, size, root) && t != u
  {
    var parent', size', root' := parent[u := t], LinkSize(size, t, u), LinkRoot(root, t, u);
    assert PointsUp(parent, root, u) && GrowsAt(parent, size, u);
    assert u in Class(root, u);
    LinkClass(parent, root, t, u, t);
    if Exact(parent, size, root) && t != u {
      forall r {:trigger Class(root', r)} | IsRoot(parent', r) ensures |Class(root', r)| == size'[r] {
        LinkClass(parent, root, t, u, r);
        assert |Class(root, r)| == size[r] && |Class(root, u)| == size[u];
      }
    }
    if Exact(parent', size', root') {
      assert |Class(root', t)| == size'[t];
      assert |Class(root, t)| <= size[t] && |Class(root, u)| <= size[u];
      forall r {:trigger Class(root, r)} | IsRoot(parent, r) ensures |Class(root, r)| == size[r] {
        if r != u {
          LinkClass(parent, root, t, u, r);
          assert IsRoot(parent', r);
          assert |Class(root', r)| == size'[r];
        }
      }
    }
  }

  lemma LinkConnects<T(!new)>(root: map<T, T>, merged: Relation<T>, a: T, b: T)
    requires Tracks(root, merged) && a in root && b in root
    ensures Connected(merged + {(a, b)}, root[a], root[b]) && Connected(merged + {(a, b)}, root[b], root[a])
  {
    var merged' := merged + {(a, b)};
    var ra, rb := root[a], root[b];
    assert Joined(root, merged, a) && Joined(root, merged, b);
    ConnectedMono(merged, merged', a, ra);
    ConnectedMono(merged, merged', b, rb);
    ConnectedPair(merged', a, b);
    ConnectedSym(merged', a, ra);
    ConnectedTrans(merged', ra, a, b);
    ConnectedTrans(merged', ra, b, rb);
    ConnectedSym(merged', ra, rb);
  }

  lemma LinkTracks<T(!new)>(root: map<T, T>, merged: Relation<T>, t: T, u: T, a: T, b: T)
    requires Tracks(root, merged) && a in root && b in root
    requires (root[a] == t && root[b] == u) || (root[a] == u && root[b] == t)
    ensures Tracks(LinkRoot(root, t, u), merged + {(a, b)})
  {
    var root', merged' := LinkRoot(root, t, u), merged + {(a, b)};
    LinkConnects(root, merged, a, b);
    forall x {:trigger Joined(root', merged', x)} | x in root' ensures Joined(root', merged', x) {
      assert Joined(root, merged, x);
      ConnectedMono(merged, merged', x, root[x]);
      if root[x] == u {
        ConnectedTrans(merged', x, u, t);
      }
    }
  }

  // ---- the invariant of the structure ----

  datatype Maps<T> = Maps(parent: map<T, T>, size: map<T, nat>, root: map<T, T>)

  ghost predicate Inv<T(!new)>(m: Maps<T>, merged: Relation<T>, repeated: bool, largerParent: bool) {
    match m
    case Maps(parent, size, root) =>
      && Rooted(parent, root) && Growing(parent, size) && Tracks(root, merged)
      && Bounded(parent, size, root) && (Exact(parent, size, root) <==> !repeated)
      && (largerParent ==> Halved(parent, size))
  }

  lemma InsertInv<T(!new)>(m: Maps<T>, merged: Relation<T>, repeated: bool, largerParent: bool, t: T)
    requires Inv(m, merged, repeated, largerParent) && t !in m.parent
    ensures Inv(Maps(m.parent[t := t], m.size[t := 1], m.root[t := t]), merged, repeated, largerParent)
  {
    InsertShape(m.parent, m.size, m.root, t);
    InsertSizes(m.parent, m.size, m.root, t);
    InsertTracks(m.root, merged, t);
  }

  lemma CompressInv<T(!new)>(m: Maps<T>, merged: Relation<T>, repeated: bool, largerParent: bool, t: T)
    requires Inv(m, merged, repeated, largerParent) && t in m.parent
    ensures Inv(Maps(m.parent[t := m.root[t]], m.size, m.root), merged, repeated, largerParent)
  {
    CompressRooted(m.parent, m.root, t);
    CompressGrowing(m.parent, m.size, m.root, t);
    CompressSizes(m.parent, m.size, m.root, t);
  }

  lemma LinkInv<T(!new)>(m: Maps<T>, merged: Relation<T>, repeated: bool, largerParent: bool, t: T, u: T, a: T, b: T)
    requires Inv(m, merged, repeated, largerParent) && a in m.root && b in m.root
    requires (m.root[a] == t && m.root[b] == u) || (m.root[a] == u && m.root[b] == t)
    requires t in m.size && u in m.size && (largerParent ==> m.size[u] <= m.size[t])
    ensures Inv(Maps(m.parent[u := t], LinkSize(m.size, t, u), LinkRoot(m.root, t, u)),
                merged + {(a, b)}, repeated || t == u, largerParent)
  {
    assert EndsAtRoot(m.parent, m.root, a) && EndsAtRoot(m.parent, m.root, b);
    LinkRooted(m.parent, m.root, t, u);
    LinkGrowing(m.parent, m.size, t, u);
    LinkBounded(m.parent, m.size, m.root, t, u);
    LinkExact(m.parent, m.size, m.root, t, u);
    LinkTracks(m.root, merged, t, u, a, b);
  }

  /** What a search needs of the invariant. */
  lemma Step<T(!new)>(m: Maps<T>, merged: Relation<T>, repeated: bool, largerParent: bool, t: T)
    requires Inv(m, merged, repeated, largerParent)
    ensures m.parent.Keys == m.size.Keys == m.root.Keys
    ensures t in m.root ==> m.root[t] in m.root
    ensures t in m.parent && m.parent[t] == t ==> m.root[t] == t
    ensures t in m.parent && m.parent[t] != t ==>
              m.parent[t] in m.parent && m.root[m.parent[t]] == m.root[t] &&
                  Above(m.size, m.parent[t]) < Above(m.size, t)
  {
    assert PointsUp(m.parent, m.root, t) && EndsAtRoot(m.parent, m.root, t);
    if t in m.parent && m.parent[t] != t {
      Shrinks(m.parent, m.size, t);
    }
  }

  /** The root that a search for `t` answers, and the size that it finds recorded there. */
  ghost function RootAndSize<T>(root: map<T, T>, size: map<T, nat>, t: T): (T, nat) {
    if t in root && root[t] in size then (root[t], size[root[t]]) else (t, 1)
  }

  ghost predicate Recorded<T>(root: map<T, T>, size: map<T, nat>, t: T) {
    root.Keys == size.Keys && (t in root ==> root[t] in root)
  }

  /** A search for `t` changes no answer to another search. */
  lemma FoundOne<T>(root: map<T, T>, size: map<T, nat>, root': map<T, T>, size': map<T, nat>, t: T, u: T)
    requires Recorded(root, size, t) && Recorded(root, size, u)
    requires if t in root then root' == root && size' == size else root' == root[t := t] && size' == size[t := 1]
    ensures Recorded(root', size', t) && Recorded(root', size', u)
    ensures RootAndSize(root', size', t) == RootAndSize(root, size, t)
    ensures RootAndSize(root', size', u) == RootAndSize(root, size, u)
    ensures t in root' && (root'[t], size'[root'[t]]) == RootAndSize(root', size', t)
  {
  }

  lemma SameFound<T>(root: map<T, T>, size: map<T, nat>, t: T, u: T)
    requires Recorded(root, size, t) && Recorded(root, size, u)
    ensures RootAndSize(root, size, t).0 == RootAndSize(root, size, u).0
       <==> t == u || (t in root && u in root && root[t] == root[u])
  {
  }

  lemma TwoMore<T>(s: set<T>, a: T, b: T)
    ensures s + {a} + {b} == s + {a, b}
  {
  }

  datatype Op<T> = InsertOp(t: T) | FindOp(t: T) | MergeOp(t: T, u: T)

  /** The pairs that a run merges. */
  ghost function MergedBy<T(!new)>(ops: seq<Op<T>>): Relation<T> {
    if ops == [] then {}
    else
      var op := ops[|ops| - 1];
      MergedBy(ops[..|ops| - 1]) + if op.MergeOp? then {(op.t, op.u)} else {}
  }

  /** The order that makes the root of the larger recorded size the parent. */
  ghost predicate IsLargerParent<T(!new)>(larger: (T, T, nat, nat) -> bool) {
    forall a, b, m, n :: larger(a, b, m, n) == (m < n)
  }

  class UnionFind<T(==,!new)> {
    var parent: map<T, T>
    var size: map<T, nat>
    /** `larger(l, r, lsize, rsize)` makes `r` the parent. */
    const larger: (T, T, nat, nat) -> bool
    ghost const largerParent: bool

    ghost var root: map<T, T>
    /** The pairs merged so far, and whether some merge was given one class twice. */
    ghost var merged: Relation<T>
    ghost var repeated: bool

    ghost predicate Valid()
      reads this
    {
      Inv(Maps(parent, size, root), merged, repeated, largerParent) && (largerParent ==> IsLargerParent(larger))
    }

    constructor (larger: (T, T, nat, nat) -> bool)
      ensures Valid() && parent == map[] && merged == {} && !repeated
      ensures this.larger == larger && largerParent == IsLargerParent(larger)
    {
      parent := map[];
      size := map[];
      root := map[];
      this.larger := larger;
      largerParent := IsLargerParent(larger);
      merged := {};
      repeated := false;
    }

    method Insert(t: T)
      requires Valid()
      modifies this`parent, this`size, this`root
      ensures Valid()
      ensures t in old(parent) ==> parent == old(parent) && size == old(size) && root == old(root)
      ensures t !in old(parent) ==>
          parent == old(parent)[t := t] && size == old(size)[t := 1] && root == old(root)[t := t]
    {
      if t !in parent {
        InsertInv(Maps(parent, size, root), merged, repeated, largerParent, t);
        parent := parent[t := t];
        size := size[t := 1];
        root := root[t := t];
      }
    }

    /** A member is answered by its root, and only parents change, to roots. */
    method TryFind(t: T) returns (r: Option<T>)
      requires Valid()
      modifies this`parent, this`size, this`root
      ensures Valid() && size == old(size) && root == old(root) && parent.Keys == old(parent.Keys)
      ensures r == if t in root then Some(root[t]) else None
      ensures forall x {:trigger parent[x]} :: x in parent ==> parent[x] == old(parent)[x] || parent[x] == root[x]
      ensures if t in root then t in parent && parent[t] == root[t] else parent == old(parent)
      decreases Above(size, t), 0
    {
      Step(Maps(parent, size, root), merged, repeated, largerParent, t);
      if t !in parent {
        return None;
      }
      if parent[t] == t {
        return Some(t);
      }
      var newT := Find(parent[t]);
      CompressInv(Maps(parent, size, root), merged, repeated, largerParent, t);
      parent := parent[t := newT];
      return Some(newT);
    }

    /** As `TryFind`; a stranger comes in as its own root. */
    method Find(t: T) returns (r: T)
      requires Valid()
      modifies this`parent, this`size, this`root
      ensures Valid()
      ensures t in old(root) ==> size == old(size) && root == old(root)
      ensures t !in old(root) ==>
          parent == old(parent)[t := t] && size == old(size)[t := 1] && root == old(root)[t := t]
      ensures t in root && t in parent && r == root[t] == parent[t]
      ensures parent.Keys == size.Keys == root.Keys == old(root.Keys) + {t}
      ensures forall x {:trigger parent[x]} :: x in old(parent) ==> parent[x] == old(parent)[x] || parent[x] == root[x]
      decreases Above(size, t), 1
    {
      Step(Maps(parent, size, root), merged, repeated, largerParent, t);
      var found := TryFind(t);
      if found.Some? {
        return found.value;
      }
      Insert(t);
      return t;
    }

    method FindBoth(t0: T, u0: T) returns (t: T, u: T)
      requires Valid()
      modifies this`parent, this`size, this`root
      ensures Valid() && root.Keys == old(root.Keys) + {t0, u0}
      ensures t0 in root && u0 in root && t == root[t0] && u == root[u0] && t in size && u in size
      ensures (t, size[t]) == RootAndSize(old(root), old(size), t0)
      ensures (u, size[u]) == RootAndSize(old(root), old(size), u0)
      ensures t == u <==> t0 == u0 || (t0 in old(root) && u0 in old(root) && old(root)[t0] == old(root)[u0])
    {
      Step(Maps(parent, size, root), merged, repeated, largerParent, t0);
      Step(Maps(parent, size, root), merged, repeated, largerParent, u0);
      SameFound(root, size, t0, u0);
      ghost var before := Maps(parent, size, root);
      t := Find(t0);
      ghost var between := Maps(parent, size, root);
      u := Find(u0);
      TwoMore(old(root.Keys), t0, u0);
      FoundOne(before.root, before.size, between.root, between.size, t0, u0);
      FoundOne(between.root, between.size, root, size, u0, t0);
    }

    method Merge(t0: T, u0: T) returns (r: T)
      requires Valid()
      modifies this
      ensures Valid() && root.Keys == old(root.Keys) + {t0, u0}
      ensures merged == old(merged) + {(t0, u0)}
      ensures r == root[t0] == root[u0]
      ensures var (t, m) := RootAndSize(old(root), old(size), t0);
        var (u, n) := RootAndSize(old(root), old(size), u0);
        r == if larger(t, u, m, n) then u else t
      ensures repeated == (old(repeated) || t0 == u0
                || (t0 in old(root) && u0 in old(root) && old(root)[t0] == old(root)[u0]))
    {
      var t, u := FindBoth(t0, u0);
      if larger(t, u, size[t], size[u]) {
        t, u := u, t;
      }
      Link(t, u, t0, u0);
      return t;
    }

    /** Hangs the root `u` below the root `t`; `a` and `b` are the members they were found for. */
    method Link(t: T, u: T, ghost a: T, ghost b: T)
      requires Valid() && a in root && b in root
      requires (root[a] == t && root[b] == u) || (root[a] == u && root[b] == t)
      requires t in size && u in size && (largerParent ==> size[u] <= size[t])
      modifies this
      ensures Valid() && root == LinkRoot(old(root), t, u) && root.Keys == old(root.Keys)
      ensures merged == old(merged) + {(a, b)} && repeated == (old(repeated) || t == u)
    {
      LinkInv(Maps(parent, size, root), merged, repeated, largerParent, t, u, a, b);
      parent := parent[u := t];
      size := LinkSize(size, t, u);
      root := LinkRoot(root, t, u);
      merged := merged + {(a, b)};
      repeated := repeated || t == u;
    }

    /** Makes every parent pointer a pointer to the root. */
    method Reify()
      requires Valid()
      modifies this`parent, this`size, this`root
      ensures Valid() && root == old(root) && size == old(size) && parent == root
    {
      var todo := parent.Keys;
      while todo != {}
        invariant Valid() && root == old(root) && size == old(size) && todo <= parent.Keys
        invariant forall x {:trigger parent[x]} :: x in parent && x !in todo ==> parent[x] == root[x]
        decreases |todo|
      {
        var item :| item in todo;
        var _ := Find(item);
        todo := todo - {item};
      }
      assert parent == root;
    }

    method Perform(op: Op<T>)
      requires Valid()
      modifies this
      ensures Valid() && merged == old(merged) + if op.MergeOp? then {(op.t, op.u)} else {}
    {
      match op {
        case InsertOp(t) => Insert(t);
        case FindOp(t) => var _ := Find(t);
        case MergeOp(t, u) => var _ := Merge(t, u);
      }
    }

    /** After any run two members have one root exactly when the pairs it merged relate them. */
    method PerformAll(ops: seq<Op<T>>)
      requires Valid() && merged == {}
      modifies this
      ensures Valid() && merged == MergedBy(ops)
      ensures forall x, y :: x in root && y in root ==> (root[x] == root[y] <==> Connected(MergedBy(ops), x, y))
    {
      for i := 0 to |ops|
        invariant Valid() && merged == MergedBy(ops[..i])
      {
        Perform(ops[i]);
        assert ops[..i + 1][..i] == ops[..i];
      }
      assert ops[..|ops|] == ops;
      forall x, y | x in root && y in root
        ensures root[x] == root[y] <==> Connected(MergedBy(ops), x, y)
      {
        SameRootIffConnected(root, merged, x, y);
      }
    }
  }
}
