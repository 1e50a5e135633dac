/**
  The sets of bounds checks that the analysis joins and meets. Checks are ordered by
  their lists of indices, and a set holds at most one of a check and its negation.
 */
module BoundsCheckResult {
  import opened Sorted

  type Indices = seq<int>

  datatype Check = Check(indices: Indices, negated: bool)

  function Negation(c: Check): Check {
    Check(c.indices, !c.negated)
  }

  // ---- the orders ----

  /** The first difference decides, between lists of one length. */
  predicate Lexicographic(a: Indices, b: Indices)
    requires |a| == |b|
  {
    a != [] && (a[0] < b[0] || (a[0] == b[0] && Lexicographic(a[1..], b[1..])))
  }

  predicate IndexLess(a: Indices, b: Indices) {
    |a| < |b| || (|a| == |b| && Lexicographic(a, b))
  }

  /** The order by indices, modulo negation. */
  predicate ConflictLess(c: Check, d: Check) {
    IndexLess(c.indices, d.indices)
  }

  /** The order by indices and then by negation. */
  predicate TotalLess(c: Check, d: Check) {
    IndexLess(c.indices, d.indices) || (c.indices == d.indices && !c.negated && d.negated)
  }

  lemma {:induction false} LexicographicLaws(a: Indices, b: Indices, c: Indices)
    requires |a| == |b| == |c|
    ensures !Lexicographic(a, a)
    ensures Lexicographic(a, b) && Lexicographic(b, c) ==> Lexicographic(a, c)
    ensures Lexicographic(a, b) || Lexicographic(b, a) || a == b
    decreases |a|
  {
    if a != [] {
      LexicographicLaws(a[1..], b[1..], c[1..]);
      assert a == [a[0]] + a[1..] && b == [b[0]] + b[1..];
    }
  }

  /** Between lists of one length the first position where they differ decides. */
  lemma {:induction false} FirstDifferenceDecides(a: Indices, b: Indices, k: nat)
    requires |a| == |b| && k < |a| && a[k] != b[k] && forall i :: 0 <= i < k ==> a[i] == b[i]
    ensures IndexLess(a, b) <==> a[k] < b[k]
    decreases k
  {
    if k > 0 {
      FirstDifferenceDecides(a[1..], b[1..], k - 1);
    }
  }

  lemma ShorterIsLess(a: Indices, b: Indices)
    requires |a| < |b|
    ensures IndexLess(a, b) && !IndexLess(b, a)
  {
  }

  lemma IndexLessIsOrder()
    ensures IsOrder(IndexLess)
  {
    forall a ensures !IndexLess(a, a) {
      LexicographicLaws(a, a, a);
    }
    forall a, b, c | IndexLess(a, b) && IndexLess(b, c) ensures IndexLess(a, c) {
      if |a| == |b| == |c| {
        LexicographicLaws(a, b, c);
      }
    }
    forall a, b ensures IndexLess(a, b) || IndexLess(b, a) || a == b {
      if |a| == |b| {
        LexicographicLaws(a, b, b);
      }
    }
  }

  lemma TotalLessIsOrder()
    ensures IsOrder(TotalLess)
  {
    IndexLessIsOrder();
    assert forall a, b, c {:trigger TotalLess(a, b), TotalLess(b, c)} ::
        TotalLess(a, b) && TotalLess(b, c) ==> TotalLess(a, c);
  }

  /** `index_order`, by the loop: less, greater, or no difference. It reads past the end of a shorter second list. */
  method IndexOrder(lhs: Indices, rhs: Indices) returns (less: bool, decided: bool)
    requires |lhs| <= |rhs|
    ensures decided <==> lhs != rhs
    ensures decided ==> (less <==> IndexLess(lhs, rhs))
  {
    if |lhs| < |rhs| {
      return true, true;
    }
    for i := 0 to |lhs|
      invariant lhs[..i] == rhs[..i]
      invariant Lexicographic(lhs, rhs) == Lexicographic(lhs[i..], rhs[i..])
    {
      assert lhs[i..][1..] == lhs[i + 1..] && rhs[i..][1..] == rhs[i + 1..];
      if lhs[i] < rhs[i] {
        return true, true;
      } else if rhs[i] < lhs[i] {
        return false, true;
      }
    }
    assert lhs == rhs;
    return false, false;
  }

  // ---- sets of checks ----

  function Keys(s: seq<Check>): seq<Indices> {
    seq(|s|, i requires 0 <= i < |s| => s[i].indices)
  }

  /** Sorted by indices, with no list of indices twice. */
  ghost predicate ConflictFree(s: seq<Check>) {
    IsSorted(IndexLess, Keys(s))
  }

  ghost predicate AllOfLength(s: seq<Check>, n: nat) {
    forall c :: c in s ==> |c.indices| == n
  }

  /** Each side's facts that the other does not contradict. */
  ghost function Joined(this_: set<Check>, other: set<Check>): set<Check> {
    set c | c in this_ + other && ((c in this_ && Negation(c) !in other) || (c in other && Negation(c) !in this_))
  }

  lemma JoinedStep(this_: set<Check>, other: set<Check>, v: Check)
    requires v !in other && Negation(v) !in other && !(v in this_ && Negation(v) in this_)
    ensures Joined(this_, other + {v})
         == if Negation(v) in Joined(this_, other) then Joined(this_, other) - {Negation(v)}
            else Joined(this_, other) + {v}
  {
    assert Negation(Negation(v)) == v;
    var more := Joined(this_, other + {v});
    forall c ensures c in more <==>
                       if Negation(v) in this_ then c in Joined(this_, other) && c != Negation(v)
                       else c in Joined(this_, other) || c == v
    {
      assert Negation(Negation(c)) == c;
    }
  }

  /** Equal elements have equal indices, so an element's indices place it. */
  lemma KeyAt(s: seq<Check>, c: Check)
    requires ConflictFree(s) && c in s
    ensures c.indices in Keys(s) && Negation(c) !in s
  {
    IndexLessIsOrder();
    var i :| 0 <= i < |s| && s[i] == c;
    assert Keys(s)[i] == c.indices;
    forall j | 0 <= j < |s| ensures s[j] != Negation(c) {
      assert if i < j then IndexLess(Keys(s)[i], Keys(s)[j]) else i == j || IndexLess(Keys(s)[j], Keys(s)[i]);
    }
  }

  lemma KeysInsert(s: seq<Check>, p: nat, v: Check)
    requires p <= |s|
    ensures Keys(s[..p] + [v] + s[p..]) == Keys(s)[..p] + [v.indices] + Keys(s)[p..]
    ensures Elements(s[..p] + [v] + s[p..]) == Elements(s) + {v}
  {
    assert s == s[..p] + s[p..];
  }

  lemma KeysErase(s: seq<Check>, p: nat)
    requires ConflictFree(s) && p < |s|
    ensures Keys(s[..p] + s[p + 1..]) == Keys(s)[..p] + Keys(s)[p + 1..]
    ensures ConflictFree(s[..p] + s[p + 1..]) && Elements(s[..p] + s[p + 1..]) == Elements(s) - {s[p]}
  {
    IndexLessIsOrder();
    var t := s[..p] + s[p + 1..];
    EraseSorted(IndexLess, Keys(s), p);
    assert Keys(t) == Keys(s)[..p] + Keys(s)[p + 1..];
    assert s == s[..p] + [s[p]] + s[p + 1..];
    forall i | 0 <= i < |t| ensures t[i] != s[p] {
      assert Keys(t)[i] in Elements(Keys(t));
    }
  }

  /** How far a join has come: `k` checks of `other` have been merged, and lie before `it`. */
  ghost predicate Merged(was: seq<Check>, checks: seq<Check>, it: nat, other: seq<Check>, k: nat) {
    && ConflictFree(checks) && it <= |checks| && k <= |other|
    && Elements(checks) == Joined(Elements(was), Elements(other[..k]))
    && forall i, m :: 0 <= i < it && k <= m < |other| ==> ConflictLess(checks[i], other[m])
  }

  lemma NextCheck(other: seq<Check>, k: nat)
    requires ConflictFree(other) && k < |other|
    ensures Elements(other[..k + 1]) == Elements(other[..k]) + {other[k]}
    ensures other[k] !in Elements(other[..k]) && Negation(other[k]) !in Elements(other[..k])
    ensures forall m :: k < m < |other| ==> ConflictLess(other[k], other[m])
  {
    assert other[..k + 1] == other[..k] + [other[k]];
    forall i | 0 <= i < k ensures other[i].indices != other[k].indices {
      assert IndexLess(Keys(other)[i], Keys(other)[k]);
      IndexLessIsOrder();
    }
    forall m | k < m < |other| ensures ConflictLess(other[k], other[m]) {
      assert IndexLess(Keys(other)[k], Keys(other)[m]);
    }
  }

  /** What a binary search among the checks from `it` on finds. */
  lemma SearchRange(checks: seq<Check>, it: nat, v: Check)
    requires ConflictFree(checks) && it <= |checks|
    requires forall i :: 0 <= i < it ==> ConflictLess(checks[i], v)
    ensures var lower, upper := LowerBound(IndexLess, Keys(checks), it, v.indices),
        UpperBound(IndexLess, Keys(checks), it, v.indices);
      && (lower == upper || (upper == lower + 1 && checks[lower].indices == v.indices))
      && (lower == upper ==> v !in checks && Negation(v) !in checks)
      && (forall i :: 0 <= i < lower ==> ConflictLess(checks[i], v))
      && (forall i :: upper <= i < |checks| ==> ConflictLess(v, checks[i]))
  {
    IndexLessIsOrder();
    var keys := Keys(checks);
    var lower, upper := LowerBound(IndexLess, keys, it, v.indices), UpperBound(IndexLess, keys, it, v.indices);
    EqualRange(IndexLess, keys, it, v.indices);
    forall i | 0 <= i < lower ensures ConflictLess(checks[i], v) {
      assert i >= it ==> IndexLess(keys[i], v.indices);
    }
    forall i | upper <= i < |checks| ensures ConflictLess(v, checks[i]) {
      assert IndexLess(v.indices, keys[i]);
    }
    if lower == upper {
      assert forall i :: 0 <= i < |checks| ==> checks[i].indices != v.indices;
    }
  }

  /** No check between `it` and the end has the indices of the next one: it is inserted. */
  lemma MergeInsert(was: seq<Check>, checks: seq<Check>, it: nat, other: seq<Check>, k: nat, upper: nat)
    requires ConflictFree(was) && ConflictFree(other) && k < |other| && Merged(was, checks, it, other, k)
    requires it <= upper <= |checks| && other[k] !in checks && Negation(other[k]) !in checks
    requires forall i :: 0 <= i < upper ==> ConflictLess(checks[i], other[k])
    requires forall i :: upper <= i < |checks| ==> ConflictLess(other[k], checks[i])
    ensures Merged(was, checks[..upper] + [other[k]] + checks[upper..], upper + 1, other, k + 1)
  {
    var v := other[k];
    NextCheck(other, k);
    Unrepeated(was, v);
    JoinedStep(Elements(was), Elements(other[..k]), v);
    KeysInsert(checks, upper, v);
    InsertSorted(IndexLess, Keys(checks), upper, v.indices);
    IndexLessIsOrder();
  }

  /** The negation of the next check is there: it goes. */
  lemma MergeErase(was: seq<Check>, checks: seq<Check>, it: nat, other: seq<Check>, k: nat, lower: nat)
    requires ConflictFree(was) && ConflictFree(other) && k < |other| && Merged(was, checks, it, other, k)
    requires it <= lower < |checks| && checks[lower] == Negation(other[k])
    requires forall i :: 0 <= i < lower ==> ConflictLess(checks[i], other[k])
    ensures Merged(was, checks[..lower] + checks[lower + 1..], lower, other, k + 1)
  {
    var v := other[k];
    NextCheck(other, k);
    Unrepeated(was, v);
    JoinedStep(Elements(was), Elements(other[..k]), v);
    KeysErase(checks, lower);
    IndexLessIsOrder();
  }

  /** The next check is there: nothing changes. */
  lemma MergeKeep(was: seq<Check>, checks: seq<Check>, it: nat, other: seq<Check>, k: nat, lower: nat)
    requires ConflictFree(was) && ConflictFree(other) && k < |other| && Merged(was, checks, it, other, k)
    requires it <= lower < |checks| && checks[lower] == other[k]
    requires forall i :: 0 <= i < lower ==> ConflictLess(checks[i], other[k])
    ensures Merged(was, checks, lower + 1, other, k + 1)
  {
    var v := other[k];
    NextCheck(other, k);
    Unrepeated(was, v);
    JoinedStep(Elements(was), Elements(other[..k]), v);
    KeyAt(checks, v);
    IndexLessIsOrder();
  }

  lemma Unrepeated(s: seq<Check>, c: Check)
    requires ConflictFree(s)
    ensures !(c in Elements(s) && Negation(c) in Elements(s))
  {
    if c in s {
      KeyAt(s, c);
    }
  }

  /** Merging one more check: it is inserted, cancels its negation, or is there already. */
  lemma MergeNext(was: seq<Check>, checks: seq<Check>, it: nat, other: seq<Check>, k: nat)
    requires ConflictFree(was) && ConflictFree(other) && k < |other| && Merged(was, checks, it, other, k)
    ensures var v := other[k];
      var lower, upper := LowerBound(IndexLess, Keys(checks), it, v.indices),
          UpperBound(IndexLess, Keys(checks), it, v.indices);
      if lower == upper then Merged(was, checks[..upper] + [v] + checks[upper..], upper + 1, other, k + 1)
      else upper == lower + 1
           && if checks[lower].negated != v.negated
               then Merged(was, checks[..lower] + checks[lower + 1..], lower, other, k + 1)
              else Merged(was, checks, upper, other, k + 1)
  {
    var v := other[k];
    var lower, upper := LowerBound(IndexLess, Keys(checks), it, v.indices),
        UpperBound(IndexLess, Keys(checks), it, v.indices);
    SearchRange(checks, it, v);
    if lower == upper {
      MergeInsert(was, checks, it, other, k, upper);
    } else if checks[lower].negated != v.negated {
      MergeErase(was, checks, it, other, k, lower);
    } else {
      MergeKeep(was, checks, it, other, k, lower);
    }
  }

  // ---- meet ----

  /** Sorted by indices is sorted by indices and negation. */
  lemma ConflictFreeIsSorted(s: seq<Check>)
    requires ConflictFree(s)
    ensures IsSorted(TotalLess, s)
  {
    forall i, j | 0 <= i < j < |s| ensures TotalLess(s[i], s[j]) {
      assert IndexLess(Keys(s)[i], Keys(s)[j]);
    }
  }

  /** The merge has gone through `i` and `j` checks and kept those common to both. */
  ghost predicate Common(a: seq<Check>, i: nat, b: seq<Check>, j: nat, both: seq<Check>) {
    && i <= |a| && j <= |b| && ConflictFree(both)
    && Elements(both) == Elements(a[..i]) * Elements(b[..j])
    && (forall m, k :: 0 <= m < i && j <= k < |b| ==> TotalLess(a[m], b[k]))
    && (forall m, k :: 0 <= m < j && i <= k < |a| ==> TotalLess(b[m], a[k]))
  }

  lemma CommonSkip(a: seq<Check>, i: nat, b: seq<Check>, j: nat, both: seq<Check>)
    requires ConflictFree(a) && ConflictFree(b) && Common(a, i, b, j, both) && i < |a| && j < |b|
    ensures TotalLess(a[i], b[j]) ==> Common(a, i + 1, b, j, both)
    ensures TotalLess(b[j], a[i]) ==> Common(a, i, b, j + 1, both)
  {
    TotalLessIsOrder();
    ConflictFreeIsSorted(a);
    ConflictFreeIsSorted(b);
    NextCheck(a, i);
    NextCheck(b, j);
    assert forall x :: x in a[..i] ==> TotalLess(x, b[j]);
    assert forall x :: x in b[..j] ==> TotalLess(x, a[i]);
  }

  lemma CommonKeep(a: seq<Check>, i: nat, b: seq<Check>, j: nat, both: seq<Check>)
    requires ConflictFree(a) && ConflictFree(b) && Common(a, i, b, j, both) && i < |a| && j < |b| && a[i] == b[j]
    ensures Common(a, i + 1, b, j + 1, both + [a[i]])
  {
    TotalLessIsOrder();
    ConflictFreeIsSorted(a);
    ConflictFreeIsSorted(b);
    NextCheck(a, i);
    NextCheck(b, j);
    var n := |both|;
    forall m | 0 <= m < n ensures IndexLess(Keys(both)[m], a[i].indices) {
      assert both[m] in Elements(both);
      var p :| 0 <= p < i && a[p] == both[m];
      assert IndexLess(Keys(a)[p], Keys(a)[i]);
    }
    KeysInsert(both, n, a[i]);
    InsertSorted(IndexLess, Keys(both), n, a[i].indices);
    assert both[..n] + [a[i]] + both[n..] == both + [a[i]];
    BothGrow(Elements(a[..i]), Elements(b[..j]), a[i]);
  }

  lemma BothGrow(a: set<Check>, b: set<Check>, x: Check)
    ensures (a + {x}) * (b + {x}) == a * b + {x}
  {
  }

  /** As many distinct checks as positions. */
  lemma {:induction false} CountElements(s: seq<Check>)
    requires ConflictFree(s)
    ensures |Elements(s)| == |s|
  {
    if s != [] {
      var n := |s| - 1;
      NextCheck(s, n);
      assert s[..n + 1] == s;
      assert Keys(s[..n]) == Keys(s)[..n];
      CountElements(s[..n]);
    }
  }

  lemma SameSizeSameSet(part: set<Check>, whole: set<Check>)
    requires part <= whole && |part| == |whole|
    ensures part == whole
  {
    assert whole == part + (whole - part);
  }

  /** `std::set_intersection`: the common elements of two sorted ranges. */
  method StdIntersection(a: seq<Check>, b: seq<Check>, ghost n: nat) returns (both: seq<Check>)
    requires ConflictFree(a) && ConflictFree(b) && AllOfLength(a, n) && AllOfLength(b, n)
    ensures ConflictFree(both) && Elements(both) == Elements(a) * Elements(b)
  {
    var i: nat, j: nat := 0, 0;
    both := [];
    TotalLessIsOrder();
    while i < |a| && j < |b|
      invariant Common(a, i, b, j, both)
      decreases |a| - i + |b| - j
    {
      CommonSkip(a, i, b, j, both);
      if TotalLess(a[i], b[j]) {
        i := i + 1;
      } else if TotalLess(b[j], a[i]) {
        j := j + 1;
      } else {
        CommonKeep(a, i, b, j, both);
        both := both + [a[i]];
        i, j := i + 1, j + 1;
      }
    }
    RestIsNotCommon(a, i, b, j);
  }

  /** When one range is used up, what is left of the other has nothing in common with it. */
  lemma RestIsNotCommon(a: seq<Check>, i: nat, b: seq<Check>, j: nat)
    requires i <= |a| && j <= |b| && (i == |a| || j == |b|)
    requires forall m, k :: 0 <= m < i && j <= k < |b| ==> TotalLess(a[m], b[k])
    requires forall m, k :: 0 <= m < j && i <= k < |a| ==> TotalLess(b[m], a[k])
    ensures Elements(a[..i]) * Elements(b[..j]) == Elements(a) * Elements(b)
  {
    TotalLessIsOrder();
    forall x | x in a && x in b ensures x in a[..i] && x in b[..j] {
      var m :| 0 <= m < |a| && a[m] == x;
      var k :| 0 <= k < |b| && b[k] == x;
      assert m < i && k < j;
      assert a[..i][m] == x && b[..j][k] == x;
    }
  }

  class BoundsCheckSet {
    var checks: seq<Check>

    ghost predicate Valid()
      reads this
    {
      ConflictFree(checks)
    }

    constructor ()
      ensures Valid() && checks == []
    {
      checks := [];
    }

    /** Keeps exactly the facts of either side that the other does not contradict; says by how much the set grew. */
    method Join(other: seq<Check>, ghost n: nat) returns (difference: int)
      requires Valid() && ConflictFree(other) && AllOfLength(checks, n) && AllOfLength(other, n)
      modifies this
      ensures Valid() && Elements(checks) == Joined(old(Elements(checks)), Elements(other))
      ensures difference == |checks| - old(|checks|)
    {
      var originalSize := |checks|;
      var it: nat := 0;
      NothingMerged(checks);
      for k := 0 to |other|
        invariant Merged(old(checks), checks, it, other, k)
      {
        var v := other[k];
        var lower, upper := LowerBound(IndexLess, Keys(checks), it, v.indices),
            UpperBound(IndexLess, Keys(checks), it, v.indices);
        MergeNext(old(checks), checks, it, other, k);
        if lower == upper {
          checks := checks[..upper] + [v] + checks[upper..];
          it := upper + 1;
        } else if checks[lower].negated != v.negated {
          checks := checks[..lower] + checks[lower + 1..];
          it := lower;
        } else {
          it := upper;
        }
      }
      assert other[..|other|] == other;
      difference := |checks| - originalSize;
    }

    /** Keeps exactly the facts of both sides; says by how much the set grew, which is zero only if nothing changed. */
    method Meet(other: seq<Check>, ghost n: nat) returns (difference: int)
      requires Valid() && ConflictFree(other) && AllOfLength(checks, n) && AllOfLength(other, n)
      modifies this
      ensures Valid() && Elements(checks) == old(Elements(checks)) * Elements(other)
      ensures difference == |checks| - old(|checks|) && (difference != 0 <==> checks != old(checks))
    {
      var intersection := StdIntersection(checks, other, n);
      difference := |intersection| - |checks|;
      CountElements(intersection);
      CountElements(checks);
      if difference == 0 {
        SameSizeSameSet(Elements(intersection), Elements(checks));
        return;
      }
      checks := intersection;
    }

    lemma NothingMerged(checks: seq<Check>)
      requires ConflictFree(checks)
      ensures Joined(Elements(checks), Elements<Check>([])) == Elements(checks)
    {
    }
  }
}
