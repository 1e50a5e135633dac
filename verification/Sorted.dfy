/** Strictly sorted sequences under a total order, and the positions that `std::equal_range` finds in them. */
module Sorted {

  type Less<!T> = (T, T) -> bool

  ghost predicate IsOrder<T(!new)>(less: Less<T>) {
    && (forall a :: !less(a, a))
    && (forall a, b, c {:trigger less(a, b), less(b, c)} :: less(a, b) && less(b, c) ==> less(a, c))
    && (forall a, b {:trigger less(a, b)} :: less(a, b) || less(b, a) || a == b)
  }

  ghost predicate IsSorted<T(!new)>(less: Less<T>, s: seq<T>) {
    forall i, j :: 0 <= i < j < |s| ==> less(s[i], s[j])
  }

  ghost function Elements<T>(s: seq<T>): set<T> {
    set x | x in s
  }

  /** The first position from `from` on whose element is not less than `v`. */
  function LowerBound<T(!new)>(less: Less<T>, s: seq<T>, from: nat, v: T): (r: nat)
    requires from <= |s|
    ensures from <= r <= |s| && forall i :: from <= i < r ==> less(s[i], v)
    ensures r < |s| ==> !less(s[r], v)
    decreases |s| - from
  {
    if from < |s| && less(s[from], v) then LowerBound(less, s, from + 1, v) else from
  }

  /** The first position from `from` on whose element is greater than `v`. */
  function UpperBound<T(!new)>(less: Less<T>, s: seq<T>, from: nat, v: T): (r: nat)
    requires from <= |s|
    ensures from <= r <= |s| && forall i :: from <= i < r ==> !less(v, s[i])
    ensures r < |s| ==> less(v, s[r])
    decreases |s| - from
  {
    if from < |s| && !less(v, s[from]) then UpperBound(less, s, from + 1, v) else from
  }

  /** Between the two bounds lies `v`, if it is there at all, and nothing else. */
  lemma EqualRange<T(!new)>(less: Less<T>, s: seq<T>, from: nat, v: T)
    requires IsOrder(less) && IsSorted(less, s) && from <= |s|
    ensures var lower, upper := LowerBound(less, s, from, v), UpperBound(less, s, from, v);
      && (lower == upper || (upper == lower + 1 && s[lower] == v))
      && (lower == upper <==> v !in s[from..])
      && (forall i :: upper <= i < |s| ==> less(v, s[i]))
  {
    var lower, upper := LowerBound(less, s, from, v), UpperBound(less, s, from, v);
    assert lower <= upper;
    if upper < |s| {
      assert forall i :: upper < i < |s| ==> less(s[upper], s[i]);
    }
    if lower < upper {
      assert s[lower] == v;
      assert s[from..][lower - from] == v;
      assert lower + 1 < |s| ==> less(s[lower], s[lower + 1]);
    }
    if v in s[from..] {
      var i :| 0 <= i < |s| - from && s[from..][i] == v;
      assert s[from + i] == v;
    }
  }

  lemma InsertSorted<T(!new)>(less: Less<T>, s: seq<T>, p: nat, v: T)
    requires IsSorted(less, s) && p <= |s|
    requires (forall i :: 0 <= i < p ==> less(s[i], v)) && forall i :: p <= i < |s| ==> less(v, s[i])
    ensures IsSorted(less, s[..p] + [v] + s[p..])
    ensures Elements(s[..p] + [v] + s[p..]) == Elements(s) + {v}
  {
    assert s == s[..p] + s[p..];
  }

  lemma EraseSorted<T(!new)>(less: Less<T>, s: seq<T>, p: nat)
    requires IsOrder(less) && IsSorted(less, s) && p < |s|
    ensures IsSorted(less, s[..p] + s[p + 1..])
    ensures Elements(s[..p] + s[p + 1..]) == Elements(s) - {s[p]}
  {
    var t := s[..p] + s[p + 1..];
    assert s == s[..p] + [s[p]] + s[p + 1..];
    forall x ensures x in t <==> x in s && x != s[p] {
      if x in t {
        var i :| 0 <= i < |t| && t[i] == x;
        var j := if i < p then i else i + 1;
        assert s[j] == x;
        assert if j < p then less(s[j], s[p]) else less(s[p], s[j]);
      }
    }
  }

  lemma NoElements<T>(s: seq<T>)
    ensures Elements(s) == {} <==> s == []
  {
    if s != [] {
      assert s[0] in Elements(s);
    }
  }

  /** Sorted sequences with the same elements are the same. */
  lemma {:induction false} SortedUnique<T(!new)>(less: Less<T>, a: seq<T>, b: seq<T>)
    requires IsOrder(less) && IsSorted(less, a) && IsSorted(less, b) && Elements(a) == Elements(b)
    ensures a == b
  {
    NoElements(a);
    NoElements(b);
    if a != [] {
      var m, n := |a| - 1, |b| - 1;
      assert a[m] in Elements(b) && b[n] in Elements(a);
      assert a[m] == b[n];
      EraseSorted(less, a, m);
      EraseSorted(less, b, n);
      assert a[..m] + a[m + 1..] == a[..m] && b[..n] + b[n + 1..] == b[..n];
      SortedUnique(less, a[..m], b[..n]);
      assert a == a[..m] + [a[m]] && b == b[..n] + [b[n]];
    }
  }
}
