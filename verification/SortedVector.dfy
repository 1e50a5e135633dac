/** The sorted vector, which holds each value once, and its set algebra in place. */
module SortedVector {
  import opened Sorted

  class SortedVector<T(==,!new)> {
    const less: Less<T>
    var elems: seq<T>

    ghost predicate Valid()
      reads this
    {
      IsOrder(less) && IsSorted(less, elems)
    }

    constructor (less: Less<T>)
      requires IsOrder(less)
      ensures Valid() && this.less == less && elems == []
    {
      this.less := less;
      elems := [];
    }

    method Insert(val: T) returns (inserted: bool)
      requires Valid()
      modifies `elems
      ensures Valid() && Elements(elems) == old(Elements(elems)) + {val}
      ensures inserted <==> val !in old(Elements(elems))
    {
      var lower, upper := LowerBound(less, elems, 0, val), UpperBound(less, elems, 0, val);
      EqualRange(less, elems, 0, val);
      assert elems[0..] == elems;
      if lower == upper {
        InsertSorted(less, elems, lower, val);
        elems := elems[..lower] + [val] + elems[lower..];
        return true;
      }
      return false;
    }

    method SetUnion(other: seq<T>) returns (modified: bool)
      requires Valid() && IsSorted(less, other)
      modifies `elems
      ensures Valid() && Elements(elems) == old(Elements(elems)) + Elements(other)
      ensures modified <==> elems != old(elems)
    {
      modified := false;
      var it: nat := 0;
      for k := 0 to |other|
        invariant Valid() && it <= |elems|
        invariant Elements(elems) == old(Elements(elems)) + Elements(other[..k])
        invariant k < |other| ==> forall i :: 0 <= i < it ==> less(elems[i], other[k])
        invariant modified <==> |elems| > |old(elems)|
        invariant !modified ==> elems == old(elems)
      {
        var val := other[k];
        var lower, upper := LowerBound(less, elems, it, val), UpperBound(less, elems, it, val);
        EqualRange(less, elems, it, val);
        OneMore(other, k);
        if lower == upper {
          InsertSorted(less, elems, upper, val);
          elems := elems[..upper] + [val] + elems[upper..];
          it := upper + 1;
          modified := true;
        } else {
          assert val in elems;
          it := upper;
        }
        assert k + 1 < |other| ==> less(val, other[k + 1]);
      }
      assert other[..|other|] == other;
    }

    method SetIntersection(other: seq<T>) returns (modified: bool)
      requires Valid() && IsSorted(less, other)
      modifies `elems
      ensures Valid() && Elements(elems) == old(Elements(elems)) * Elements(other)
      ensures modified <==> elems != old(elems)
    {
      modified := false;
      var it: nat := 0;
      ghost var seen := 0;
      while it != |elems|
        invariant Valid() && it <= |elems| && seen <= |old(elems)| && elems[it..] == old(elems)[seen..]
        invariant Elements(elems[..it]) == Elements(old(elems)[..seen]) * Elements(other)
        invariant if modified then |elems| < |old(elems)| else elems == old(elems)
        decreases |elems| - it
      {
        var val := elems[it];
        var lower, upper := LowerBound(less, other, 0, val), UpperBound(less, other, 0, val);
        EqualRange(less, other, 0, val);
        assert other[0..] == other;
        assert val == elems[it..][0] == old(elems)[seen..][0] == old(elems)[seen];
        OneMore(old(elems), seen);
        OneMore(elems, it);
        if lower == upper {
          EraseSorted(less, elems, it);
          ghost var before := elems;
          elems := elems[..it] + elems[it + 1..];
          assert elems[..it] == before[..it] && elems[it..] == before[it..][1..];
          modified := true;
        } else {
          assert elems[it + 1..] == elems[it..][1..];
          it := it + 1;
        }
        assert old(elems)[seen + 1..] == old(elems)[seen..][1..];
        seen := seen + 1;
      }
      assert old(elems)[seen..] == [];
      assert elems[..it] == elems && old(elems)[..seen] == old(elems);
    }

    /**
      Takes away what occurs in `other`. Not `ok` means that the loop went past the end of
      `other`, which it does unless some element of `other` is as great as the last one here.
     */
    method SetDifference(other: seq<T>) returns (ok: bool, modified: bool)
      requires Valid() && IsSorted(less, other)
      modifies `elems
      ensures ok <==> old(elems) == [] || (other != [] && !less(other[|other| - 1], old(elems)[|old(elems)| - 1]))
      ensures ok ==> Valid() && Elements(elems) == old(Elements(elems)) - Elements(other)
      ensures ok ==> (modified <==> elems != old(elems))
    {
      modified := false;
      var it: nat, oit: nat := 0, 0;
      assert Elements(other[..0]) == {};
      while it != |elems|
        invariant Halfway(less, old(elems), elems, it, other, oit)
        invariant if modified then |elems| < |old(elems)| else elems == old(elems)
        decreases |other| - oit
      {
        if oit == |other| {
          return false, modified;
        }
        var val := other[oit];
        var lower, upper := LowerBound(less, elems, it, val), UpperBound(less, elems, it, val);
        OneTaken(less, old(elems), elems, it, other, oit);
        if lower != upper {
          elems := elems[..lower] + elems[upper..];
          it := lower;
          modified := true;
        } else {
          it := upper;
        }
        oit := oit + 1;
      }
      NothingLeft(less, old(elems), other, oit);
      return true, modified;
    }
  }

  /** The elements before `it` are less than what is still to come in `other`. */
  ghost predicate Passed<T(!new)>(less: Less<T>, elems: seq<T>, it: nat, other: seq<T>, oit: nat) {
    forall i, m :: 0 <= i < it && i < |elems| && oit <= m < |other| ==> less(elems[i], other[m])
  }

  /** The first `oit` elements of `other` have been taken away, and the last element reached if `it` is at the end. */
  ghost predicate Halfway<T(!new)>(less: Less<T>, was: seq<T>, elems: seq<T>, it: nat, other: seq<T>, oit: nat) {
    && IsSorted(less, elems) && it <= |elems| && oit <= |other|
    && Elements(elems) == Elements(was) - Elements(other[..oit])
    && Passed(less, elems, it, other, oit)
    && (if it < |elems| then
          && was != [] && elems[|elems| - 1] == was[|was| - 1]
          && (oit > 0 ==> less(other[oit - 1], elems[|elems| - 1]))
        else was == [] || (oit > 0 && !less(other[oit - 1], was[|was| - 1])))
  }

  /** The next element of `other` is found and erased. */
  lemma Erased<T(!new)>(less: Less<T>, was: seq<T>, elems: seq<T>, it: nat, other: seq<T>, oit: nat, p: nat)
    requires IsOrder(less) && IsSorted(less, other) && Halfway(less, was, elems, it, other, oit)
    requires it <= p < |elems| && oit < |other| && elems[p] == other[oit]
    ensures Halfway(less, was, elems[..p] + elems[p + 1..], p, other, oit + 1)
  {
    EraseSorted(less, elems, p);
    OneMore(other, oit);
    forall i, m | 0 <= i < p && oit + 1 <= m < |other| ensures less(elems[i], other[m]) {
      assert less(elems[i], elems[p]) && less(other[oit], other[m]);
    }
  }

  /** The next element of `other` is not found. */
  lemma NotFound<T(!new)>(less: Less<T>, was: seq<T>, elems: seq<T>, it: nat, other: seq<T>, oit: nat, upper: nat)
    requires IsOrder(less) && IsSorted(less, other) && Halfway(less, was, elems, it, other, oit)
    requires it < |elems| && oit < |other| && it <= upper <= |elems|
    requires other[oit] !in elems[it..] && (forall i :: it <= i < upper ==> !less(other[oit], elems[i]))
    requires forall i :: upper <= i < |elems| ==> less(other[oit], elems[i])
    ensures Halfway(less, was, elems, upper, other, oit + 1)
  {
    OneMore(other, oit);
    forall i | 0 <= i < upper ensures less(elems[i], other[oit]) {
      if i >= it {
        assert elems[it..][i - it] == elems[i];
      }
    }
    assert forall m :: oit < m < |other| ==> less(other[oit], other[m]);
  }

  /** What comes later in `other` is greater than everything here. */
  lemma NothingLeft<T(!new)>(less: Less<T>, was: seq<T>, other: seq<T>, oit: nat)
    requires IsOrder(less) && IsSorted(less, was) && IsSorted(less, other) && oit <= |other|
    requires was == [] || (oit > 0 && !less(other[oit - 1], was[|was| - 1]))
    ensures Elements(was) - Elements(other[..oit]) == Elements(was) - Elements(other)
    ensures was == [] || (other != [] && !less(other[|other| - 1], was[|was| - 1]))
  {
    forall i, m | 0 <= i < |was| && oit <= m < |other| ensures less(was[i], other[m]) {
      assert less(other[oit - 1], other[m]);
      assert i < |was| - 1 ==> less(was[i], was[|was| - 1]);
    }
    forall x | x in was && x in other ensures x in other[..oit] {
      var i :| 0 <= i < |was| && was[i] == x;
      var m :| 0 <= m < |other| && other[m] == x;
      assert m < oit;
      assert other[..oit][m] == x;
    }
  }

  /** Taking away the next element of `other`, if it is there. */
  lemma OneTaken<T(!new)>(less: Less<T>, was: seq<T>, elems: seq<T>, it: nat, other: seq<T>, oit: nat)
    requires IsOrder(less) && IsSorted(less, other) && Halfway(less, was, elems, it, other, oit)
    requires it < |elems| && oit < |other|
    ensures var lower, upper := LowerBound(less, elems, it, other[oit]), UpperBound(less, elems, it, other[oit]);
      if lower != upper then
        |elems[..lower] + elems[upper..]| < |elems| &&
            Halfway(less, was, elems[..lower] + elems[upper..], lower, other, oit + 1)
      else Halfway(less, was, elems, upper, other, oit + 1)
  {
    var lower, upper := LowerBound(less, elems, it, other[oit]), UpperBound(less, elems, it, other[oit]);
    EqualRange(less, elems, it, other[oit]);
    if lower != upper {
      Erased(less, was, elems, it, other, oit, lower);
    } else {
      NotFound(less, was, elems, it, other, oit, upper);
    }
  }

  lemma OneMore<T>(s: seq<T>, k: nat)
    requires k < |s|
    ensures Elements(s[..k + 1]) == Elements(s[..k]) + {s[k]}
  {
    assert s[..k + 1] == s[..k] + [s[k]];
  }
}
