/** The bit trick that rounds a width to a power of two bytes, on numbers that do not overflow. */
module NextSize {
  import opened Powers

  function Or(a: nat, b: nat): nat
    decreases a + b
  {
    if a == 0 && b == 0 then 0
    else (if a % 2 == 1 || b % 2 == 1 then 1 else 0) + 2 * Or(a / 2, b / 2)
  }

  function ShiftRight(m: nat, k: nat): nat {
    if k == 0 then m else ShiftRight(m, k - 1) / 2
  }

  predicate Bit(m: nat, i: nat) {
    if i == 0 then m % 2 == 1 else Bit(m / 2, i - 1)
  }

  lemma {:induction false} OrBit(a: nat, b: nat, i: nat)
    ensures Bit(Or(a, b), i) <==> Bit(a, i) || Bit(b, i)
    decreases i
  {
    if a == 0 && b == 0 {
      ZeroBit(i);
    } else if i > 0 {
      OrBit(a / 2, b / 2, i - 1);
    }
  }

  lemma {:induction false} ZeroBit(i: nat)
    ensures !Bit(0, i)
  {
    if i > 0 {
      ZeroBit(i - 1);
    }
  }

  lemma {:induction false} ShiftBit(m: nat, k: nat, i: nat)
    ensures Bit(ShiftRight(m, k), i) <==> Bit(m, i + k)
    decreases k
  {
    if k > 0 {
      ShiftBit(m, k - 1, i + 1);
      assert Bit(ShiftRight(m, k - 1), i + 1) <==> Bit(ShiftRight(m, k - 1) / 2, i);
    }
  }

  /** Below 2^k, no bit from the k-th on is set; and if all others are, the number is 2^k - 1. */
  lemma {:induction false} AllOnes(m: nat, k: nat)
    requires forall i: nat :: Bit(m, i) <==> i < k
    ensures m == Pow2(k) - 1
    decreases k
  {
    assert Bit(m, 0) <==> 0 < k;
    if k > 0 {
      forall i: nat ensures Bit(m / 2, i) <==> i < k - 1 {
        assert Bit(m, i + 1) <==> i + 1 < k;
      }
      AllOnes(m / 2, k - 1);
    } else {
      NoBits(m);
    }
  }

  lemma {:induction false} NoBits(m: nat)
    requires forall i: nat :: !Bit(m, i)
    ensures m == 0
  {
    if m > 0 {
      assert !Bit(m, 0);
      forall i: nat ensures !Bit(m / 2, i) {
        assert !Bit(m, i + 1);
      }
      NoBits(m / 2);
    }
  }

  /** The top bit of a positive number. */
  lemma {:induction false} TopBit(m: nat, k: nat)
    requires Pow2(k) <= m < Pow2(k + 1)
    ensures Bit(m, k) && forall i :: i > k ==> !Bit(m, i)
    decreases k
  {
    if k == 0 {
      assert Pow2(1) == 2 * Pow2(0);
      forall i: nat | i > 0 ensures !Bit(m, i) {
        ZeroBit(i - 1);
      }
    } else {
      TopBit(m / 2, k - 1);
      forall i: nat | i > k ensures !Bit(m, i) {
        assert !Bit(m / 2, i - 1);
      }
    }
  }

  /** `m |= m >> 1; m |= m >> 2; m |= m >> 4`. */
  function Smear(m: nat): nat {
    var a := Or(m, ShiftRight(m, 1));
    var b := Or(a, ShiftRight(a, 2));
    Or(b, ShiftRight(b, 4))
  }

  /** One of the eight bits from the `i`-th on is set. */
  predicate AnyOfEight(m: nat, i: nat) {
    Bit(m, i) || Bit(m, i + 1) || Bit(m, i + 2) || Bit(m, i + 3)
    || Bit(m, i + 4) || Bit(m, i + 5) || Bit(m, i + 6) || Bit(m, i + 7)
  }

  /** Smearing sets every bit that has a set bit among the seven above it. */
  lemma SmearBit(m: nat, i: nat)
    ensures Bit(Smear(m), i) <==> AnyOfEight(m, i)
  {
    var a := Or(m, ShiftRight(m, 1));
    var b := Or(a, ShiftRight(a, 2));
    FirstSmear(m, i);
    FirstSmear(m, i + 2);
    FirstSmear(m, i + 4);
    FirstSmear(m, i + 6);
    SecondSmear(a, i);
    SecondSmear(a, i + 4);
    OrBit(b, ShiftRight(b, 4), i);
    ShiftBit(b, 4, i);
  }

  lemma FirstSmear(m: nat, i: nat)
    ensures Bit(Or(m, ShiftRight(m, 1)), i) <==> Bit(m, i) || Bit(m, i + 1)
  {
    OrBit(m, ShiftRight(m, 1), i);
    ShiftBit(m, 1, i);
  }

  lemma SecondSmear(a: nat, i: nat)
    ensures Bit(Or(a, ShiftRight(a, 2)), i) <==> Bit(a, i) || Bit(a, i + 2)
  {
    OrBit(a, ShiftRight(a, 2), i);
    ShiftBit(a, 2, i);
  }

  /** With its top bit among the lowest eight, a number smears to all ones up to there. */
  lemma SmearTop(m: nat, k: nat)
    requires k < 8 && Pow2(k) <= m < Pow2(k + 1)
    ensures Smear(m) == Pow2(k + 1) - 1
  {
    TopBit(m, k);
    forall i: nat ensures Bit(Smear(m), i) <==> i < k + 1 {
      SmearBit(m, i);
    }
    AllOnes(Smear(m), k + 1);
  }

  /** The exponent of the least power of two that is at least `x`. */
  function CeilLog(x: nat): (k: nat)
    requires x >= 1
    ensures Pow2(k) >= x && (k > 0 ==> Pow2(k - 1) < x)
  {
    Climb(x, 0)
  }

  function Climb(x: nat, k: nat): (r: nat)
    requires k > 0 ==> Pow2(k - 1) < x
    ensures r >= k && Pow2(r) >= x && (r > 0 ==> Pow2(r - 1) < x)
    decreases x - Pow2(k)
  {
    if Pow2(k) >= x then k else Climb(x, k + 1)
  }

  /** As the code computes it, on numbers that do not overflow. */
  function GetNextSize(n: nat): nat {
    if n < 8 then 8 else 8 * (Smear(n / 8 - 1) + 1)
  }

  /** Below 2056, eight times the least power of two that is at least n / 8 rounded down, and at least one. */
  lemma NextSizeIsPowerOfTwo(n: nat)
    requires n < 2056
    ensures GetNextSize(n) == 8 * Pow2(CeilLog(if n < 8 then 1 else n / 8))
    ensures n < 16 ==> GetNextSize(n) == 8
    ensures forall j :: Pow2(j) >= n / 8 ==> 8 * Pow2(j) >= GetNextSize(n)
  {
    var x := if n < 8 then 1 else n / 8;
    var k := CeilLog(x);
    assert Pow2(8) == 256 by {
      assert Pow2(4) == 16;
    }
    if x == 1 {
      assert Climb(1, 0) == 0;
    } else {
      if k > 8 {
        Pow2Mono(8, k - 1);
      }
      assert k > 0;
      SmearTop(x - 1, k - 1);
    }
    forall j: nat | Pow2(j) >= x ensures Pow2(j) >= Pow2(k) {
      if j < k {
        Pow2Mono(j, k - 1);
      }
      Pow2Mono(if j < k then j else k, j);
    }
  }

  lemma {:induction false} OnesBit(k: nat, i: nat)
    ensures Bit(Pow2(k) - 1, i) <==> i < k
    decreases k
  {
    if k == 0 {
      ZeroBit(i);
    } else if i > 0 {
      assert (Pow2(k) - 1) / 2 == Pow2(k - 1) - 1;
      OnesBit(k - 1, i - 1);
    }
  }

  lemma {:induction false} Pow2Bit(k: nat, i: nat)
    ensures Bit(Pow2(k), i) <==> i == k
    decreases k
  {
    if k == 0 {
      if i > 0 {
        ZeroBit(i - 1);
      }
    } else if i > 0 {
      Pow2Bit(k - 1, i - 1);
    }
  }

  /** The positions with a set bit among the eight from there on are those below the `j`-th. */
  ghost predicate CoveredBelow(m: nat, j: nat) {
    forall i: nat {:trigger AnyOfEight(m, i)} :: AnyOfEight(m, i) <==> i < j
  }

  /** When the size of `n` is eight times a given power of two. */
  lemma NextSizeIsPowerIff(n: nat, j: nat)
    requires n >= 8
    ensures GetNextSize(n) == 8 * Pow2(j) <==> CoveredBelow(n / 8 - 1, j)
  {
    var m := n / 8 - 1;
    if Smear(m) + 1 == Pow2(j) {
      forall i: nat ensures AnyOfEight(m, i) <==> i < j {
        SmearBit(m, i);
        OnesBit(j, i);
      }
    }
    if CoveredBelow(m, j) {
      forall i: nat ensures Bit(Smear(m), i) <==> i < j {
        SmearBit(m, i);
      }
      AllOnes(Smear(m), j);
    }
  }

  /** No eight bits in a row are clear below a set one. */
  ghost predicate NoGap(m: nat) {
    forall i: nat, k: nat {:trigger AnyOfEight(m, i), Bit(m, k)} :: i <= k && Bit(m, k) ==> AnyOfEight(m, i)
  }

  /** The size is a power of two bytes exactly when n / 8 - 1 has no gap of eight clear bits. */
  lemma NextSizeIsSomePowerIff(n: nat)
    requires n >= 8
    ensures (exists j :: GetNextSize(n) == 8 * Pow2(j)) <==> NoGap(n / 8 - 1)
  {
    var m := n / 8 - 1;
    if j: nat :| GetNextSize(n) == 8 * Pow2(j) {
      NextSizeIsPowerIff(n, j);
      forall i: nat, k: nat {:trigger AnyOfEight(m, i), Bit(m, k)} | i <= k && Bit(m, k) ensures AnyOfEight(m, i) {
        assert AnyOfEight(m, k);
      }
    }
    if NoGap(m) {
      var j := BitLength(m);
      forall i: nat ensures AnyOfEight(m, i) <==> i < j {
        if i < j {
          assert Bit(m, j - 1);
        }
      }
      NextSizeIsPowerIff(n, j);
    }
  }

  /** How many bits it takes to write `m`. */
  lemma BitLength(m: nat) returns (j: nat)
    ensures j > 0 ==> Bit(m, j - 1)
    ensures forall i: nat :: i >= j ==> !Bit(m, i)
    ensures Pow2(j) > m
  {
    if m == 0 {
      forall i: nat ensures !Bit(0, i) {
        ZeroBit(i);
      }
      return 0;
    }
    j := CeilLog(m + 1);
    TopBit(m, j - 1);
  }

  /** A lone bit eight or more bits up leaves a gap: from 2056 to 2063 the size is no power of two bytes. */
  lemma NextSizeFails(n: nat, k: nat, j: nat)
    requires k >= 8 && n / 8 == Pow2(k) + 1
    ensures GetNextSize(n) != 8 * Pow2(j)
  {
    forall i: nat | i < 8 ensures !Bit(Pow2(k), i) {
      Pow2Bit(k, i);
    }
    Pow2Bit(k, k);
    assert !AnyOfEight(Pow2(k), 0);
    assert !NoGap(Pow2(k));
    NextSizeIsSomePowerIff(n);
  }

  lemma {:induction false} OrAtLeast(a: nat, b: nat)
    ensures Or(a, b) >= a
    decreases a + b
  {
    if a != 0 || b != 0 {
      OrAtLeast(a / 2, b / 2);
    }
  }

  lemma SmearAtLeast(m: nat)
    ensures Smear(m) >= m
  {
    var a := Or(m, ShiftRight(m, 1));
    var b := Or(a, ShiftRight(a, 2));
    OrAtLeast(m, ShiftRight(m, 1));
    OrAtLeast(a, ShiftRight(a, 2));
    OrAtLeast(b, ShiftRight(b, 4));
  }

  lemma OnesAreFixed(k: nat)
    ensures Smear(Pow2(k) - 1) == Pow2(k) - 1
  {
    var smeared := Smear(Pow2(k) - 1);
    forall i: nat ensures Bit(smeared, i) <==> i < k {
      OnesThere(k, i);
      SmearBit(Pow2(k) - 1, i);
    }
    AllOnes(smeared, k);
  }

  /** Smearing changes a number unless it is all ones already. */
  lemma SmearFixedIff(m: nat)
    ensures Smear(m) >= m
    ensures Smear(m) == m <==> exists k :: m == Pow2(k) - 1
  {
    SmearAtLeast(m);
    if k: nat :| m == Pow2(k) - 1 {
      OnesAreFixed(k);
    }
    if Smear(m) == m {
      var j := BitLength(m);
      forall i: nat ensures Bit(m, i) <==> i < j {
        if i < j {
          FixedDown(m, i, j - 1);
        }
      }
      AllOnes(m, j);
    }
  }

  lemma OnesThere(k: nat, i: nat)
    ensures AnyOfEight(Pow2(k) - 1, i) <==> i < k
  {
    OnesBit(k, i);
    OnesBit(k, i + 1);
    OnesBit(k, i + 2);
    OnesBit(k, i + 3);
    OnesBit(k, i + 4);
    OnesBit(k, i + 5);
    OnesBit(k, i + 6);
    OnesBit(k, i + 7);
  }

  /** A smeared number has every bit below a set one. */
  lemma {:induction false} FixedDown(m: nat, i: nat, k: nat)
    requires Smear(m) == m && i <= k && Bit(m, k)
    ensures Bit(m, i)
    decreases k - i
  {
    if i < k {
      FixedDown(m, i + 1, k);
      SmearBit(m, i);
    }
  }

  /** The size is at least the width unless the width is a power of two bytes and some bits more. */
  lemma NextSizeSufficesIff(n: nat)
    ensures n <= GetNextSize(n) <==> n < 8 || n % 8 == 0 || n / 8 != Pow2(CeilLog(n / 8))
  {
    if n >= 8 {
      var x := n / 8;
      SmearFixedIff(x - 1);
      if k: nat :| x == Pow2(k) {
        if CeilLog(x) > k {
          Pow2Mono(k, CeilLog(x) - 1);
        } else {
          Pow2Mono(CeilLog(x), k);
        }
      }
      assert n == 8 * x + n % 8;
    }
  }
}
