/** Exponentiation by repeated squaring, integer n-th roots by binary search,
    and the perfect-square / perfect-power tests built on them. Every
    algorithm is proved against the reference `Integers.Pow`.
 */
module Exponent {
  import opened Integers

  /** `b` raised to `e` by repeated squaring: square the base, halve the
      exponent, and multiply the base back in when the exponent is odd. */
  function PowBySquaring(b: int, e: nat): (r: int)
    ensures r == Pow(b, e)
    decreases e
  {
    if e == 0 then 1
    else
      var half := PowBySquaring(b * b, e / 2);
      PowSquare(b, e / 2);
      if e % 2 == 0 then half
      else
        assert Pow(b, e) == b * Pow(b, 2 * (e / 2));
        b * half
  }

  /** The sign rule of the result: negative exactly when the base is
      negative and the exponent odd; `e == 0` gives 1 for every base. */
  lemma PowBySquaringSign(b: int, e: nat)
    ensures PowBySquaring(b, e) < 0 <==> b < 0 && e % 2 == 1
    ensures e == 0 ==> PowBySquaring(b, e) == 1
  {
    PowNegativeIff(b, e);
  }
}

module Roots {
  import opened Integers

  /** `r` is the integer n-th root of the magnitude `a`. */
  predicate IsFloorRoot(a: nat, n: nat, r: nat) {
    Pow(r, n) <= a < Pow(r + 1, n)
  }

  /** Binary search for the n-th root of `a` in `[lo, hi)`. */
  function RootSearch(a: nat, n: nat, lo: nat, hi: nat): (r: nat)
    requires n >= 1 && lo < hi
    requires Pow(lo, n) <= a < Pow(hi, n)
    ensures IsFloorRoot(a, n, r)
    decreases hi - lo
  {
    if lo + 1 == hi then lo
    else
      var mid := (lo + hi) / 2;
      if Pow(mid, n) <= a then RootSearch(a, n, mid, hi)
      else RootSearch(a, n, lo, mid)
  }

  /** Integer n-th root of a magnitude: the largest `r` with `r^n <= a`. */
  function FloorRoot(a: nat, n: nat): (r: nat)
    requires n >= 1
    ensures IsFloorRoot(a, n, r)
  {
    PowZeroBase(n);
    PowAtLeastBase(a + 1, n);
    RootSearch(a, n, 0, a + 1)
  }

  /** The n-th root of a magnitude is unique. */
  lemma {:induction false} FloorRootUnique(a: nat, n: nat, r: nat)
    requires n >= 1
    ensures IsFloorRoot(a, n, r) <==> r == FloorRoot(a, n)
  {
    var s := FloorRoot(a, n);
    if IsFloorRoot(a, n, r) && r != s {
      if r < s {
        PowMonotone(r + 1, s, n);
      } else {
        PowMonotone(s + 1, r, n);
      }
      assert false;
    }
  }

  /** A magnitude has root 0 exactly when it is 0. */
  lemma FloorRootZero(a: nat, n: nat)
    requires n >= 1
    ensures FloorRoot(a, n) == 0 <==> a == 0
  {
    PowOneBase(n);
    PowZeroBase(n);
    var r := FloorRoot(a, n);
    if r > 0 {
      PowAtLeastBase(r, n);
    }
  }

  /** The n-th root of `|b|^n` is `|b|`. */
  lemma FloorRootOfPower(b: int, n: nat)
    requires n >= 1
    ensures FloorRoot(Abs(Pow(b, n)), n) == Abs(b)
  {
    PowAbs(b, n);
    PowStrictMonotone(Abs(b), Abs(b) + 1, n);
    FloorRootUnique(Abs(Pow(b, n)), n, Abs(b));
  }

  /** `x` is a perfect square: non-negative and `r^2` for some `r`. */
  predicate IsPerfectSquare(x: int) {
    x >= 0 && Pow(FloorRoot(x, 2), 2) == x
  }

  /** Independent statement of perfect squareness. */
  ghost predicate IsSquareOfSome(x: int) {
    exists r: int :: Pow(r, 2) == x
  }

  lemma PerfectSquareCorrect(x: int)
    ensures IsPerfectSquare(x) <==> IsSquareOfSome(x)
  {
    if IsPerfectSquare(x) {
      assert Pow(FloorRoot(x, 2), 2) == x;
    }
    if IsSquareOfSome(x) {
      var r: int :| Pow(r, 2) == x;
      PowNegativeIff(r, 2);
      FloorRootOfPower(r, 2);
      PowAbs(r, 2);
    }
  }

  /** `e` witnesses that `x` is an e-th power: the root of `|x|` raised to
      `e` gives `|x|` back, and a negative `x` needs an odd `e`. */
  predicate IsExactPower(x: int, e: nat)
    requires e >= 1
  {
    (x >= 0 || e % 2 == 1) && Pow(FloorRoot(Abs(x), e), e) == Abs(x)
  }

  /** Whether some exponent in `[e, maxE]` witnesses that `x` is a power. */
  predicate HasExactPowerFrom(x: int, e: nat, maxE: nat)
    requires e >= 2
    decreases maxE - e + 1
  {
    if e > maxE then false
    else IsExactPower(x, e) || HasExactPowerFrom(x, e + 1, maxE)
  }

  /** Perfect-power test: -1, 0 and 1 are powers; otherwise try every
      exponent from 2 up to the bit length of `|x|`. */
  predicate IsPerfectPower(x: int) {
    if -1 <= x <= 1 then true
    else HasExactPowerFrom(x, 2, BitLength(Abs(x)))
  }

  /** Independent statement of perfect-powerness: `x == b^e` with `e >= 2`. */
  ghost predicate IsPowerOfSome(x: int) {
    exists b: int, e: nat :: e >= 2 && Pow(b, e) == x
  }

  lemma ExactPowerWitness(x: int, e: nat)
    requires e >= 2 && IsExactPower(x, e)
    ensures IsPowerOfSome(x)
  {
    var r: int := FloorRoot(Abs(x), e);
    var b: int := if x >= 0 then r else -r;
    if x < 0 {
      PowNegatedBase(r, e);
    }
    assert Pow(b, e) == x;
  }

  lemma {:induction false} HasExactPowerFromSound(x: int, e: nat, maxE: nat)
    requires e >= 2
    requires HasExactPowerFrom(x, e, maxE)
    ensures IsPowerOfSome(x)
    decreases maxE - e + 1
  {
    if IsExactPower(x, e) {
      ExactPowerWitness(x, e);
    } else {
      HasExactPowerFromSound(x, e + 1, maxE);
    }
  }

  lemma {:induction false} HasExactPowerFromComplete(x: int, lo: nat, e: nat, maxE: nat)
    requires 2 <= lo <= e <= maxE
    requires IsExactPower(x, e)
    ensures HasExactPowerFrom(x, lo, maxE)
    decreases e - lo
  {
    if lo < e {
      HasExactPowerFromComplete(x, lo + 1, e, maxE);
    }
  }

  /** The perfect-power test answers exactly the question "is `x == b^e`
      for some integer `b` and some `e >= 2`". */
  lemma PerfectPowerCorrect(x: int)
    ensures IsPerfectPower(x) <==> IsPowerOfSome(x)
  {
    if -1 <= x <= 1 {
      if x == -1 {
        assert Pow(-1, 3) == -1;
      } else {
        assert Pow(x, 2) == x;
      }
    } else {
      var maxE := BitLength(Abs(x));
      if IsPerfectPower(x) {
        HasExactPowerFromSound(x, 2, maxE);
      }
      if IsPowerOfSome(x) {
        var b: int, e: nat :| e >= 2 && Pow(b, e) == x;
        PowAbs(b, e);
        if -1 <= b <= 1 {
          PowSmallBase(b, e);
          assert false;
        }
        // |x| = |b|^e >= 2^e, and |x| < 2^maxE, so e < maxE.
        PowMonotone(2, Abs(b), e);
        BitLengthBound(Abs(x));
        if e > maxE {
          PowMonotoneExp(2, maxE, e);
          assert false;
        }
        FloorRootOfPower(b, e);
        PowNegativeIff(b, e);
        assert IsExactPower(x, e);
        HasExactPowerFromComplete(x, 2, e, maxE);
      }
    }
  }
}
