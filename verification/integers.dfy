/** Reference definitions over the mathematical integers that the rest of the
    model states its contracts against: absolute value, the power function
    and the bit length of a magnitude, with the algebra the proofs need.
 */
module Integers {

  function Abs(x: int): nat {
    if x < 0 then -x else x
  }

  /** Reference power: `b` multiplied by itself `e` times, with `Pow(b, 0) == 1`. */
  function Pow(b: int, e: nat): int
    decreases e
  {
    if e == 0 then 1 else b * Pow(b, e - 1)
  }

  /** Number of binary digits of `a` (0 for 0). */
  function BitLength(a: nat): nat {
    if a == 0 then 0 else 1 + BitLength(a / 2)
  }

  lemma MulMonotone(a: int, b: int, x: int, y: int)
    requires 0 <= a <= b && 0 <= x <= y
    ensures a * x <= b * y
  {
    assert a * x <= a * y;
    assert a * y <= b * y;
  }

  lemma {:induction false} PowPositive(b: int, e: nat)
    requires b > 0
    ensures Pow(b, e) > 0
    decreases e
  {
    if e > 0 {
      PowPositive(b, e - 1);
    }
  }

  lemma {:induction false} PowNonNegative(b: int, e: nat)
    requires b >= 0
    ensures Pow(b, e) >= 0
    decreases e
  {
    if e > 0 {
      PowNonNegative(b, e - 1);
    }
  }

  lemma {:induction false} PowZeroBase(e: nat)
    requires e >= 1
    ensures Pow(0, e) == 0
  {
  }

  lemma {:induction false} PowOneBase(e: nat)
    ensures Pow(1, e) == 1
    decreases e
  {
    if e > 0 {
      PowOneBase(e - 1);
    }
  }

  /** For a positive base a positive power is at least the base. */
  lemma {:induction false} PowAtLeastBase(b: int, e: nat)
    requires b >= 1 && e >= 1
    ensures Pow(b, e) >= b
  {
    PowPositive(b, e - 1);
    MulMonotone(b, b, 1, Pow(b, e - 1));
  }

  lemma {:induction false} PowMonotone(a: int, b: int, e: nat)
    requires 0 <= a <= b
    ensures Pow(a, e) <= Pow(b, e)
    decreases e
  {
    if e > 0 {
      PowMonotone(a, b, e - 1);
      PowNonNegative(a, e - 1);
      MulMonotone(a, b, Pow(a, e - 1), Pow(b, e - 1));
    }
  }

  lemma MulStrictMonotone(a: int, b: int, c: int)
    requires a < b && c > 0
    ensures a * c < b * c
  {
  }

  /** Euclidean division of a value by a positive divisor. */
  lemma DivMod(a: int, b: int)
    requires b > 0
    ensures a == (a / b) * b + a % b && 0 <= a % b < b
  {
  }

  lemma MulNegate(x: int, y: int)
    ensures (-x) * y == -(x * y) && x * (-y) == -(x * y) && (-x) * (-y) == x * y
  {
  }

  lemma {:induction false} PowStrictMonotone(a: int, b: int, e: nat)
    requires 0 <= a < b && e >= 1
    ensures Pow(a, e) < Pow(b, e)
  {
    var pa, pb := Pow(a, e - 1), Pow(b, e - 1);
    PowMonotone(a, b, e - 1);
    PowNonNegative(a, e - 1);
    PowPositive(b, e - 1);
    MulMonotone(a, a, pa, pb);
    MulStrictMonotone(a, b, pb);
    assert Pow(a, e) == a * pa && Pow(b, e) == b * pb;
  }

  lemma {:induction false} PowMonotoneExp(b: int, m: nat, n: nat)
    requires b >= 1 && m <= n
    ensures Pow(b, m) <= Pow(b, n)
    decreases n
  {
    if m < n {
      PowMonotoneExp(b, m, n - 1);
      PowPositive(b, n - 1);
      MulMonotone(1, b, Pow(b, n - 1), Pow(b, n - 1));
    }
  }

  lemma {:induction false} PowAdd(b: int, m: nat, n: nat)
    ensures Pow(b, m + n) == Pow(b, m) * Pow(b, n)
    decreases m
  {
    if m > 0 {
      PowAdd(b, m - 1, n);
      assert Pow(b, m + n) == b * Pow(b, m - 1 + n);
    }
  }

  /** Squaring the base doubles the exponent. */
  lemma {:induction false} PowSquare(b: int, k: nat)
    ensures Pow(b * b, k) == Pow(b, 2 * k)
    decreases k
  {
    if k > 0 {
      PowSquare(b, k - 1);
      calc {
        Pow(b, 2 * k);
        b * Pow(b, 2 * k - 1);
        b * (b * Pow(b, 2 * (k - 1)));
        (b * b) * Pow(b * b, k - 1);
        Pow(b * b, k);
      }
    }
  }

  /** Negating the base flips the sign of odd powers only. */
  lemma {:induction false} PowNegatedBase(b: int, e: nat)
    ensures Pow(-b, e) == if e % 2 == 0 then Pow(b, e) else -Pow(b, e)
    decreases e
  {
    if e > 0 {
      PowNegatedBase(b, e - 1);
      var p := Pow(b, e - 1);
      MulNegate(b, p);
      assert Pow(-b, e) == (-b) * Pow(-b, e - 1);
      if (e - 1) % 2 == 0 {
        assert Pow(-b, e) == -(b * p);
      } else {
        assert Pow(-b, e - 1) == -p;
        assert Pow(-b, e) == b * p;
      }
    }
  }

  lemma {:induction false} PowAbs(b: int, e: nat)
    ensures Abs(Pow(b, e)) == Pow(Abs(b), e)
  {
    PowNegatedBase(b, e);
    PowNonNegative(Abs(b), e);
    if b < 0 {
      assert Pow(b, e) == if e % 2 == 0 then Pow(-b, e) else -Pow(-b, e) by {
        PowNegatedBase(-b, e);
      }
    }
  }

  /** The sign rule of exponentiation: a power is negative exactly when the
      base is negative and the exponent is odd. */
  lemma {:induction false} PowNegativeIff(b: int, e: nat)
    ensures Pow(b, e) < 0 <==> b < 0 && e % 2 == 1
  {
    if b > 0 {
      PowPositive(b, e);
    } else if b == 0 {
      if e > 0 {
        PowZeroBase(e);
      }
    } else {
      PowPositive(-b, e);
      PowNegatedBase(-b, e);
    }
  }

  /** A power of a base of magnitude at most one has magnitude at most one. */
  lemma {:induction false} PowSmallBase(b: int, e: nat)
    requires -1 <= b <= 1
    ensures -1 <= Pow(b, e) <= 1
  {
    PowAbs(b, e);
    if b == 0 {
      if e > 0 {
        PowZeroBase(e);
      }
    } else {
      PowOneBase(e);
    }
  }

  lemma {:induction false} BitLengthBound(a: nat)
    ensures a < Pow(2, BitLength(a))
    decreases a
  {
    if a > 0 {
      BitLengthBound(a / 2);
    }
  }
}
