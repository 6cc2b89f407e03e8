/** The two rounding modes of integer division the library exposes, in the
    sense of GMP's `tdiv` and `cdiv` families. Both satisfy `N == Q * D + R`
    with `|R| < |D|`; they differ in the sign the remainder may take:

    - truncating division rounds Q toward zero, so R is zero or has N's sign;
    - ceiling division rounds Q toward plus infinity, so R is zero or has the
      sign opposite to D.

    Dafny's own `/` and `%` are Euclidean, so they are used only on magnitudes.
 */
module Division {
  import opened Integers

  /** `(q, r)` is the truncating quotient and remainder of `n` by `d`. */
  predicate IsTruncDivision(n: int, d: int, q: int, r: int) {
    && n == q * d + r
    && Abs(r) < Abs(d)
    && (r == 0 || (r < 0 <==> n < 0))
  }

  /** `(q, r)` is the ceiling quotient and remainder of `n` by `d`. */
  predicate IsCeilDivision(n: int, d: int, q: int, r: int) {
    && n == q * d + r
    && Abs(r) < Abs(d)
    && (r == 0 || (r < 0 <==> d > 0))
  }

  /** Truncating quotient: the quotient of the magnitudes, negated when the
      operands' signs differ. */
  function TruncQuot(n: int, d: int): (q: int)
    requires d != 0
    ensures IsTruncDivision(n, d, q, n - q * d)
  {
    TruncQuotCorrect(n, d);
    var m := Abs(n) / Abs(d);
    if (n < 0) == (d < 0) then m else -m
  }

  /** Truncating remainder: the remainder of the magnitudes, carrying the
      dividend's sign. */
  function TruncRem(n: int, d: int): (r: int)
    requires d != 0
    ensures IsTruncDivision(n, d, TruncQuot(n, d), r)
  {
    TruncQuotCorrect(n, d);
    var m := Abs(n) % Abs(d);
    if n < 0 then -m else m
  }

  /** Ceiling quotient: the truncating quotient, moved up by one when the
      exact quotient is positive and not an integer. */
  function CeilQuot(n: int, d: int): (q: int)
    requires d != 0
    ensures IsCeilDivision(n, d, q, n - q * d)
  {
    var t := TruncQuot(n, d);
    var r := n - t * d;
    if r != 0 && (n < 0) == (d < 0) then t + 1 else t
  }

  /** Ceiling remainder, the partner of `CeilQuot`. */
  function CeilRem(n: int, d: int): (r: int)
    requires d != 0
    ensures IsCeilDivision(n, d, CeilQuot(n, d), r)
  {
    n - CeilQuot(n, d) * d
  }

  /** The product `q * d` for the truncating quotient `q` is the product of
      the magnitudes, negated when the dividend is negative. */
  lemma QuotientProduct(n: int, d: int, m: int, q: int)
    requires d != 0 && m >= 0
    requires q == if (n < 0) == (d < 0) then m else -m
    ensures q * d == (if n < 0 then -(m * Abs(d)) else m * Abs(d))
  {
    var b: int := Abs(d);
    if d < 0 {
      assert d == -b;
      MulNegate(m, b);
    }
  }

  /** The magnitude quotient with the sign rule meets the truncating
      contract, and its remainder is the magnitude remainder with the
      dividend's sign. */
  lemma TruncQuotCorrect(n: int, d: int)
    requires d != 0
    ensures var m := Abs(n) / Abs(d);
            var q := if (n < 0) == (d < 0) then m else -m;
            && IsTruncDivision(n, d, q, n - q * d)
            && n - q * d == if n < 0 then -(Abs(n) % Abs(d)) else Abs(n) % Abs(d)
  {
    var a: int, b: int := Abs(n), Abs(d);
    var m: int := a / b;
    DivMod(a, b);
    var q: int := if (n < 0) == (d < 0) then m else -m;
    QuotientProduct(n, d, m, q);
    var p := m * b;
    assert q * d == (if n < 0 then -p else p);
    assert n - q * d == (if n < 0 then -(a % b) else a % b);
  }

  /** A nonzero multiple of `d` is at least as large as `d` in magnitude. */
  lemma MultipleMagnitude(k: int, d: int)
    requires k != 0
    ensures Abs(k * d) >= Abs(d)
  {
    assert Abs(k * d) == Abs(k) * Abs(d) by {
      if k < 0 && d < 0 {
        assert k * d == (-k) * (-d);
      } else if k < 0 {
        assert k * d == -((-k) * d);
      } else if d < 0 {
        assert k * d == -(k * (-d));
      }
    }
    MulMonotone(1, Abs(k), Abs(d), Abs(d));
  }

  /** Two remainders of the same sign (or zero) that differ by a multiple of
      `d`, each smaller than `d` in magnitude, are equal with equal multiples. */
  lemma SameSideRemainders(d: int, q1: int, r1: int, q2: int, r2: int)
    requires d != 0
    requires q1 * d + r1 == q2 * d + r2
    requires Abs(r1) < Abs(d) && Abs(r2) < Abs(d)
    requires (r1 >= 0 && r2 >= 0) || (r1 <= 0 && r2 <= 0)
    ensures q1 == q2 && r1 == r2
  {
    assert (q1 - q2) * d == r2 - r1;
    if q1 != q2 {
      MultipleMagnitude(q1 - q2, d);
      assert false;
    }
  }

  /** The truncating quotient and remainder are the only pair meeting the
      truncating-division contract. */
  lemma {:induction false} TruncDivisionUnique(n: int, d: int, q: int, r: int)
    requires d != 0
    ensures IsTruncDivision(n, d, q, r) <==> q == TruncQuot(n, d) && r == TruncRem(n, d)
  {
    if IsTruncDivision(n, d, q, r) {
      SameSideRemainders(d, q, r, TruncQuot(n, d), TruncRem(n, d));
    }
  }

  /** The ceiling quotient and remainder are the only pair meeting the
      ceiling-division contract. */
  lemma {:induction false} CeilDivisionUnique(n: int, d: int, q: int, r: int)
    requires d != 0
    ensures IsCeilDivision(n, d, q, r) <==> q == CeilQuot(n, d) && r == CeilRem(n, d)
  {
    if IsCeilDivision(n, d, q, r) {
      SameSideRemainders(d, q, r, CeilQuot(n, d), CeilRem(n, d));
    }
  }

  /** The ceiling quotient is the least integer `q` with `q * d >= n` for a
      positive divisor: it rounds the exact quotient up. */
  lemma CeilQuotRoundsUp(n: int, d: int)
    requires d > 0
    ensures CeilQuot(n, d) * d >= n
    ensures (CeilQuot(n, d) - 1) * d < n
  {
  }

  /** The truncating quotient never exceeds the exact quotient in magnitude
      and is within one of it: it rounds toward zero. */
  lemma TruncQuotRoundsTowardZero(n: int, d: int)
    requires d != 0
    ensures Abs(TruncQuot(n, d)) * Abs(d) <= Abs(n)
    ensures Abs(n) < (Abs(TruncQuot(n, d)) + 1) * Abs(d)
  {
    var a, b := Abs(n), Abs(d);
    var m: int := a / b;
    DivMod(a, b);
    assert Abs(TruncQuot(n, d)) == m;
    assert (m + 1) * b == m * b + b;
  }
}
