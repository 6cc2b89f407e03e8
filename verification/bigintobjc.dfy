/** The primitive operations declared by `BigIntObjC.h`, each as a pure
    function over the mathematical value of an `mpz_t`.

    A value is an `int`; the functions compute in GMP's sign/magnitude terms
    (a sign and an unsigned magnitude) and their contracts state the
    integer each returns. The class methods of the header that return a new
    object (`+ add:op2:`, `+ neg:`, `+ divCeilQ:d:`, ...) are these
    functions directly; the instance methods that update the receiver or an
    output object are in module `BigIntObjCObject`, built on them.
 */
module BigIntObjC {
  import opened Words
  import opened Wrappers
  import opened Integers
  import opened Division
  import Exponent
  import Roots
  import Text

  /** Magnitude of a value (`mpz_t` keeps it apart from the sign). */
  function Magnitude(op: int): nat {
    Integers.Abs(op)
  }

  /** Value with the given sign and magnitude. */
  function Signed(negative: bool, m: nat): int {
    var v: int := m;
    if negative then -v else v
  }

  // ---------------------------------------------------------------------------
  // GMP section 5.5: arithmetic

  /** `+ abs:` (`mpz_abs`): drops the sign. */
  function Abs(op: int): (r: int)
    ensures r >= 0
    ensures r == op || r == -op
  {
    Signed(false, Magnitude(op))
  }

  /** `+ neg:` (`mpz_neg`): flips the sign, keeps the magnitude. */
  function Neg(op: int): (r: int)
    ensures r + op == 0
  {
    Signed(op > 0, Magnitude(op))
  }

  /** `+ add:op2:` (`mpz_add`): equal signs add magnitudes; different signs
      subtract the smaller magnitude from the larger and take the sign of
      the operand with the larger one. */
  function Add(op1: int, op2: int): (r: int)
    ensures r == op1 + op2
  {
    var m1, m2 := Magnitude(op1), Magnitude(op2);
    if (op1 < 0) == (op2 < 0) then Signed(op1 < 0, m1 + m2)
    else if m1 >= m2 then Signed(op1 < 0, m1 - m2)
    else Signed(op2 < 0, m2 - m1)
  }

  /** `+ addSLong:op2:`. */
  function AddSLong(op1: int, op2: SLong): (r: int)
    ensures r == op1 + op2
  {
    Add(op1, op2)
  }

  /** `+ addULong:op2:` (`mpz_add_ui`). */
  function AddULong(op1: int, op2: ULong): (r: int)
    ensures r == op1 + op2
  {
    Add(op1, op2)
  }

  /** `+ sub:op2:` (`mpz_sub`): addition of the negated subtrahend. */
  function Sub(op1: int, op2: int): (r: int)
    ensures r == op1 - op2
  {
    Add(op1, Neg(op2))
  }

  /** `+ subSLong:op2:`. */
  function SubSLong(op1: int, op2: SLong): (r: int)
    ensures r == op1 - op2
  {
    Sub(op1, op2)
  }

  /** `+ subULong:op2:` (`mpz_sub_ui`). */
  function SubULong(op1: int, op2: ULong): (r: int)
    ensures r == op1 - op2
  {
    Sub(op1, op2)
  }

  /** `+ mul:op2:` (`mpz_mul`): magnitudes multiply, the result is negative
      when exactly one operand is. */
  function Mul(op1: int, op2: int): (r: int)
    ensures r == op1 * op2
  {
    var m := Magnitude(op1) * Magnitude(op2);
    assert m == op1 * op2 || m == -(op1 * op2) by {
      if op1 < 0 && op2 < 0 {
        assert m == (-op1) * (-op2);
      } else if op1 < 0 {
        assert m == (-op1) * op2;
      } else if op2 < 0 {
        assert m == op1 * (-op2);
      }
    }
    Signed((op1 < 0) != (op2 < 0) && m != 0, m)
  }

  /** `+ mulSLong:op2:` (`mpz_mul_si`). */
  function MulSLong(op1: int, op2: SLong): (r: int)
    ensures r == op1 * op2
  {
    Mul(op1, op2)
  }

  /** `+ mulULong:op2:` (`mpz_mul_ui`). */
  function MulULong(op1: int, op2: ULong): (r: int)
    ensures r == op1 * op2
  {
    Mul(op1, op2)
  }

  /** `- addMul:op2:` (`mpz_addmul`): the receiver plus the product. */
  function AddMul(rop: int, op1: int, op2: int): (r: int)
    ensures r == rop + op1 * op2
  {
    Add(rop, Mul(op1, op2))
  }

  /** `- addMulULong:op2:` (`mpz_addmul_ui`). */
  function AddMulULong(rop: int, op1: int, op2: ULong): (r: int)
    ensures r == rop + op1 * op2
  {
    AddMul(rop, op1, op2)
  }

  /** `- subMul:op2:` (`mpz_submul`): the receiver minus the product. */
  function SubMul(rop: int, op1: int, op2: int): (r: int)
    ensures r == rop - op1 * op2
  {
    Sub(rop, Mul(op1, op2))
  }

  /** `- subMulULong:op2:` (`mpz_submul_ui`). */
  function SubMulULong(rop: int, op1: int, op2: ULong): (r: int)
    ensures r == rop - op1 * op2
  {
    SubMul(rop, op1, op2)
  }

  /** A `subMul` with the operands of a preceding `addMul` restores the
      receiver, and the other way round. */
  lemma AddMulSubMulCancel(rop: int, op1: int, op2: int)
    ensures SubMul(AddMul(rop, op1, op2), op1, op2) == rop
    ensures AddMul(SubMul(rop, op1, op2), op1, op2) == rop
  {
  }

  /** `neg` is its own inverse and `abs` ignores it. */
  lemma NegAbsLaws(op: int)
    ensures Neg(Neg(op)) == op
    ensures Abs(Neg(op)) == Abs(op)
    ensures Abs(Abs(op)) == Abs(op)
  {
  }

  /** Subtracting what was added restores the first operand, in every
      word variant. */
  lemma SubUndoesAdd(op1: int, op2: int, s: SLong, u: ULong)
    ensures Sub(Add(op1, op2), op2) == op1
    ensures SubSLong(AddSLong(op1, s), s) == op1
    ensures SubULong(AddULong(op1, u), u) == op1
  {
  }

  /** Magnitude shifted left by `k` bits, one bit at a time. */
  function ShiftLeft(m: nat, k: nat): (r: nat)
    ensures r == m * Pow(2, k)
    decreases k
  {
    if k == 0 then m
    else
      var r := ShiftLeft(2 * m, k - 1);
      assert 2 * m * Pow(2, k - 1) == m * (2 * Pow(2, k - 1));
      r
  }

  /** `+ mul2Exp:exp:` (`mpz_mul_2exp`): the magnitude shifted left by `exp`
      bits, the sign kept. */
  function Mul2Exp(op1: int, exp: ULong): (r: int)
    ensures r == op1 * Pow(2, exp)
  {
    Signed(op1 < 0, ShiftLeft(Magnitude(op1), exp))
  }

  // ---------------------------------------------------------------------------
  // GMP section 5.6: division rounding toward plus infinity

  /** `+ divCeilQ:d:` (`mpz_cdiv_q`). */
  function DivCeilQ(n: int, d: int): (q: int)
    requires d != 0
    ensures IsCeilDivision(n, d, q, n - q * d)
  {
    CeilQuot(n, d)
  }

  /** `+ divCeilR:n:d:` (`mpz_cdiv_r`). */
  function DivCeilR(n: int, d: int): (r: int)
    requires d != 0
    ensures IsCeilDivision(n, d, DivCeilQ(n, d), r)
  {
    CeilRem(n, d)
  }

  /** `- divCeilQR:r:d:` (`mpz_cdiv_qr`): quotient and remainder together. */
  function DivCeilQR(n: int, d: int): (res: (int, int))
    requires d != 0
    ensures IsCeilDivision(n, d, res.0, res.1)
  {
    (CeilQuot(n, d), CeilRem(n, d))
  }

  /** `- divCeilQULong:d:` (`mpz_cdiv_q_ui`): the quotient, and as return
      value the magnitude of the remainder. */
  function DivCeilQULong(n: int, d: ULong): (res: (int, ULong))
    requires d != 0
    ensures IsCeilDivision(n, d, res.0, -(res.1 as int))
  {
    (CeilQuot(n, d), -CeilRem(n, d))
  }

  /** `- divCeilRULong:d:` (`mpz_cdiv_r_ui`): the remainder, and as return
      value its magnitude. */
  function DivCeilRULong(n: int, d: ULong): (res: (int, ULong))
    requires d != 0
    ensures IsCeilDivision(n, d, DivCeilQ(n, d), res.0)
    ensures res.1 == -res.0
  {
    (CeilRem(n, d), -CeilRem(n, d))
  }

  /** `- divCeilQRULong:r:d:` (`mpz_cdiv_qr_ui`). */
  function DivCeilQRULong(n: int, d: ULong): (res: (int, int, ULong))
    requires d != 0
    ensures IsCeilDivision(n, d, res.0, res.1)
    ensures res.2 == -res.1
  {
    (CeilQuot(n, d), CeilRem(n, d), -CeilRem(n, d))
  }

  /** `- divCeilULong:` (`mpz_cdiv_ui`): only the magnitude of the remainder. */
  function DivCeilULong(n: int, d: ULong): (rem: ULong)
    requires d != 0
    ensures IsCeilDivision(n, d, DivCeilQ(n, d), -(rem as int))
  {
    -CeilRem(n, d)
  }

  /** `- divCeilQ2Exp:b:` (`mpz_cdiv_q_2exp`): ceiling quotient by `2^b`. */
  function DivCeilQ2Exp(n: int, b: ULong): (q: int)
    ensures IsCeilDivision(n, Pow(2, b), q, n - q * Pow(2, b))
  {
    PowPositive(2, b);
    CeilQuot(n, Pow(2, b))
  }

  /** `- divCeilR2Exp:b:` (`mpz_cdiv_r_2exp`): ceiling remainder by `2^b`. */
  function DivCeilR2Exp(n: int, b: ULong): (r: int)
    ensures IsCeilDivision(n, Pow(2, b), DivCeilQ2Exp(n, b), r)
  {
    PowPositive(2, b);
    CeilRem(n, Pow(2, b))
  }

  /** Shifting left by `b` bits and dividing by `2^b` rounding up gives the
      operand back with remainder 0. */
  lemma {:induction false} DivCeil2ExpUndoesMul2Exp(op: int, b: ULong)
    ensures DivCeilQ2Exp(Mul2Exp(op, b), b) == op
    ensures DivCeilR2Exp(Mul2Exp(op, b), b) == 0
  {
    PowPositive(2, b);
    CeilDivisionUnique(op * Pow(2, b), Pow(2, b), op, 0);
  }

  // ---------------------------------------------------------------------------
  // GMP section 5.6: division rounding toward zero

  /** `+ divTruncateQ:n:d:` (`mpz_tdiv_q`). */
  function DivTruncateQ(n: int, d: int): (q: int)
    requires d != 0
    ensures IsTruncDivision(n, d, q, n - q * d)
  {
    TruncQuot(n, d)
  }

  /** `+ divTruncateQULong:n:d:` (`mpz_tdiv_q_ui`): the quotient, and as
      return value the magnitude of the remainder. */
  function DivTruncateQULong(n: int, d: ULong): (res: (int, ULong))
    requires d != 0
    ensures IsTruncDivision(n, d, res.0, if n < 0 then -(res.1 as int) else res.1)
  {
    (TruncQuot(n, d), Magnitude(TruncRem(n, d)))
  }

  /** `+ divTruncateULong:d:` (`mpz_tdiv_ui`): only the magnitude of the
      remainder. */
  function DivTruncateULong(n: int, d: ULong): (rem: ULong)
    requires d != 0
    ensures IsTruncDivision(n, d, DivTruncateQ(n, d), if n < 0 then -(rem as int) else rem)
  {
    Magnitude(TruncRem(n, d))
  }

  /** `+ div:d:`, the quotient behind the Swift `/` operator: truncating. */
  function Div(n: int, d: int): (q: int)
    requires d != 0
    ensures IsTruncDivision(n, d, q, n - q * d)
  {
    TruncQuot(n, d)
  }

  /** `+ divSLong:d:`: truncating quotient by a signed word. */
  function DivSLong(n: int, d: SLong): (q: int)
    requires d != 0
    ensures IsTruncDivision(n, d, q, n - q * d)
  {
    Div(n, d)
  }

  /** `+ divULong:d:`: truncating quotient by an unsigned word. */
  function DivULong(n: int, d: ULong): (q: int)
    requires d != 0
    ensures IsTruncDivision(n, d, q, n - q * d)
  {
    Div(n, d)
  }

  /** `+ mod:d:`, the remainder behind the Swift `%` operator: the
      truncating remainder, which carries the dividend's sign. */
  function Mod(n: int, d: int): (r: int)
    requires d != 0
    ensures IsTruncDivision(n, d, Div(n, d), r)
  {
    TruncRem(n, d)
  }

  // ---------------------------------------------------------------------------
  // GMP section 5.7: exponentiation

  /** `+ power:exp:` (`mpz_pow_ui`). */
  function Power(base: int, exp: ULong): (r: int)
    ensures r == Pow(base, exp)
    ensures r < 0 <==> base < 0 && exp % 2 == 1
  {
    Exponent.PowBySquaringSign(base, exp);
    Exponent.PowBySquaring(base, exp)
  }

  /** `+ powerULong:exp:` and `- setFromULongPower:withExp:` (`mpz_ui_pow_ui`). */
  function PowerULong(base: ULong, exp: ULong): (r: int)
    ensures r == Pow(base, exp)
    ensures r >= 0
  {
    Power(base, exp)
  }

  // ---------------------------------------------------------------------------
  // GMP section 5.8: roots

  /** `+ root:n:` (`mpz_root`): the n-th root of the magnitude, truncated,
      with the operand's sign. GMP accepts a negative operand only for odd
      `n`, and no `n == 0`. */
  function Root(op: int, n: ULong): (r: int)
    requires n >= 1
    requires op >= 0 || n % 2 == 1
    ensures Roots.IsFloorRoot(Magnitude(op), n, Magnitude(r))
    ensures r < 0 <==> op < 0
  {
    var m := Roots.FloorRoot(Magnitude(op), n);
    Roots.FloorRootZero(Magnitude(op), n);
    Signed(op < 0, m)
  }

  /** `root` undoes `power`: the n-th root of `b^n` is `b` whenever the
      root is defined. */
  lemma {:induction false} RootOfPower(b: int, n: ULong)
    requires n >= 1 && (b >= 0 || n % 2 == 1)
    ensures Pow(b, n) >= 0 || n % 2 == 1
    ensures Root(Power(b, n), n) == b
  {
    PowNegativeIff(b, n);
    Roots.FloorRootOfPower(b, n);
    var x := Pow(b, n);
    var r := Root(x, n);
    Roots.FloorRootUnique(Magnitude(x), n, Magnitude(r));
    if b == 0 {
      PowZeroBase(n);
    }
  }

  /** `+ sqrt:` (`mpz_sqrt`): the truncated square root of a non-negative
      operand. */
  function Sqrt(op: int): (r: int)
    requires op >= 0
    ensures r >= 0 && r * r <= op < (r + 1) * (r + 1)
  {
    var r := Root(op, 2);
    assert Pow(r, 2) == r * r && Pow(r + 1, 2) == (r + 1) * (r + 1);
    r
  }

  /** `+ isPerfectPower:` (`mpz_perfect_power_p`). */
  function IsPerfectPower(op: int): (b: bool)
    ensures b <==> Roots.IsPowerOfSome(op)
  {
    Roots.PerfectPowerCorrect(op);
    Roots.IsPerfectPower(op)
  }

  /** `+ isPerfectSquare:` (`mpz_perfect_square_p`). */
  function IsPerfectSquare(op: int): (b: bool)
    ensures b <==> Roots.IsSquareOfSome(op)
  {
    Roots.PerfectSquareCorrect(op);
    Roots.IsPerfectSquare(op)
  }

  // ---------------------------------------------------------------------------
  // GMP section 5.10: comparison

  function CompareMagnitudes(m1: nat, m2: nat): int {
    if m1 < m2 then -1 else if m1 == m2 then 0 else 1
  }

  /** `- compare:` (`mpz_cmp`): by sign first, then by magnitude (reversed
      for two negative values). The result is exactly -1, 0 or 1. */
  function Compare(op1: int, op2: int): (r: int)
    ensures -1 <= r <= 1
    ensures r < 0 <==> op1 < op2
    ensures r == 0 <==> op1 == op2
    ensures r > 0 <==> op1 > op2
  {
    if op1 < 0 && op2 >= 0 then -1
    else if op1 >= 0 && op2 < 0 then 1
    else if op1 >= 0 then CompareMagnitudes(Magnitude(op1), Magnitude(op2))
    else CompareMagnitudes(Magnitude(op2), Magnitude(op1))
  }

  /** Swapping the operands of `compare:` negates the result. */
  lemma CompareAntisymmetric(op1: int, op2: int)
    ensures Compare(op1, op2) == -Compare(op2, op1)
  {
  }

  /** `- compareWithSLong:` (`mpz_cmp_si`). */
  function CompareWithSLong(op1: int, op2: SLong): (r: int)
    ensures -1 <= r <= 1
    ensures r < 0 <==> op1 < op2
    ensures r == 0 <==> op1 == op2
    ensures r > 0 <==> op1 > op2
  {
    Compare(op1, op2)
  }

  /** `- compareWithULong:` (`mpz_cmp_ui`). */
  function CompareWithULong(op1: int, op2: ULong): (r: int)
    ensures -1 <= r <= 1
    ensures r < 0 <==> op1 < op2
    ensures r == 0 <==> op1 == op2
    ensures r > 0 <==> op1 > op2
  {
    Compare(op1, op2)
  }

  /** `- equals:`: derived from `compare:`. */
  function Equals(op1: int, op2: int): (b: bool)
    ensures b <==> op1 == op2
  {
    Compare(op1, op2) == 0
  }

  /** `- sign` / `+ sign:` (`mpz_sgn`): the sign of the value, the same as
      comparing it with zero. */
  function Sign(op: int): (r: int)
    ensures r == Compare(op, 0)
    ensures r in {-1, 0, 1}
    ensures r < 0 <==> op < 0
    ensures r == 0 <==> op == 0
  {
    if op < 0 then -1 else if op == 0 then 0 else 1
  }

  // ---------------------------------------------------------------------------
  // GMP sections 5.2 and 5.4: text conversion

  /** `- setFromString:withBase:error:` (`mpz_set_str`): the status (0, or -1
      when the text is not a number in the base) and the receiver's value
      afterwards, which a rejected text leaves as it was. */
  function SetFromString(receiver: int, s: string, base: int): (res: (int, int))
    requires base == 0 || 2 <= base <= 62
    ensures res.0 == 0 || res.0 == -1
    ensures res.0 == 0 <==> Text.SetStr(s, base).Some?
    ensures res.0 == 0 ==> Text.SetStr(s, base) == Some(res.1)
    ensures res.0 == -1 ==> res.1 == receiver
  {
    match Text.SetStr(s, base)
    case None => (-1, receiver)
    case Some(v) => (0, v)
  }

  /** `- toStringInBase:` (`mpz_get_str`). */
  function ToStringInBase(op: int, base: int): (s: string)
    requires 2 <= base <= 62
    ensures Text.IsCanonicalText(s, base)
    ensures SetFromString(0, s, base) == (0, op)
  {
    Text.ParseFormatRoundTrip(op, base);
    Text.ToStringCanonical(op, base);
    Text.ToStringInBase(op, base)
  }

  /** `- toString`: decimal text. */
  function ToString(op: int): (s: string)
    ensures Text.IsCanonicalText(s, 10)
    ensures SetFromString(0, s, 10) == (0, op)
  {
    ToStringInBase(op, 10)
  }
}
