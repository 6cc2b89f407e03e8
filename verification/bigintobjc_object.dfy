/** The object side of `BigIntObjC.h`: an object owns one `mpz_t`, here its
    mathematical value `value`. Instance methods that return `void` update
    the receiver (or the output object they are given); the ones that return
    a `BigIntObjC *` leave the receiver as it was and return a new object.
    Every method computes through the pure functions of module `BigIntObjC`,
    and the contracts state the resulting values in integer terms.

    Where an instance method reads a second object and writes a third, GMP
    allows them to be the same object; the methods below compute the result
    before they write, so aliasing needs no precondition except where two
    different results go to two objects (`divCeilQR:r:d:`).
 */
module BigIntObjCObject {
  import opened Words
  import opened Wrappers
  import opened Integers
  import opened Division
  import Roots
  import Text
  import P = BigIntObjC

  class BigIntObjC {
    var value: int

    // GMP section 5.1 / 5.3: initialisation

    /** `- init`: a new object holds 0. */
    constructor ()
      ensures value == 0
    {
      value := 0;
    }

    /** `- initWithBigInt:`. */
    constructor WithBigInt(nr: BigIntObjC)
      ensures value == nr.value
    {
      value := nr.value;
    }

    /** `- initWithSLong:`. */
    constructor WithSLong(nr: SLong)
      ensures value == nr
    {
      value := nr;
    }

    /** `- initWithULong:`. */
    constructor WithULong(nr: ULong)
      ensures value == nr
    {
      value := nr;
    }

    // GMP section 5.2: assignment

    /** `- setFromBigInt:`. */
    method SetFromBigInt(nr: BigIntObjC)
      modifies this
      ensures value == old(nr.value)
    {
      value := nr.value;
    }

    /** `- setFromSLong:`. */
    method SetFromSLong(nr: SLong)
      modifies this
      ensures value == nr
    {
      value := nr;
    }

    /** `- setFromULong:`. */
    method SetFromULong(nr: ULong)
      modifies this
      ensures value == nr
    {
      value := nr;
    }

    /** `- setFromString:withBase:error:`: status 0 and the parsed value, or
        status -1 and the receiver unchanged. */
    method SetFromString(s: string, base: int) returns (status: int)
      requires base == 0 || 2 <= base <= 62
      modifies this
      ensures (status, value) == P.SetFromString(old(value), s, base)
      ensures status == 0 <==> Text.SetStr(s, base).Some?
      ensures status == 0 ==> Text.SetStr(s, base) == Some(value)
      ensures status != 0 ==> value == old(value)
    {
      var res := P.SetFromString(value, s, base);
      status := res.0;
      value := res.1;
    }

    /** `- swap:` (`mpz_swap`): exchanges the two values. */
    method Swap(bn: BigIntObjC)
      modifies this, bn
      ensures value == old(bn.value) && bn.value == old(value)
    {
      var t := value;
      value := bn.value;
      bn.value := t;
    }

    /** `+ swap:bn2:`. */
    static method SwapPair(bn1: BigIntObjC, bn2: BigIntObjC)
      modifies bn1, bn2
      ensures bn1.value == old(bn2.value) && bn2.value == old(bn1.value)
    {
      bn1.Swap(bn2);
    }

    // GMP section 5.4: conversion

    /** `- toStringInBase:`. */
    method ToStringInBase(base: int) returns (s: string)
      requires 2 <= base <= 62
      ensures Text.IsCanonicalText(s, base)
      ensures P.SetFromString(0, s, base) == (0, value)
    {
      s := P.ToStringInBase(value, base);
    }

    // GMP section 5.5: arithmetic, in place

    /** `- abs`. */
    method Abs()
      modifies this
      ensures value == Integers.Abs(old(value))
    {
      value := P.Abs(value);
    }

    /** `+ abs:`: a new object; the operand is left as it was. */
    static method AbsOf(op: BigIntObjC) returns (r: BigIntObjC)
      ensures fresh(r) && r.value == Integers.Abs(op.value)
    {
      r := new BigIntObjC();
      r.value := P.Abs(op.value);
    }

    /** `- neg`. */
    method Neg()
      modifies this
      ensures value == -old(value)
    {
      value := P.Neg(value);
    }

    /** `+ neg:`: a new object; the operand is left as it was. */
    static method NegOf(op: BigIntObjC) returns (r: BigIntObjC)
      ensures fresh(r) && r.value == -op.value
    {
      r := new BigIntObjC();
      r.value := P.Neg(op.value);
    }

    /** `- add:`. */
    method Add(op: BigIntObjC)
      modifies this
      ensures value == old(value) + old(op.value)
    {
      value := P.Add(value, op.value);
    }

    /** `- addSLong:`. */
    method AddSLong(op: SLong)
      modifies this
      ensures value == old(value) + op
    {
      value := P.AddSLong(value, op);
    }

    /** `- addULong:`. */
    method AddULong(op: ULong)
      modifies this
      ensures value == old(value) + op
    {
      value := P.AddULong(value, op);
    }

    /** `- sub:`. */
    method Sub(op: BigIntObjC)
      modifies this
      ensures value == old(value) - old(op.value)
    {
      value := P.Sub(value, op.value);
    }

    /** `- subSLong:`. */
    method SubSLong(op: SLong)
      modifies this
      ensures value == old(value) - op
    {
      value := P.SubSLong(value, op);
    }

    /** `- subULong:`. */
    method SubULong(op: ULong)
      modifies this
      ensures value == old(value) - op
    {
      value := P.SubULong(value, op);
    }

    /** `- mul:`. */
    method Mul(op: BigIntObjC)
      modifies this
      ensures value == old(value) * old(op.value)
    {
      value := P.Mul(value, op.value);
    }

    /** `- mulSLong:`. */
    method MulSLong(op: SLong)
      modifies this
      ensures value == old(value) * op
    {
      value := P.MulSLong(value, op);
    }

    /** `- mulULong:`. */
    method MulULong(op: ULong)
      modifies this
      ensures value == old(value) * op
    {
      value := P.MulULong(value, op);
    }

    /** `- addMul:op2:`. */
    method AddMul(op1: BigIntObjC, op2: BigIntObjC)
      modifies this
      ensures value == old(value) + old(op1.value) * old(op2.value)
    {
      value := P.AddMul(value, op1.value, op2.value);
    }

    /** `- addMulULong:op2:`. */
    method AddMulULong(op1: BigIntObjC, op2: ULong)
      modifies this
      ensures value == old(value) + old(op1.value) * op2
    {
      value := P.AddMulULong(value, op1.value, op2);
    }

    /** `- subMul:op2:`. */
    method SubMul(op1: BigIntObjC, op2: BigIntObjC)
      modifies this
      ensures value == old(value) - old(op1.value) * old(op2.value)
    {
      value := P.SubMul(value, op1.value, op2.value);
    }

    /** `- subMulULong:op2:`. */
    method SubMulULong(op1: BigIntObjC, op2: ULong)
      modifies this
      ensures value == old(value) - old(op1.value) * op2
    {
      value := P.SubMulULong(value, op1.value, op2);
    }

    /** `- mul2Exp:`. */
    method Mul2Exp(exp: ULong)
      modifies this
      ensures value == old(value) * Pow(2, exp)
    {
      value := P.Mul2Exp(value, exp);
    }

    // GMP section 5.6: ceiling division; the receiver is the dividend

    /** `- divCeilQ:`: a new object with the quotient. */
    method DivCeilQ(d: BigIntObjC) returns (q: BigIntObjC)
      requires d.value != 0
      ensures fresh(q) && IsCeilDivision(value, d.value, q.value, value - q.value * d.value)
    {
      q := new BigIntObjC();
      q.value := P.DivCeilQ(value, d.value);
    }

    /** `- divCeilQ:d:`: the quotient into `q`. */
    method DivCeilQInto(q: BigIntObjC, d: BigIntObjC)
      requires d.value != 0
      modifies q
      ensures IsCeilDivision(old(value), old(d.value), q.value, old(value) - q.value * old(d.value))
    {
      q.value := P.DivCeilQ(value, d.value);
    }

    /** `+ divCeilQ:n:d:`. */
    static method DivCeilQOf(q: BigIntObjC, n: BigIntObjC, d: BigIntObjC)
      requires d.value != 0
      modifies q
      ensures IsCeilDivision(old(n.value), old(d.value), q.value, old(n.value) - q.value * old(d.value))
    {
      n.DivCeilQInto(q, d);
    }

    /** `- divCeilR:d:`: the remainder into `r`. */
    method DivCeilR(r: BigIntObjC, d: BigIntObjC)
      requires d.value != 0
      modifies r
      ensures IsCeilDivision(old(value), old(d.value), P.DivCeilQ(old(value), old(d.value)), r.value)
    {
      r.value := P.DivCeilR(value, d.value);
    }

    /** `+ divCeilR:n:d:`. */
    static method DivCeilROf(r: BigIntObjC, n: BigIntObjC, d: BigIntObjC)
      requires d.value != 0
      modifies r
      ensures IsCeilDivision(old(n.value), old(d.value), P.DivCeilQ(old(n.value), old(d.value)), r.value)
    {
      n.DivCeilR(r, d);
    }

    /** `- divCeilQR:r:d:`: quotient into `q`, remainder into `r`, which
        must be different objects. */
    method DivCeilQR(q: BigIntObjC, r: BigIntObjC, d: BigIntObjC)
      requires d.value != 0 && q != r
      modifies q, r
      ensures IsCeilDivision(old(value), old(d.value), q.value, r.value)
    {
      var res := P.DivCeilQR(value, d.value);
      q.value := res.0;
      r.value := res.1;
    }

    /** `- divCeilQULong:d:`: the quotient into `q`; returns the magnitude of
        the remainder. */
    method DivCeilQULong(q: BigIntObjC, d: ULong) returns (rem: ULong)
      requires d != 0
      modifies q
      ensures IsCeilDivision(old(value), d, q.value, -(rem as int))
    {
      var res := P.DivCeilQULong(value, d);
      q.value := res.0;
      rem := res.1;
    }

    /** `- divCeilRULong:d:`: the remainder into `r`; returns its magnitude. */
    method DivCeilRULong(r: BigIntObjC, d: ULong) returns (rem: ULong)
      requires d != 0
      modifies r
      ensures IsCeilDivision(old(value), d, P.DivCeilQ(old(value), d), r.value)
      ensures rem == -r.value
    {
      var res := P.DivCeilRULong(value, d);
      r.value := res.0;
      rem := res.1;
    }

    /** `- divCeilQRULong:r:d:`. */
    method DivCeilQRULong(q: BigIntObjC, r: BigIntObjC, d: ULong) returns (rem: ULong)
      requires d != 0 && q != r
      modifies q, r
      ensures IsCeilDivision(old(value), d, q.value, r.value)
      ensures rem == -r.value
    {
      var res := P.DivCeilQRULong(value, d);
      q.value := res.0;
      r.value := res.1;
      rem := res.2;
    }

    /** `- divCeilULong:`: the magnitude of the remainder only. */
    method DivCeilULong(d: ULong) returns (rem: ULong)
      requires d != 0
      ensures rem == P.DivCeilULong(value, d)
      ensures IsCeilDivision(value, d, P.DivCeilQ(value, d), -(rem as int))
    {
      rem := P.DivCeilULong(value, d);
    }

    /** `- divCeilQ2Exp:b:`. */
    method DivCeilQ2Exp(q: BigIntObjC, b: ULong)
      modifies q
      ensures IsCeilDivision(old(value), Pow(2, b), q.value, old(value) - q.value * Pow(2, b))
    {
      q.value := P.DivCeilQ2Exp(value, b);
    }

    /** `- divCeilR2Exp:b:`. */
    method DivCeilR2Exp(r: BigIntObjC, b: ULong)
      modifies r
      ensures IsCeilDivision(old(value), Pow(2, b), P.DivCeilQ2Exp(old(value), b), r.value)
    {
      r.value := P.DivCeilR2Exp(value, b);
    }

    // GMP section 5.6: truncating division; the receiver is the dividend

    /** `- divTruncateQ:d:`. */
    method DivTruncateQ(q: BigIntObjC, d: BigIntObjC)
      requires d.value != 0
      modifies q
      ensures IsTruncDivision(old(value), old(d.value), q.value, old(value) - q.value * old(d.value))
    {
      q.value := P.DivTruncateQ(value, d.value);
    }

    /** `+ divTruncateQ:n:d:`. */
    static method DivTruncateQOf(q: BigIntObjC, n: BigIntObjC, d: BigIntObjC)
      requires d.value != 0
      modifies q
      ensures IsTruncDivision(old(n.value), old(d.value), q.value, old(n.value) - q.value * old(d.value))
    {
      n.DivTruncateQ(q, d);
    }

    /** `- divTruncateQULong:d:`: the quotient into `q`; returns the
        magnitude of the remainder. */
    method DivTruncateQULong(q: BigIntObjC, d: ULong) returns (rem: ULong)
      requires d != 0
      modifies q
      ensures IsTruncDivision(old(value), d, q.value, if old(value) < 0 then -(rem as int) else rem)
    {
      var res := P.DivTruncateQULong(value, d);
      q.value := res.0;
      rem := res.1;
    }

    /** `+ divTruncateQULong:n:d:`. */
    static method DivTruncateQULongOf(q: BigIntObjC, n: BigIntObjC, d: ULong) returns (rem: ULong)
      requires d != 0
      modifies q
      ensures IsTruncDivision(old(n.value), d, q.value, if old(n.value) < 0 then -(rem as int) else rem)
    {
      rem := n.DivTruncateQULong(q, d);
    }

    /** `- divTruncateULong:`. */
    method DivTruncateULong(d: ULong) returns (rem: ULong)
      requires d != 0
      ensures rem == P.DivTruncateULong(value, d)
      ensures IsTruncDivision(value, d, P.DivTruncateQ(value, d), if value < 0 then -(rem as int) else rem)
    {
      rem := P.DivTruncateULong(value, d);
    }

    // GMP section 5.6: the divisions behind the Swift operators

    /** `- div:`: a new object with the truncating quotient. */
    method Div(d: BigIntObjC) returns (q: BigIntObjC)
      requires d.value != 0
      ensures fresh(q) && IsTruncDivision(value, d.value, q.value, value - q.value * d.value)
    {
      q := new BigIntObjC();
      q.value := P.Div(value, d.value);
    }

    /** `- divSLong:`. */
    method DivSLong(d: SLong) returns (q: BigIntObjC)
      requires d != 0
      ensures fresh(q) && IsTruncDivision(value, d, q.value, value - q.value * d)
    {
      q := new BigIntObjC();
      q.value := P.DivSLong(value, d);
    }

    /** `- divULong:`. */
    method DivULong(d: ULong) returns (q: BigIntObjC)
      requires d != 0
      ensures fresh(q) && IsTruncDivision(value, d, q.value, value - q.value * d)
    {
      q := new BigIntObjC();
      q.value := P.DivULong(value, d);
    }

    /** `- mod:`: a new object with the truncating remainder. */
    method Mod(d: BigIntObjC) returns (r: BigIntObjC)
      requires d.value != 0
      ensures fresh(r) && IsTruncDivision(value, d.value, P.Div(value, d.value), r.value)
    {
      r := new BigIntObjC();
      r.value := P.Mod(value, d.value);
    }

    // GMP section 5.7: exponentiation

    /** `- power:`. */
    method Power(exp: ULong)
      modifies this
      ensures value == Pow(old(value), exp)
    {
      value := P.Power(value, exp);
    }

    /** `- setFromULongPower:withExp:`. */
    method SetFromULongPower(base: ULong, exp: ULong)
      modifies this
      ensures value == Pow(base, exp)
    {
      value := P.PowerULong(base, exp);
    }

    // GMP section 5.8: roots

    /** `- isPerfectPower`. */
    method IsPerfectPower() returns (b: bool)
      ensures b <==> Roots.IsPowerOfSome(value)
    {
      b := P.IsPerfectPower(value);
    }

    /** `- isPerfectSquare`. */
    method IsPerfectSquare() returns (b: bool)
      ensures b <==> Roots.IsSquareOfSome(value)
    {
      b := P.IsPerfectSquare(value);
    }

    /** `- setRoot:` (`mpz_root` into the receiver): the receiver becomes its
        truncated n-th root; the result is nonzero exactly when the root is
        exact. */
    method SetRoot(n: ULong) returns (exact: int)
      requires n >= 1 && (value >= 0 || n % 2 == 1)
      modifies this
      ensures value == P.Root(old(value), n)
      ensures Roots.IsFloorRoot(P.Magnitude(old(value)), n, P.Magnitude(value))
      ensures value < 0 <==> old(value) < 0
      ensures exact != 0 <==> Pow(value, n) == old(value)
    {
      var x := value;
      value := P.Root(x, n);
      exact := if Pow(value, n) == x then 1 else 0;
    }

    /** `- root:`: a new object with the truncated n-th root. */
    method Root(n: ULong) returns (r: BigIntObjC)
      requires n >= 1 && (value >= 0 || n % 2 == 1)
      ensures fresh(r) && r.value == P.Root(value, n)
      ensures Roots.IsFloorRoot(P.Magnitude(value), n, P.Magnitude(r.value))
      ensures r.value < 0 <==> value < 0
    {
      r := new BigIntObjC();
      r.value := P.Root(value, n);
    }

    /** `- setSqrt`. */
    method SetSqrt()
      requires value >= 0
      modifies this
      ensures value == P.Sqrt(old(value))
      ensures value >= 0 && value * value <= old(value) < (value + 1) * (value + 1)
    {
      value := P.Sqrt(value);
    }

    /** `- sqrt`: a new object with the truncated square root. */
    method Sqrt() returns (r: BigIntObjC)
      requires value >= 0
      ensures fresh(r) && r.value == P.Sqrt(value)
      ensures r.value >= 0 && r.value * r.value <= value < (r.value + 1) * (r.value + 1)
    {
      r := new BigIntObjC();
      r.value := P.Sqrt(value);
    }

    // GMP section 5.10: comparison

    /** `- compare:`. */
    method Compare(bn: BigIntObjC) returns (r: int)
      ensures r == P.Compare(value, bn.value)
      ensures r < 0 <==> value < bn.value
      ensures r == 0 <==> value == bn.value
      ensures r > 0 <==> value > bn.value
    {
      r := P.Compare(value, bn.value);
    }

    /** `- compareWithSLong:`. */
    method CompareWithSLong(nr: SLong) returns (r: int)
      ensures r == P.CompareWithSLong(value, nr)
      ensures r < 0 <==> value < nr
      ensures r == 0 <==> value == nr
      ensures r > 0 <==> value > nr
    {
      r := P.CompareWithSLong(value, nr);
    }

    /** `- compareWithULong:`. */
    method CompareWithULong(nr: ULong) returns (r: int)
      ensures r == P.CompareWithULong(value, nr)
      ensures r < 0 <==> value < nr
      ensures r == 0 <==> value == nr
      ensures r > 0 <==> value > nr
    {
      r := P.CompareWithULong(value, nr);
    }

    /** `- equals:`. */
    method Equals(bn: BigIntObjC) returns (b: bool)
      ensures b <==> value == bn.value
    {
      b := P.Equals(value, bn.value);
    }

    /** `- sign`. */
    method Sign() returns (r: int)
      ensures r == P.Sign(value)
      ensures r in {-1, 0, 1}
      ensures r < 0 <==> value < 0
      ensures r == 0 <==> value == 0
    {
      r := P.Sign(value);
    }
  }
}
