/** The Swift `BigInt` layer: the string initialiser with its validation, and
    the operator overloads, each routed to one primitive of `BigIntObjC` as
    `BigInt.swift` routes it.

    An operator is overloaded over `BigInt`, `Int` and `UInt` operands with
    at least one `BigInt`; an `Operand` tags which overload applies, and every
    operator function requires one side to be `Big`. Swift's `Int` and `UInt`
    are 64-bit words here, the C `long` and `unsigned long` of the primitives.
 */
module BigInt {
  import opened Words
  import opened Wrappers
  import opened Integers
  import opened Division
  import Roots
  import Text
  import P = BigIntObjC

  /** The errors the string initialiser throws. */
  datatype BigIntError = EmptyStringNumber | InvalidBaseNumber | InvalidNumberFormat

  /** One operand of an overloaded operator. */
  datatype Operand = Big(b: int) | Int(i: SLong) | UInt(u: ULong)
  {
    /** The integer the operand stands for. */
    function Value(): int {
      match this
      case Big(b) => b
      case Int(i) => i
      case UInt(u) => u
    }
  }

  /** The overload set: every operator takes at least one `BigInt`. */
  predicate HasBig(lhs: Operand, rhs: Operand) {
    lhs.Big? || rhs.Big?
  }

  predicate ValidBase(base: Int32) {
    base == 0 || (base > 1 && base < 63)
  }

  // ---------------------------------------------------------------------------
  // String initialiser

  /** `init(nr:base:)` with `setStringAndBase`: a new object (value 0) set
      from the text. The base is checked first, then emptiness, then the
      status of `setFromString:withBase:`. */
  function SetStringAndBase(s: string, base: Int32): (r: Result<int, BigIntError>)
    ensures r == Failure(InvalidBaseNumber) <==> !ValidBase(base)
    ensures r == Failure(EmptyStringNumber) <==> ValidBase(base) && |s| == 0
    ensures r == Failure(InvalidNumberFormat) <==> ValidBase(base) && |s| > 0 && Text.SetStr(s, base).None?
    ensures r.Success? <==> ValidBase(base) && Text.SetStr(s, base).Some?
    ensures r.Success? ==> Text.SetStr(s, base) == Some(r.value)
  {
    if !ValidBase(base) then Failure(InvalidBaseNumber)
    else if !(|s| > 0) then Failure(EmptyStringNumber)
    else
      var (status, v) := P.SetFromString(0, s, base);
      if status == -1 && |s| > 0 then Failure(InvalidNumberFormat)
      else Success(v)
  }

  /** `init(stringNr:)` and `init(stringNr:error:)`: decimal text. */
  function InitStringNr(s: string): (r: Result<int, BigIntError>)
    ensures r != Failure(InvalidBaseNumber)
    ensures r == Failure(EmptyStringNumber) <==> |s| == 0
    ensures r.Success? <==> Text.SetStr(s, 10).Some?
    ensures r.Success? ==> Text.SetStr(s, 10) == Some(r.value)
  {
    SetStringAndBase(s, 10)
  }

  /** Printing a value in a base the initialiser accepts and initialising
      from the text gives the value back. */
  lemma InitFromPrinted(v: int, base: Int32)
    requires 2 <= base <= 62
    ensures SetStringAndBase(P.ToStringInBase(v, base), base) == Success(v)
  {
    Text.ParseFormatRoundTrip(v, base);
  }

  /** Initialising from text as `toStringInBase:` prints it and printing
      the value again reproduces the text. */
  lemma PrintInitialised(s: string, base: Int32)
    requires 2 <= base <= 62
    requires Text.IsCanonicalText(s, base)
    ensures SetStringAndBase(s, base).Success?
    ensures P.ToStringInBase(SetStringAndBase(s, base).value, base) == s
  {
    Text.FormatParseRoundTrip(s, base);
  }

  // ---------------------------------------------------------------------------
  // Root extraction, forwarded by the class

  /** `isPerfectPower` (class and instance form). */
  function IsPerfectPower(op: int): (b: bool)
    ensures b <==> Roots.IsPowerOfSome(op)
  {
    P.IsPerfectPower(op)
  }

  /** `isPerfectSquare` (class and instance form). */
  function IsPerfectSquare(op: int): (b: bool)
    ensures b <==> Roots.IsSquareOfSome(op)
  {
    P.IsPerfectSquare(op)
  }

  /** `root(n)` (class and instance form), wrapped in a new `BigInt`. */
  function Root(op: int, n: ULong): (r: int)
    requires n >= 1 && (op >= 0 || n % 2 == 1)
    ensures Roots.IsFloorRoot(Integers.Abs(op), n, Integers.Abs(r))
    ensures r < 0 <==> op < 0
  {
    P.Root(op, n)
  }

  /** `sqrt()` (class and instance form), wrapped in a new `BigInt`. */
  function Sqrt(op: int): (r: int)
    requires op >= 0
    ensures r >= 0 && r * r <= op < (r + 1) * (r + 1)
  {
    P.Sqrt(op)
  }

  // ---------------------------------------------------------------------------
  // Arithmetic operators

  /** `**`: a `BigInt` base and a `UInt` exponent. */
  function Power(lhs: int, rhs: ULong): (r: int)
    ensures r == Pow(lhs, rhs)
    ensures r < 0 <==> lhs < 0 && rhs % 2 == 1
  {
    P.Power(lhs, rhs)
  }

  /** `*`: a native left operand is passed to the word primitive as its
      second operand. */
  function Times(lhs: Operand, rhs: Operand): (r: int)
    requires HasBig(lhs, rhs)
    ensures r == lhs.Value() * rhs.Value()
  {
    match (lhs, rhs)
    case (Big(a), Big(b)) => P.Mul(a, b)
    case (Big(a), Int(b)) => P.MulSLong(a, b)
    case (Big(a), UInt(b)) => P.MulULong(a, b)
    case (Int(a), Big(b)) => P.MulSLong(b, a)
    case (UInt(a), Big(b)) => P.MulULong(b, a)
  }

  /** `/`: truncating; a native left operand is first made a `BigInt`. */
  function Divide(lhs: Operand, rhs: Operand): (q: int)
    requires HasBig(lhs, rhs) && rhs.Value() != 0
    ensures IsTruncDivision(lhs.Value(), rhs.Value(), q, lhs.Value() - q * rhs.Value())
  {
    match (lhs, rhs)
    case (Big(a), Big(b)) => P.Div(a, b)
    case (Big(a), Int(b)) => P.DivSLong(a, b)
    case (Big(a), UInt(b)) => P.DivULong(a, b)
    case (Int(a), Big(b)) => P.Div(a, b)
    case (UInt(a), Big(b)) => P.Div(a, b)
  }

  /** `%`: the native operand is made a `BigInt` and `mod:d:` is called; the
      result is the remainder that goes with `/`. */
  function Remainder(lhs: Operand, rhs: Operand): (r: int)
    requires HasBig(lhs, rhs) && rhs.Value() != 0
    ensures IsTruncDivision(lhs.Value(), rhs.Value(), Divide(lhs, rhs), r)
  {
    match (lhs, rhs)
    case (Big(a), Big(b)) => P.Mod(a, b)
    case (Big(a), Int(b)) => P.Mod(a, b)
    case (Big(a), UInt(b)) => P.Mod(a, b)
    case (Int(a), Big(b)) => P.Mod(a, b)
    case (UInt(a), Big(b)) => P.Mod(a, b)
  }

  /** Every `/` overload is the truncating quotient of the operand values,
      and every `%` overload the truncating remainder. */
  lemma {:induction false} DivideRemainderTruncate(lhs: Operand, rhs: Operand)
    requires HasBig(lhs, rhs) && rhs.Value() != 0
    ensures Divide(lhs, rhs) == TruncQuot(lhs.Value(), rhs.Value())
    ensures Remainder(lhs, rhs) == TruncRem(lhs.Value(), rhs.Value())
  {
    var n, d := lhs.Value(), rhs.Value();
    TruncDivisionUnique(n, d, Divide(lhs, rhs), Remainder(lhs, rhs));
  }

  /** `+`: a native left operand is passed to the word primitive as its
      second operand. */
  function Plus(lhs: Operand, rhs: Operand): (r: int)
    requires HasBig(lhs, rhs)
    ensures r == lhs.Value() + rhs.Value()
  {
    match (lhs, rhs)
    case (Big(a), Big(b)) => P.Add(a, b)
    case (Big(a), Int(b)) => P.AddSLong(a, b)
    case (Big(a), UInt(b)) => P.AddULong(a, b)
    case (Int(a), Big(b)) => P.AddSLong(b, a)
    case (UInt(a), Big(b)) => P.AddULong(b, a)
  }

  /** `-`: a native left operand is subtracted the other way round and the
      difference negated. */
  function Minus(lhs: Operand, rhs: Operand): (r: int)
    requires HasBig(lhs, rhs)
    ensures r == lhs.Value() - rhs.Value()
  {
    match (lhs, rhs)
    case (Big(a), Big(b)) => P.Sub(a, b)
    case (Big(a), Int(b)) => P.SubSLong(a, b)
    case (Big(a), UInt(b)) => P.SubULong(a, b)
    case (Int(a), Big(b)) => P.Neg(P.SubSLong(b, a))
    case (UInt(a), Big(b)) => P.Neg(P.SubULong(b, a))
  }

  /** `+` and `*` give the same integer in either operand order. */
  lemma PlusTimesCommute(lhs: Operand, rhs: Operand)
    requires HasBig(lhs, rhs)
    ensures Plus(lhs, rhs) == Plus(rhs, lhs)
    ensures Times(lhs, rhs) == Times(rhs, lhs)
  {
  }

  /** Swapping the operands of `-` negates the result. */
  lemma MinusAntiCommutes(lhs: Operand, rhs: Operand)
    requires HasBig(lhs, rhs)
    ensures Minus(lhs, rhs) == -Minus(rhs, lhs)
  {
  }

  /** Subtraction undoes addition with the same right operand. */
  lemma MinusUndoesPlus(lhs: int, rhs: Operand)
    ensures Minus(Big(Plus(Big(lhs), rhs)), rhs) == lhs
  {
  }

  // ---------------------------------------------------------------------------
  // Comparison operators: each tests the sign of one three-way compare; a
  // native left operand is compared from the right, `rhs.compare...(lhs)`.

  /** The three-way compare an operator calls, oriented as it is called:
      `lhs` against `rhs` for a `BigInt` left operand, `rhs` against `lhs`
      otherwise. */
  function Compared(lhs: Operand, rhs: Operand): (c: int)
    requires HasBig(lhs, rhs)
    ensures lhs.Big? ==> c == P.Compare(lhs.Value(), rhs.Value())
    ensures !lhs.Big? ==> c == P.Compare(rhs.Value(), lhs.Value())
  {
    match (lhs, rhs)
    case (Big(a), Big(b)) => P.Compare(a, b)
    case (Big(a), Int(b)) => P.CompareWithSLong(a, b)
    case (Big(a), UInt(b)) => P.CompareWithULong(a, b)
    case (Int(a), Big(b)) => P.CompareWithSLong(b, a)
    case (UInt(a), Big(b)) => P.CompareWithULong(b, a)
  }

  /** `<`: `compare < 0`, or `compare > 0` from the right. */
  function Less(lhs: Operand, rhs: Operand): (b: bool)
    requires HasBig(lhs, rhs)
    ensures b <==> lhs.Value() < rhs.Value()
  {
    if lhs.Big? then Compared(lhs, rhs) < 0 else Compared(lhs, rhs) > 0
  }

  /** `<=` as written: `compare <= 0` for a `BigInt` left operand, but
      `compare > 0` from the right for a native one, which is `<`. */
  function LessEq(lhs: Operand, rhs: Operand): (b: bool)
    requires HasBig(lhs, rhs)
    ensures lhs.Big? ==> (b <==> lhs.Value() <= rhs.Value())
    ensures !lhs.Big? ==> (b <==> lhs.Value() < rhs.Value())
  {
    if lhs.Big? then Compared(lhs, rhs) <= 0 else Compared(lhs, rhs) > 0
  }

  /** `>`: `compare > 0`, or `compare < 0` from the right. */
  function Greater(lhs: Operand, rhs: Operand): (b: bool)
    requires HasBig(lhs, rhs)
    ensures b <==> lhs.Value() > rhs.Value()
  {
    if lhs.Big? then Compared(lhs, rhs) > 0 else Compared(lhs, rhs) < 0
  }

  /** `>=` as written: `compare >= 0` for a `BigInt` left operand, but
      `compare < 0` from the right for a native one, which is `>`. */
  function GreaterEq(lhs: Operand, rhs: Operand): (b: bool)
    requires HasBig(lhs, rhs)
    ensures lhs.Big? ==> (b <==> lhs.Value() >= rhs.Value())
    ensures !lhs.Big? ==> (b <==> lhs.Value() > rhs.Value())
  {
    if lhs.Big? then Compared(lhs, rhs) >= 0 else Compared(lhs, rhs) < 0
  }

  /** `==`: `compare == 0` in either orientation. */
  function Equal(lhs: Operand, rhs: Operand): (b: bool)
    requires HasBig(lhs, rhs)
    ensures b <==> lhs.Value() == rhs.Value()
  {
    Compared(lhs, rhs) == 0
  }

  /** `!=`: `compare != 0` in either orientation. */
  function NotEqual(lhs: Operand, rhs: Operand): (b: bool)
    requires HasBig(lhs, rhs)
    ensures b <==> lhs.Value() != rhs.Value()
  {
    Compared(lhs, rhs) != 0
  }

  /** `<=` as evidently intended: a native left operand tests
      `compare >= 0` from the right. */
  function LessEqFixed(lhs: Operand, rhs: Operand): (b: bool)
    requires HasBig(lhs, rhs)
    ensures b <==> lhs.Value() <= rhs.Value()
  {
    if lhs.Big? then Compared(lhs, rhs) <= 0 else Compared(lhs, rhs) >= 0
  }

  /** `>=` as evidently intended: a native left operand tests
      `compare <= 0` from the right. */
  function GreaterEqFixed(lhs: Operand, rhs: Operand): (b: bool)
    requires HasBig(lhs, rhs)
    ensures b <==> lhs.Value() >= rhs.Value()
  {
    if lhs.Big? then Compared(lhs, rhs) >= 0 else Compared(lhs, rhs) <= 0
  }

  /** The written `<=` and `>=` differ from the intended ones exactly when
      a native left operand equals the `BigInt` on the right. */
  lemma LessEqGreaterEqDiffer(lhs: Operand, rhs: Operand)
    requires HasBig(lhs, rhs)
    ensures LessEq(lhs, rhs) != LessEqFixed(lhs, rhs) <==> !lhs.Big? && lhs.Value() == rhs.Value()
    ensures GreaterEq(lhs, rhs) != GreaterEqFixed(lhs, rhs) <==> !lhs.Big? && lhs.Value() == rhs.Value()
  {
  }

  /** The concrete input: `5 <= BigInt(5)` and `5 >= BigInt(5)` are false. */
  lemma NativeLessEqIsStrict()
    ensures !LessEq(Int(5), Big(5)) && LessEqFixed(Int(5), Big(5))
    ensures !GreaterEq(UInt(5), Big(5)) && GreaterEqFixed(UInt(5), Big(5))
  {
  }

  /** With the intended definitions the comparisons fit together: `<=` is
      `<` or `==`, `>=` is its mirror, and `<` and `>=` are complements. */
  lemma ComparisonsAgree(lhs: Operand, rhs: Operand)
    requires HasBig(lhs, rhs)
    ensures LessEqFixed(lhs, rhs) <==> Less(lhs, rhs) || Equal(lhs, rhs)
    ensures GreaterEqFixed(lhs, rhs) <==> LessEqFixed(rhs, lhs)
    ensures Less(lhs, rhs) <==> !GreaterEqFixed(lhs, rhs)
    ensures Greater(lhs, rhs) <==> Less(rhs, lhs)
    ensures NotEqual(lhs, rhs) <==> !Equal(lhs, rhs)
  {
  }

  // ---------------------------------------------------------------------------
  // Compound assignments: the receiver is updated in place by the instance
  // primitive; the result is the receiver's new value.

  /** `*=`: a `BigIntObjC`, `Int` or `UInt` right operand. */
  function TimesAssign(lhs: int, rhs: Operand): (r: int)
    ensures r == lhs * rhs.Value()
    ensures r == Times(Big(lhs), rhs)
  {
    match rhs
    case Big(b) => P.Mul(lhs, b)
    case Int(i) => P.MulSLong(lhs, i)
    case UInt(u) => P.MulULong(lhs, u)
  }

  /** `+=`: a `BigIntObjC`, `Int` or `UInt` right operand. */
  function PlusAssign(lhs: int, rhs: Operand): (r: int)
    ensures r == lhs + rhs.Value()
    ensures r == Plus(Big(lhs), rhs)
  {
    match rhs
    case Big(b) => P.Add(lhs, b)
    case Int(i) => P.AddSLong(lhs, i)
    case UInt(u) => P.AddULong(lhs, u)
  }

  /** `-=`: only a `UInt` right operand is declared. */
  function MinusAssign(lhs: int, rhs: ULong): (r: int)
    ensures r == lhs - rhs
    ensures r == Minus(Big(lhs), UInt(rhs))
  {
    P.SubULong(lhs, rhs)
  }
}
