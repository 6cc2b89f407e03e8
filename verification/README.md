# OSXGMP BigInt in Dafny

A model of the integer core of OSXGMP, a Swift wrapper over GNU MP. The core has two layers:

- **`BigIntObjC`** (Objective-C, `BigInt/BigIntObjC.h`). A class that owns one GMP `mpz_t`. It declares the GMP integer operations of sections 5.1–5.10 of the GMP manual: arithmetic, the ceiling- and truncation-rounding divisions, exponentiation, roots, comparison and text conversion.
- **`BigInt`** (Swift, `BigInt/BigInt.swift`). A subclass of `BigIntObjC`. It adds:
  - a validating string initialiser;
  - the operators `*`, `/`, `%`, `+`, `-`, `<`, `<=`, `>`, `>=`, `==` and `!=`, each overloaded over `BigInt`, `Int` and `UInt` in both orders;
  - the operator `**`, declared only for a `BigInt` base and a `UInt` exponent;
  - the compound assignments `*=`, `+=` and `-=`.

The value of an `mpz_t` is a Dafny `int`. Swift `Int`/`UInt` and the C `long`/`unsigned long` of the header are the 64-bit words `SLong` and `ULong`, and the C `int` base is `Int32`.

GMP's implementation is not part of the repository. So each primitive is a pure function, written in GMP's sign-and-magnitude terms, and proved against an independent reference:

- integer `+`, `-`, `*`;
- the division predicates `IsTruncDivision` and `IsCeilDivision`, each with a uniqueness lemma;
- the reference power `Pow`;
- the floor-root predicate `IsFloorRoot`;
- the existential "is `b^e` for some `e >= 2`".

The algorithms are exponentiation by squaring, the n-th root by binary search, and the perfect-power test. The perfect-power test tries every exponent from 2 up to the bit length.

Modules:

| file | module | models |
|---|---|---|
| `words.dfy` | `Words`, `Wrappers` | native word types; `Option`, `Result` |
| `integers.dfy` | `Integers` | `Abs`, `Pow`, `BitLength` and their algebra |
| `division.dfy` | `Division` | truncating and ceiling division |
| `roots.dfy` | `Exponent`, `Roots` | power by squaring; n-th root, perfect square and perfect power |
| `text.dfy` | `Text` | GMP's digit text (`mpz_set_str` / `mpz_get_str`) |
| `bigintobjc.dfy` | `BigIntObjC` | every primitive of the header, as a pure function (the class `+` forms) |
| `bigintobjc_object.dfy` | `BigIntObjCObject` | the object with one `value` field: the instance `-` forms, in place |
| `bigint.dfy` | `BigInt` | the Swift initialiser and the operator overloads |
| `examples_lemmas.dfy` | `Examples` | the values the unit tests assert |

An operator overload is a function of two `Operand`s, `Big(b)`, `Int(i)` or `UInt(u)`. It requires at least one `Big`, which is the overload set. Its body routes the operands to the primitive that `BigInt.swift` calls, in the same argument order.

## Model

| member | source | states |
|---|---|---|
| `BigInt.SetStringAndBase` | BigInt/BigInt.swift:67-79 | a base outside {0} ∪ [2,62] gives `InvalidBaseNumber` whatever the text, so it is checked before emptiness; otherwise empty text gives `EmptyStringNumber`; otherwise text GMP rejects gives `InvalidNumberFormat`; success is exactly GMP accepting the text, with GMP's value |
| `BigInt.InitStringNr` | BigInt/BigInt.swift:58-63 | the decimal initialisers never report a bad base; they give `EmptyStringNumber` exactly for empty text, and succeed exactly when the text is a decimal number, holding its value |
| `BigInt.InitFromPrinted` | BigInt/BigInt.swift:54-79 | initialising from a value printed in any base 2..62 succeeds with that value |
| `BigInt.PrintInitialised` | BigInt/BigInt.swift:54-79 | text as `toStringInBase:` prints it initialises successfully and prints back to the same text |
| `BigInt.IsPerfectPower` | BigInt/BigInt.swift:93-98 | true exactly when the value is `b^e` for some integer `b` and `e >= 2` |
| `BigInt.IsPerfectSquare` | BigInt/BigInt.swift:99-104 | true exactly when the value is `r^2` for some integer `r` |
| `BigInt.Root` | BigInt/BigInt.swift:105-110 | the result's magnitude is the floor n-th root of the operand's magnitude, with the operand's sign |
| `BigInt.Sqrt` | BigInt/BigInt.swift:111-116 | `r >= 0` and `r*r <= x < (r+1)*(r+1)` |
| `BigInt.Power` | BigInt/BigInt.swift:155-158 | `**` is `lhs^rhs`, negative exactly for a negative base and an odd exponent |
| `BigInt.Times` | BigInt/BigInt.swift:164-179 | every `*` overload is the product of the operand values |
| `BigInt.Divide` | BigInt/BigInt.swift:181-196 | every `/` overload, including a native dividend promoted to `BigInt`, meets the truncating-division contract: `N = Q*D + R`, `|R| < |D|`, `R` zero or of `N`'s sign |
| `BigInt.Remainder` | BigInt/BigInt.swift:198-213 | every `%` overload is the remainder that goes with `/`: it completes `N = (N/D)*D + R` with `R` zero or of the dividend's sign |
| `BigInt.DivideRemainderTruncate` | BigInt/BigInt.swift:182-213 | `/` and `%` are exactly the truncating quotient and remainder of the values, for all ten overloads |
| `BigInt.Plus` | BigInt/BigInt.swift:221-236 | every `+` overload is the sum of the operand values |
| `BigInt.Minus` | BigInt/BigInt.swift:238-257 | every `-` overload is the difference; native-minus-`BigInt`, computed as `neg(rhs - lhs)`, is `lhs - rhs` |
| `BigInt.PlusTimesCommute` | BigInt/BigInt.swift:164-236 | `+` and `*` give the same integer with the operands in either order |
| `BigInt.MinusAntiCommutes` | BigInt/BigInt.swift:239-257 | swapping the operands of `-` negates the result |
| `BigInt.MinusUndoesPlus` | BigInt/BigInt.swift:222-247 | `(x + y) - y == x` for every right-operand type |
| `BigInt.Compared` | BigInt/BigInt.swift:274-373 | each comparison operator calls one three-way compare, `lhs` against `rhs` for a `BigInt` left operand and `rhs` against `lhs` for a native one |
| `BigInt.Less` | BigInt/BigInt.swift:273-288 | every `<` overload holds exactly when `lhs < rhs`; the commuted forms flip the compare correctly |
| `BigInt.LessEq` | BigInt/BigInt.swift:290-305 | `<=` as written: `lhs <= rhs` for a `BigInt` left operand, but `lhs < rhs` for a native one |
| `BigInt.Greater` | BigInt/BigInt.swift:307-322 | every `>` overload holds exactly when `lhs > rhs` |
| `BigInt.GreaterEq` | BigInt/BigInt.swift:324-339 | `>=` as written: `lhs >= rhs` for a `BigInt` left operand, but `lhs > rhs` for a native one |
| `BigInt.Equal` | BigInt/BigInt.swift:341-356 | every `==` overload holds exactly when the values are equal |
| `BigInt.NotEqual` | BigInt/BigInt.swift:358-373 | every `!=` overload holds exactly when the values differ |
| `BigInt.LessEqFixed` | BigInt/BigInt.swift:300-305 | `<=` with the commuted test corrected to `compare >= 0`: holds exactly when `lhs <= rhs` for every overload |
| `BigInt.GreaterEqFixed` | BigInt/BigInt.swift:334-339 | `>=` with the commuted test corrected to `compare <= 0`: holds exactly when `lhs >= rhs` for every overload |
| `BigInt.LessEqGreaterEqDiffer` | BigInt/BigInt.swift:290-339 | the written `<=`/`>=` differ from the intended ones exactly when a native left operand equals the `BigInt` on the right |
| `BigInt.NativeLessEqIsStrict` | BigInt/BigInt.swift:300-339 | `5 <= BigInt(5)` and `UInt(5) >= BigInt(5)` are false as written and true as intended |
| `BigInt.ComparisonsAgree` | BigInt/BigInt.swift:274-373 | with the corrected `<=`/`>=`, `<=` is `<` or `==`, `>=` is `<=` mirrored, `<` is the complement of `>=`, `>` is `<` mirrored, and `!=` is the complement of `==` |
| `BigInt.TimesAssign` | BigInt/BigInt.swift:393-402 | `*=` makes the receiver `lhs * rhs`, the same as the binary `*`; the in-place update is `BigIntObjCObject.BigIntObjC.Mul`, `MulSLong` or `MulULong` |
| `BigInt.PlusAssign` | BigInt/BigInt.swift:406-415 | `+=` makes the receiver `lhs + rhs`, the same as the binary `+`; the in-place update is `BigIntObjCObject.BigIntObjC.Add`, `AddSLong` or `AddULong` |
| `BigInt.MinusAssign` | BigInt/BigInt.swift:417-420 | `-=` with a `UInt` makes the receiver `lhs - rhs`, the same as the binary `-`; the in-place update is `BigIntObjCObject.BigIntObjC.SubULong` |
| `BigIntObjC.Abs` | BigInt/BigIntObjC.h:78-79 | non-negative and equal to the operand or its negation |
| `BigIntObjC.Neg` | BigInt/BigIntObjC.h:99-100 | the additive inverse |
| `BigIntObjC.NegAbsLaws` | BigInt/BigIntObjC.h:78-100 | `neg` is an involution, `abs` ignores it and is idempotent |
| `BigIntObjC.Add` | BigInt/BigIntObjC.h:81-82 | the integer sum, from GMP's sign-and-magnitude case split |
| `BigIntObjC.AddSLong` | BigInt/BigIntObjC.h:83-84 | the integer sum with a signed word |
| `BigIntObjC.AddULong` | BigInt/BigIntObjC.h:85-86 | the integer sum with an unsigned word |
| `BigIntObjC.Sub` | BigInt/BigIntObjC.h:102-103 | the integer difference |
| `BigIntObjC.SubSLong` | BigInt/BigIntObjC.h:104-105 | the integer difference with a signed word |
| `BigIntObjC.SubULong` | BigInt/BigIntObjC.h:106-107 | the integer difference with an unsigned word |
| `BigIntObjC.SubUndoesAdd` | BigInt/BigIntObjC.h:81-107 | subtracting what was added restores the operand, for all three variants |
| `BigIntObjC.Mul` | BigInt/BigIntObjC.h:88-89 | the integer product, from the product of magnitudes and the sign rule |
| `BigIntObjC.MulSLong` | BigInt/BigIntObjC.h:90-91 | the integer product with a signed word |
| `BigIntObjC.MulULong` | BigInt/BigIntObjC.h:92-93 | the integer product with an unsigned word |
| `BigIntObjC.AddMul` | BigInt/BigIntObjC.h:94 | `rop + op1*op2` |
| `BigIntObjC.AddMulULong` | BigInt/BigIntObjC.h:95 | `rop + op1*op2` with an unsigned-word factor |
| `BigIntObjC.SubMul` | BigInt/BigIntObjC.h:108 | `rop - op1*op2` |
| `BigIntObjC.SubMulULong` | BigInt/BigIntObjC.h:109 | `rop - op1*op2` with an unsigned-word factor |
| `BigIntObjC.AddMulSubMulCancel` | BigInt/BigIntObjC.h:94-109 | `addMul` followed by `subMul` with the same operands restores the receiver, and the other way round |
| `BigIntObjC.ShiftLeft` | BigInt/BigIntObjC.h:96-97 | shifting a magnitude left bit by bit multiplies it by `2^k` |
| `BigIntObjC.Mul2Exp` | BigInt/BigIntObjC.h:96-97 | `op * 2^exp` |
| `BigIntObjC.DivCeilQ` | BigInt/BigIntObjC.h:113-116 | the quotient meets the ceiling-division contract: `R = N - Q*D`, `|R| < |D|`, `R` zero or opposite in sign to `D` |
| `BigIntObjC.DivCeilR` | BigInt/BigIntObjC.h:117-118 | the remainder that goes with that quotient |
| `BigIntObjC.DivCeilQR` | BigInt/BigIntObjC.h:119 | quotient and remainder together meet the ceiling-division contract |
| `BigIntObjC.DivCeilQULong` | BigInt/BigIntObjC.h:120 | the ceiling quotient by an unsigned word, returning the remainder's magnitude |
| `BigIntObjC.DivCeilRULong` | BigInt/BigIntObjC.h:121 | the ceiling remainder by an unsigned word, and its magnitude as return value |
| `BigIntObjC.DivCeilQRULong` | BigInt/BigIntObjC.h:122 | quotient, remainder and the remainder's magnitude |
| `BigIntObjC.DivCeilULong` | BigInt/BigIntObjC.h:123 | only the magnitude of the ceiling remainder |
| `BigIntObjC.DivCeilQ2Exp` | BigInt/BigIntObjC.h:124 | the ceiling quotient by `2^b` |
| `BigIntObjC.DivCeilR2Exp` | BigInt/BigIntObjC.h:125 | the ceiling remainder by `2^b` |
| `BigIntObjC.DivCeil2ExpUndoesMul2Exp` | BigInt/BigIntObjC.h:96-125 | ceiling division by `2^b` undoes `mul2Exp` by `b`, with remainder 0 |
| `BigIntObjC.DivTruncateQ` | BigInt/BigIntObjC.h:133-134 | the quotient meets the truncating-division contract |
| `BigIntObjC.DivTruncateQULong` | BigInt/BigIntObjC.h:135-136 | the truncating quotient by an unsigned word and the remainder's magnitude |
| `BigIntObjC.DivTruncateULong` | BigInt/BigIntObjC.h:137-138 | only the magnitude of the truncating remainder |
| `BigIntObjC.Div` | BigInt/BigIntObjC.h:142-143 | the quotient behind `/` meets the truncating-division contract |
| `BigIntObjC.DivSLong` | BigInt/BigIntObjC.h:144-145 | the same with a signed-word divisor |
| `BigIntObjC.DivULong` | BigInt/BigIntObjC.h:146-147 | the same with an unsigned-word divisor |
| `BigIntObjC.Mod` | BigInt/BigIntObjC.h:148-149 | the remainder behind `%` goes with `div:d:` and carries the dividend's sign |
| `BigIntObjC.Power` | BigInt/BigIntObjC.h:153-154 | `base^exp`, negative exactly for a negative base and an odd exponent |
| `BigIntObjC.PowerULong` | BigInt/BigIntObjC.h:155-156 | `base^exp` of two unsigned words, never negative |
| `BigIntObjC.IsPerfectPower` | BigInt/BigIntObjC.h:160-161 | true exactly when the value is `b^e` for some `b` and `e >= 2` |
| `BigIntObjC.IsPerfectSquare` | BigInt/BigIntObjC.h:162-163 | true exactly when the value is a square of an integer |
| `BigIntObjC.Root` | BigInt/BigIntObjC.h:165-166 | `|r|^n <= |x| < (|r|+1)^n`, with `r` negative exactly when `x` is |
| `BigIntObjC.RootOfPower` | BigInt/BigIntObjC.h:153-166 | `root` undoes `power`: the n-th root of `b^n` is `b` wherever the root is defined |
| `BigIntObjC.Sqrt` | BigInt/BigIntObjC.h:168-169 | `r*r <= x < (r+1)*(r+1)` |
| `BigIntObjC.Compare` | BigInt/BigIntObjC.h:181 | -1, 0 or 1, negative exactly when `op1 < op2` and zero exactly when equal |
| `BigIntObjC.CompareAntisymmetric` | BigInt/BigIntObjC.h:181 | swapping the operands negates the result |
| `BigIntObjC.CompareWithSLong` | BigInt/BigIntObjC.h:182 | the same against a signed word |
| `BigIntObjC.CompareWithULong` | BigInt/BigIntObjC.h:183 | the same against an unsigned word |
| `BigIntObjC.Equals` | BigInt/BigIntObjC.h:184 | true exactly when the values are equal |
| `BigIntObjC.Sign` | BigInt/BigIntObjC.h:185-186 | in {-1, 0, 1} with the value's sign, and equal to comparing with 0 |
| `BigIntObjC.SetFromString` | BigInt/BigIntObjC.h:54 | status 0 or -1; status 0 exactly when the text is a number in the base, and then the receiver holds its value; a rejected text leaves the receiver's value unchanged |
| `BigIntObjC.ToStringInBase` | BigInt/BigIntObjC.h:73 | the text is canonical (the printer's digit characters, no leading zero, no `-0`) and parses back, in the same base, to the value |
| `BigIntObjC.ToString` | BigInt/BigIntObjC.h:72 | the decimal text is canonical and parses back to the value |
| `Division.TruncDivisionUnique` | BigInt/BigIntObjC.h:133-149 | the truncating quotient and remainder are the only pair meeting the truncating-division contract |
| `Division.CeilDivisionUnique` | BigInt/BigIntObjC.h:113-125 | the ceiling quotient and remainder are the only pair meeting the ceiling-division contract |
| `Division.CeilQuotRoundsUp` | BigInt/BigIntObjC.h:113-116 | for a positive divisor the ceiling quotient is the least `q` with `q*d >= n` |
| `Division.TruncQuotRoundsTowardZero` | BigInt/BigIntObjC.h:142-147 | the truncating quotient's magnitude is the floor of `|n|/|d|` |
| `Exponent.PowBySquaring` | BigInt/BigIntObjC.h:153-156 | squaring the base and halving the exponent computes `b^e` |
| `Exponent.PowBySquaringSign` | BigInt/BigIntObjC.h:153-156 | the power is negative exactly for a negative base and odd exponent; exponent 0 gives 1 |
| `Roots.RootSearch` | BigInt/BigIntObjC.h:164-169 | binary search between bounds `lo^n <= a < hi^n` finds the floor n-th root |
| `Roots.FloorRoot` | BigInt/BigIntObjC.h:164-169 | the floor n-th root of a magnitude |
| `Roots.FloorRootUnique` | BigInt/BigIntObjC.h:164-169 | the floor n-th root is the only `r` with `r^n <= a < (r+1)^n` |
| `Roots.FloorRootZero` | BigInt/BigIntObjC.h:164-169 | the root is 0 exactly for 0 |
| `Roots.FloorRootOfPower` | BigInt/BigIntObjC.h:164-169 | the n-th root of `|b|^n` is `|b|` |
| `Roots.PerfectSquareCorrect` | BigInt/BigIntObjC.h:162-163 | the square test (root, then square back) holds exactly for squares of integers |
| `Roots.PerfectPowerCorrect` | BigInt/BigIntObjC.h:160-161 | the power test (every exponent up to the bit length) holds exactly for `b^e`, `e >= 2` |
| `Text.DigitText` | BigInt/BigIntObjC.h:73 | the digits of a magnitude are digits of the base, have that value, and have no leading zero |
| `Text.DigitTextCanonical` | BigInt/BigIntObjC.h:73 | the digits of a magnitude are canonical (the printer's characters, no leading zero), and are `0` exactly for zero |
| `Text.ToStringCanonical` | BigInt/BigIntObjC.h:73 | the printed text of every value is canonical: optional `-`, canonical digits, never `-0` |
| `Text.ParseFormatRoundTrip` | BigInt/BigIntObjC.h:54-73 | printing a value in a base and parsing it in that base gives the value |
| `Text.FormatParseRoundTrip` | BigInt/BigIntObjC.h:54-73 | parsing canonical text and printing the value reproduces the text |
| `BigIntObjCObject.BigIntObjC.constructor` | BigInt/BigIntObjC.h:43 | `- init`, and the Swift `init()` over it (BigInt.swift:39-41): a new object holds 0 |
| `BigIntObjCObject.BigIntObjC.WithBigInt` | BigInt/BigIntObjC.h:61 | `- initWithBigInt:`, and the Swift `init(nr:)` over it (BigInt.swift:42-44): a new object holds the other object's value |
| `BigIntObjCObject.BigIntObjC.WithSLong` | BigInt/BigIntObjC.h:63 | `- initWithSLong:`, and the Swift `init(intNr:)` over it (BigInt.swift:48-50): a new object holds the signed word's value |
| `BigIntObjCObject.BigIntObjC.WithULong` | BigInt/BigIntObjC.h:66 | `- initWithULong:`, and the Swift `init(uintNr:)` over it (BigInt.swift:51-53): a new object holds the unsigned word's value |
| `BigIntObjCObject.BigIntObjC.SetFromString` | BigInt/BigIntObjC.h:54 | status 0 exactly when the text is a number in the base, and the receiver then holds its value; otherwise the receiver keeps its value |
| `BigIntObjCObject.BigIntObjC.Swap` | BigInt/BigIntObjC.h:56 | the two objects exchange values |
| `BigIntObjCObject.BigIntObjC.SwapPair` | BigInt/BigIntObjC.h:57 | the class form exchanges the values of its two arguments |
| `BigIntObjCObject.BigIntObjC.AbsOf` | BigInt/BigIntObjC.h:79 | a new object with the absolute value; the operand is not modified |
| `BigIntObjCObject.BigIntObjC.NegOf` | BigInt/BigIntObjC.h:100 | a new object with the negation; the operand is not modified |
| `BigIntObjCObject.BigIntObjC.AddMul` | BigInt/BigIntObjC.h:94 | the receiver becomes `self + op1*op2` |
| `BigIntObjCObject.BigIntObjC.SubMul` | BigInt/BigIntObjC.h:108 | the receiver becomes `self - op1*op2` |
| `BigIntObjCObject.BigIntObjC.Mul2Exp` | BigInt/BigIntObjC.h:96 | the receiver becomes `self * 2^exp` |
| `BigIntObjCObject.BigIntObjC.DivCeilQR` | BigInt/BigIntObjC.h:119 | quotient and remainder objects meet the ceiling-division contract for the receiver as dividend |
| `BigIntObjCObject.BigIntObjC.SetRoot` | BigInt/BigIntObjC.h:164 | the receiver becomes its n-th root, and the result is nonzero exactly when the root is exact |
| `BigIntObjCObject.BigIntObjC.SetSqrt` | BigInt/BigIntObjC.h:167 | the receiver becomes its square root, the same value `sqrt` returns |
| `BigIntObjCObject.BigIntObjC.Equals` | BigInt/BigIntObjC.h:184 | true exactly when the two objects hold equal values |
| `BigIntObjCObject.BigIntObjC.SetFromBigInt` | BigInt/BigIntObjC.h:49 | the receiver takes the other object's value |
| `BigIntObjCObject.BigIntObjC.SetFromSLong` | BigInt/BigIntObjC.h:52 | the receiver takes the signed word's value |
| `BigIntObjCObject.BigIntObjC.SetFromULong` | BigInt/BigIntObjC.h:55 | the receiver takes the unsigned word's value |
| `BigIntObjCObject.BigIntObjC.ToStringInBase` | BigInt/BigIntObjC.h:73 | the receiver's text is canonical and parses back, in the same base, to its value |
| `BigIntObjCObject.BigIntObjC.Abs` | BigInt/BigIntObjC.h:78 | the receiver becomes its absolute value |
| `BigIntObjCObject.BigIntObjC.Add` | BigInt/BigIntObjC.h:81 | the receiver becomes `self + op` |
| `BigIntObjCObject.BigIntObjC.AddSLong` | BigInt/BigIntObjC.h:83 | the receiver becomes `self + op` for a signed word |
| `BigIntObjCObject.BigIntObjC.AddULong` | BigInt/BigIntObjC.h:85 | the receiver becomes `self + op` for an unsigned word |
| `BigIntObjCObject.BigIntObjC.Mul` | BigInt/BigIntObjC.h:88 | the receiver becomes `self * op` |
| `BigIntObjCObject.BigIntObjC.MulSLong` | BigInt/BigIntObjC.h:90 | the receiver becomes `self * op` for a signed word |
| `BigIntObjCObject.BigIntObjC.MulULong` | BigInt/BigIntObjC.h:92 | the receiver becomes `self * op` for an unsigned word |
| `BigIntObjCObject.BigIntObjC.AddMulULong` | BigInt/BigIntObjC.h:95 | the receiver becomes `self + op1*op2` with a word factor |
| `BigIntObjCObject.BigIntObjC.Neg` | BigInt/BigIntObjC.h:99 | the receiver becomes its negation |
| `BigIntObjCObject.BigIntObjC.Sub` | BigInt/BigIntObjC.h:102 | the receiver becomes `self - op` |
| `BigIntObjCObject.BigIntObjC.SubSLong` | BigInt/BigIntObjC.h:104 | the receiver becomes `self - op` for a signed word |
| `BigIntObjCObject.BigIntObjC.SubULong` | BigInt/BigIntObjC.h:106 | the receiver becomes `self - op` for an unsigned word |
| `BigIntObjCObject.BigIntObjC.SubMulULong` | BigInt/BigIntObjC.h:109 | the receiver becomes `self - op1*op2` with a word factor |
| `BigIntObjCObject.BigIntObjC.DivCeilQ` | BigInt/BigIntObjC.h:113 | a new object holds the ceiling quotient of the receiver by `d` |
| `BigIntObjCObject.BigIntObjC.DivCeilQInto` | BigInt/BigIntObjC.h:115 | `q` gets the ceiling quotient of the receiver by `d` |
| `BigIntObjCObject.BigIntObjC.DivCeilQOf` | BigInt/BigIntObjC.h:116 | `q` gets the ceiling quotient of `n` by `d` |
| `BigIntObjCObject.BigIntObjC.DivCeilR` | BigInt/BigIntObjC.h:117 | `r` gets the remainder of the ceiling division of the receiver by `d` |
| `BigIntObjCObject.BigIntObjC.DivCeilROf` | BigInt/BigIntObjC.h:118 | `r` gets the remainder of the ceiling division of `n` by `d` |
| `BigIntObjCObject.BigIntObjC.DivCeilQULong` | BigInt/BigIntObjC.h:120 | `q` gets the ceiling quotient by a word, and the result is the magnitude of the remainder |
| `BigIntObjCObject.BigIntObjC.DivCeilRULong` | BigInt/BigIntObjC.h:121 | `r` gets the ceiling remainder by a word, and the result is its magnitude |
| `BigIntObjCObject.BigIntObjC.DivCeilQRULong` | BigInt/BigIntObjC.h:122 | `q` and `r` meet the ceiling-division contract by a word, and the result is the remainder's magnitude |
| `BigIntObjCObject.BigIntObjC.DivCeilULong` | BigInt/BigIntObjC.h:123 | the magnitude of the ceiling remainder by a word; the receiver is unchanged |
| `BigIntObjCObject.BigIntObjC.DivCeilQ2Exp` | BigInt/BigIntObjC.h:124 | `q` gets the ceiling of the receiver divided by `2^b` |
| `BigIntObjCObject.BigIntObjC.DivCeilR2Exp` | BigInt/BigIntObjC.h:125 | `r` gets the remainder of the ceiling division by `2^b` |
| `BigIntObjCObject.BigIntObjC.DivTruncateQ` | BigInt/BigIntObjC.h:133 | `q` gets the truncating quotient of the receiver by `d` |
| `BigIntObjCObject.BigIntObjC.DivTruncateQOf` | BigInt/BigIntObjC.h:134 | `q` gets the truncating quotient of `n` by `d` |
| `BigIntObjCObject.BigIntObjC.DivTruncateQULong` | BigInt/BigIntObjC.h:135 | `q` gets the truncating quotient by a word, and the result is the magnitude of the remainder |
| `BigIntObjCObject.BigIntObjC.DivTruncateQULongOf` | BigInt/BigIntObjC.h:136 | `q` gets the truncating quotient of `n` by a word, and the result is the magnitude of the remainder |
| `BigIntObjCObject.BigIntObjC.DivTruncateULong` | BigInt/BigIntObjC.h:137 | the magnitude of the truncating remainder by a word; the receiver is unchanged |
| `BigIntObjCObject.BigIntObjC.Div` | BigInt/BigIntObjC.h:142 | a new object holds the truncating quotient of the receiver by `d` |
| `BigIntObjCObject.BigIntObjC.DivSLong` | BigInt/BigIntObjC.h:144 | a new object holds the truncating quotient by a signed word |
| `BigIntObjCObject.BigIntObjC.DivULong` | BigInt/BigIntObjC.h:146 | a new object holds the truncating quotient by an unsigned word |
| `BigIntObjCObject.BigIntObjC.Mod` | BigInt/BigIntObjC.h:148 | a new object holds the truncating remainder, with the dividend's sign |
| `BigIntObjCObject.BigIntObjC.Power` | BigInt/BigIntObjC.h:153 | the receiver becomes `self^exp` |
| `BigIntObjCObject.BigIntObjC.SetFromULongPower` | BigInt/BigIntObjC.h:156 | the receiver becomes `base^exp` for two words |
| `BigIntObjCObject.BigIntObjC.IsPerfectPower` | BigInt/BigIntObjC.h:160 | true exactly when the receiver is `b^e` for some `e >= 2` |
| `BigIntObjCObject.BigIntObjC.IsPerfectSquare` | BigInt/BigIntObjC.h:162 | true exactly when the receiver is a square |
| `BigIntObjCObject.BigIntObjC.Root` | BigInt/BigIntObjC.h:165 | a new object holds the truncated n-th root, with the receiver's sign |
| `BigIntObjCObject.BigIntObjC.Sqrt` | BigInt/BigIntObjC.h:168 | a new object holds the floor square root of the receiver |
| `BigIntObjCObject.BigIntObjC.Compare` | BigInt/BigIntObjC.h:181 | the sign of the result is the order of the receiver and `bn` |
| `BigIntObjCObject.BigIntObjC.CompareWithSLong` | BigInt/BigIntObjC.h:182 | the sign of the result is the order of the receiver and a signed word |
| `BigIntObjCObject.BigIntObjC.CompareWithULong` | BigInt/BigIntObjC.h:183 | the sign of the result is the order of the receiver and an unsigned word |
| `BigIntObjCObject.BigIntObjC.Sign` | BigInt/BigIntObjC.h:185 | -1, 0 or 1 with the sign of the receiver |
| `Examples.StringInitExamples` | OSXGMPFrameworkMacTests/BigIntSwiftTest.swift:43-77 | `""` is `EmptyStringNumber`, base 63 is `InvalidBaseNumber` even for `""`, `"12"` in base 2 is `InvalidNumberFormat`, and `"12"` in base 3 is 5 |
| `Examples.BinaryTextExample` | OSXGMPTest/BigIntSwiftTest.swift:155-173 | 9 prints as `1001` in base 2 |
| `Examples.DecimalTextExample` | OSXGMPTest/BigIntSwiftTest.swift:91-94 | `1234567890987654321` initialises and prints back unchanged |
| `Examples.ArithmeticExamples` | OSXGMPTest/BigIntSwiftTest.swift:111-333 | the mixed-type sums, differences and products the tests assert, the `addMul`/`subMul` chain back to 333, and `222 * 2^22 = 931135488` |
| `Examples.DivisionExamples` | OSXGMPTest/BigIntSwiftTest.swift:441-578 | `101/-25 = -4`, `-101/-25 = 4`, `1200/-101 = -11`, `123456 % -78 = 60`, `-123456 mod ±78 = -60` and the other tested quotients |
| `Examples.CeilingExamples` | OSXGMPTest/BigIntSwiftTest.swift:406-430 | the ceiling quotient of 101 by 25 is 5 |
| `Examples.PowerExamples` | OSXGMPTest/BigIntSwiftTest.swift:582-614 | `29 ** 23` and `(-29) ** 23 = -4316720717749415770740818372739989` |
| `Examples.RootExamples` | OSXGMPTest/BigIntSwiftTest.swift:655-676 | `root(239072435685151324847153, 19) = 17`, `root(4294967296, 16) = 4`, `sqrt(65556) = 256` |
| `Examples.PerfectPowerExamples` | OSXGMPTest/BigIntSwiftTest.swift:618-652 | `11^23` and `-134217728` are perfect powers; `123456789^2` is a square and one less is not |
| `Examples.ComparisonExamples` | OSXGMPTest/BigIntSwiftTest.swift:683-733 | the compare, compare-with-word, equals and sign results the tests assert |
| `Examples.ComparisonOperatorExamples` | OSXGMPTest/BigIntSwiftTest.swift:735-813 | all thirty results of `<`, `<=`, `>`, `>=`, `==` and `!=` the tests assert, over `BigInt`, `Int` and `UInt` operands in both orders |

## Left out

- Floor division. The header declares none; its floor section is a placeholder.
- Division by zero, an even root of a negative value, and `root` with `n == 0`. GMP aborts on these, and the code has no error path for them, so they are preconditions.
- `BigIntObjC.Compare`: GMP promises only the sign of `mpz_cmp`. The model returns exactly -1, 0 or 1, the values the tests compare against.
- `BigIntObjC.CompareWithSLong`: GMP promises only the sign of `mpz_cmp_si`, which can return other values when the sizes differ. The model returns exactly -1, 0 or 1, as for `compare:`.
- `BigIntObjC.CompareWithULong`: GMP promises only the sign of `mpz_cmp_ui`, which can return other values when the sizes differ. The model returns exactly -1, 0 or 1, as for `compare:`.
- `BigIntObjCObject.BigIntObjC.Compare`, `CompareWithSLong` and `CompareWithULong` return what the pure functions return, so the same exact -1, 0 or 1 applies.
- The test value 40353596, which is not a perfect power, is not worked out as an example. `Roots.PerfectPowerCorrect` covers it in general. Working it out would need a root search for every exponent from 2 to 26.
- Floating point: `init(doubleNr:)`, `initWithDouble:`, `setFromDouble:`, `toDouble`, `setFromBigFloat:` and `setFromBigRational:`.
- The narrowing conversions `toInt`, `toUInt`, `toSLong` and `toULong`. Their overflow behaviour is unspecified.
- Number-theoretic and miscellaneous declarations: `factorial`, the prime functions, `fibonacciN`, `dump`, `nrDigits` and `reverse`.
- `setFromString:error:` without a base, and `initWithString:…error:`. Their implementation file is not part of this model, so neither the default base nor the failure value is known. The Swift initialiser instead uses `init` followed by `setFromString:withBase:error:`, which is modelled.
- Parsing of white space: GMP's `mpz_set_str` skips it. Upper-case output for a negative base passed to `mpz_get_str`.
  - The digit table and the base-0 prefix detection follow GMP's documented convention. GMP's own code is not in the repository.
- `BigInt.TimesAssign`, `BigInt.PlusAssign` and `BigInt.MinusAssign` are modelled by value: each gives the value left in `lhs`. Their in-place effect on the shared object, which other references to `lhs` see, is that of the object methods `Mul`, `MulSLong`, `MulULong`, `Add`, `AddSLong`, `AddULong` and `SubULong` of `BigIntObjCObject`.
- The class forms that return a new object for the other operations. Each is modelled by the pure function of the same name in `BigIntObjC`. Only `+ abs:` and `+ neg:` have object models, because the tests check that the operand is left unmodified.
- Memory management (`dealloc`, `clear`, `deinit`) and the `NSError` pointer plumbing.
- `BigRational`, `BigFloat`, the demo `main.swift`, the umbrella header and `BigIntError.h`. They are outside the integer core.

## Findings

| source | as written | input that shows it | evidently intended | confidence | as-written member | corrected member |
|---|---|---|---|---|---|---|
| BigInt/BigInt.swift:300-305 | `Int <= BigInt` and `UInt <= BigInt` return `rhs.compare(lhs) > 0`, which is strict `<` | `5 <= BigInt(5)` is false | `rhs.compare(lhs) >= 0`, so `lhs <= rhs` holds for equal values | high; not executed | `BigInt.LessEq`, `BigInt.NativeLessEqIsStrict` | `BigInt.LessEqFixed` |
| BigInt/BigInt.swift:334-339 | `Int >= BigInt` and `UInt >= BigInt` return `rhs.compare(lhs) < 0`, which is strict `>` | `UInt(5) >= BigInt(5)` is false | `rhs.compare(lhs) <= 0`, so `lhs >= rhs` holds for equal values | high; not executed | `BigInt.GreaterEq`, `BigInt.NativeLessEqIsStrict` | `BigInt.GreaterEqFixed` |

The unit tests for these operators use only operands that differ, so they pass either way. `BigInt.LessEqGreaterEqDiffer` proves that the written and corrected forms differ on exactly the equal native-left inputs. `BigInt.ComparisonsAgree` proves that the corrected forms fit with `<`, `>` and `==`.
