/** Worked values the repository's unit tests assert, derived from the
    contracts of the model.
 */
module Examples {
  import opened Words
  import opened Wrappers
  import opened Integers
  import opened Division
  import Roots
  import Text
  import P = BigIntObjC
  import B = BigInt

  /** The string initialiser's three failures and its success on "12" in
      base 3. */
  lemma StringInitExamples()
    ensures B.SetStringAndBase("", 10) == Failure(B.EmptyStringNumber)
    ensures B.SetStringAndBase("101", 63) == Failure(B.InvalidBaseNumber)
    ensures B.SetStringAndBase("", 63) == Failure(B.InvalidBaseNumber)
    ensures B.SetStringAndBase("12", 2) == Failure(B.InvalidNumberFormat)
    ensures B.SetStringAndBase("12", 3) == Success(5)
  {
    assert "12"[..1] == "1" && "1"[..0] == "";
    assert Text.TextValue("12", 3) == 5;
  }

  /** 9 prints as `1001` in base 2. */
  lemma BinaryTextExample()
    ensures P.ToStringInBase(9, 2) == "1001"
  {
    assert Text.DigitText(1, 2) == "1";
    assert Text.DigitText(2, 2) == "10";
    assert Text.DigitText(4, 2) == "100";
    assert Text.DigitText(9, 2) == "1001";
  }

  /** Decimal text initialises to its value and prints back unchanged. */
  lemma DecimalTextExample()
    ensures B.InitStringNr("1234567890987654321").Success?
    ensures P.ToString(B.InitStringNr("1234567890987654321").value) == "1234567890987654321"
  {
    var s := "1234567890987654321";
    assert Text.IsCanonicalText(s, 10);
    B.PrintInitialised(s, 10);
  }

  /** Additive and multiplicative operators over mixed operand types. */
  lemma ArithmeticExamples()
    ensures B.Plus(B.Int(-111000000), B.Big(222000000)) == 111000000
    ensures B.Minus(B.Int(-111000000), B.Big(222000000)) == -333000000
    ensures B.Minus(B.UInt(111000), B.Big(222000000)) == -221889000
    ensures B.Times(B.Int(-333000), B.Big(111000)) == -36963000000
    ensures B.PlusAssign(B.PlusAssign(B.PlusAssign(11110000, B.Big(2200)), B.UInt(24)), B.Int(-2)) == 11112222
    ensures P.SubMulULong(P.SubMul(P.AddMulULong(P.AddMul(333, 111000, 222), 111000, 444), 111000, 222), 111000, 444) == 333
    ensures P.Mul2Exp(222, 22) == 931135488
    ensures P.Mul2Exp(111000, 11) == 227328000
  {
    assert Pow(2, 11) == 2048;
    assert Pow(2, 22) == Pow(2, 11) * Pow(2, 11) by {
      PowAdd(2, 11, 11);
    }
  }

  /** Truncating `/` and `%` with every sign combination the tests use. */
  lemma DivisionExamples()
    ensures B.Divide(B.Big(101), B.Big(25)) == 4
    ensures B.Divide(B.Big(101), B.Big(-25)) == -4
    ensures B.Divide(B.Big(-101), B.Big(25)) == -4
    ensures B.Divide(B.Big(-101), B.Int(-25)) == 4
    ensures B.Divide(B.Big(-101), B.UInt(33)) == -3
    ensures B.Divide(B.Int(-2300), B.Big(101)) == -22
    ensures B.Divide(B.UInt(1200), B.Big(-101)) == -11
    ensures B.Remainder(B.Big(123456), B.Int(-78)) == 60
    ensures B.Remainder(B.Big(123456), B.UInt(78)) == 60
    ensures P.Mod(-123456, 78) == -60
    ensures P.Mod(-123456, -78) == -60
  {
    B.DivideRemainderTruncate(B.Big(101), B.Big(25));
    B.DivideRemainderTruncate(B.Big(101), B.Big(-25));
    B.DivideRemainderTruncate(B.Big(-101), B.Big(25));
    B.DivideRemainderTruncate(B.Big(-101), B.Int(-25));
    B.DivideRemainderTruncate(B.Big(-101), B.UInt(33));
    B.DivideRemainderTruncate(B.Int(-2300), B.Big(101));
    B.DivideRemainderTruncate(B.UInt(1200), B.Big(-101));
    B.DivideRemainderTruncate(B.Big(123456), B.Int(-78));
    B.DivideRemainderTruncate(B.Big(123456), B.UInt(78));
    TruncDivisionUnique(-123456, 78, -1582, -60);
    TruncDivisionUnique(-123456, -78, 1582, -60);
  }

  /** Ceiling division of 101 by 25 in its quotient and combined forms. */
  lemma CeilingExamples()
    ensures P.DivCeilQ(101, 25) == 5
    ensures P.DivCeilQR(101, 25) == (5, -24)
    ensures P.DivCeilQULong(101, 25) == (5, 24)
  {
    CeilDivisionUnique(101, 25, 5, -24);
  }

  lemma Pow29To23()
    ensures Pow(29, 23) == 4316720717749415770740818372739989
  {
    assert Pow(29, 5) == 20511149;
    PowAdd(29, 5, 5);
    PowAdd(29, 10, 10);
    PowAdd(29, 20, 3);
    assert Pow(29, 3) == 24389;
  }

  /** `29 ** 23` and `(-29) ** 23`. */
  lemma PowerExamples()
    ensures B.Power(29, 23) == 4316720717749415770740818372739989
    ensures B.Power(-29, 23) == -4316720717749415770740818372739989
  {
    Pow29To23();
    PowNegatedBase(29, 23);
  }

  /** The 19th root of 239072435685151324847153 is 17, the 16th root of
      4294967296 is 4, and the square root of 65556 is 256. */
  lemma RootExamples()
    ensures B.Root(239072435685151324847153, 19) == 17
    ensures B.Root(4294967296, 16) == 4
    ensures B.Sqrt(65556) == 256
  {
    var a := 239072435685151324847153;
    assert Pow(17, 19) == a by {
      assert Pow(17, 5) == 1419857;
      PowAdd(17, 5, 5);
      PowAdd(17, 10, 5);
      PowAdd(17, 15, 4);
      assert Pow(17, 4) == 83521;
    }
    assert Pow(18, 19) == 708235345355337676357632 by {
      assert Pow(18, 5) == 1889568;
      PowAdd(18, 5, 5);
      PowAdd(18, 10, 5);
      PowAdd(18, 15, 4);
      assert Pow(18, 4) == 104976;
    }
    Roots.FloorRootUnique(a, 19, 17);
    Roots.FloorRootUnique(a, 19, B.Root(a, 19));

    assert Pow(4, 8) == 65536;
    assert Pow(5, 8) == 390625;
    PowAdd(4, 8, 8);
    PowAdd(5, 8, 8);
    Roots.FloorRootUnique(4294967296, 16, 4);
    Roots.FloorRootUnique(4294967296, 16, B.Root(4294967296, 16));

    var r := B.Sqrt(65556);
    if r <= 255 {
      MulMonotone(r + 1, 256, r + 1, 256);
    } else if r >= 257 {
      MulMonotone(257, r, 257, r);
    }
  }

  /** 11^23 and (-8)^9 are perfect powers; 123456789^2 is a perfect square
      and one less is not. */
  lemma PerfectPowerExamples()
    ensures B.IsPerfectPower(895430243255237372246531)
    ensures B.IsPerfectPower(-134217728)
    ensures B.IsPerfectSquare(15241578750190521)
    ensures !B.IsPerfectSquare(15241578750190520)
  {
    assert Pow(11, 23) == 895430243255237372246531 by {
      assert Pow(11, 5) == 161051;
      PowAdd(11, 5, 5);
      PowAdd(11, 10, 10);
      PowAdd(11, 20, 3);
      assert Pow(11, 3) == 1331;
    }
    assert Roots.IsPowerOfSome(895430243255237372246531) by {
      assert 23 >= 2;
    }
    assert Pow(-8, 9) == -134217728;
    assert Roots.IsPowerOfSome(-134217728);
    assert Pow(123456789, 2) == 15241578750190521;
    assert Roots.IsSquareOfSome(15241578750190521);
    var x := 15241578750190520;
    if Roots.IsSquareOfSome(x) {
      var r: int :| Pow(r, 2) == x;
      var m := Integers.Abs(r);
      PowAbs(r, 2);
      assert m * m == x;
      if m <= 123456788 {
        MulMonotone(m, 123456788, m, 123456788);
      } else {
        MulMonotone(123456789, m, 123456789, m);
      }
      assert false;
    }
  }

  /** Three-way compare, equality and sign as the tests expect them. */
  lemma ComparisonExamples()
    ensures P.Compare(-111, 0) == -1 && P.Compare(0, 0) == 0 && P.Compare(111, 0) == 1
    ensures P.CompareWithSLong(-111, -222) == 1
    ensures P.CompareWithULong(111, 222) == -1
    ensures P.Equals(-111, -111) && !P.Equals(-111, 0)
    ensures P.Sign(-111) == -1 && P.Sign(0) == 0 && P.Sign(111) == 1
  {
  }

  /** The six comparison operators over `BigInt`, `Int` and `UInt` operands
      in both orders, with `bi1 = -1234567890`, `bi2 = 0`,
      `sLong = -1357924680` and `uLong = 2468013579`. The native-left `<=`
      and `>=` results hold for the code as written because these operands
      differ. */
  lemma ComparisonOperatorExamples()
    ensures var bi1, bi2 := B.Big(-1234567890), B.Big(0);
            var sLong, uLong := B.Int(-1357924680), B.UInt(2468013579);
            && B.Less(bi1, bi2) && !B.Less(bi1, sLong) && B.Less(bi1, uLong)
            && B.Less(sLong, bi1) && !B.Less(uLong, bi1)
            && B.LessEq(bi1, bi1) && !B.LessEq(bi1, sLong) && B.LessEq(bi1, uLong)
            && B.LessEq(sLong, bi1) && !B.LessEq(uLong, bi1)
            && !B.Greater(bi1, bi1) && B.Greater(bi1, sLong) && !B.Greater(bi1, uLong)
            && !B.Greater(sLong, bi1) && B.Greater(uLong, bi1)
            && B.GreaterEq(bi1, bi1) && B.GreaterEq(bi1, sLong) && !B.GreaterEq(bi1, uLong)
            && !B.GreaterEq(sLong, bi1) && B.GreaterEq(uLong, bi1)
            && B.Equal(bi1, bi1) && !B.Equal(bi1, sLong) && !B.Equal(bi1, uLong)
            && !B.Equal(sLong, bi1) && !B.Equal(uLong, bi1)
            && !B.NotEqual(bi1, bi1) && B.NotEqual(bi1, sLong) && B.NotEqual(bi1, uLong)
            && B.NotEqual(sLong, bi1) && B.NotEqual(uLong, bi1)
  {
  }
}
