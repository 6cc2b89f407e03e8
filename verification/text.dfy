/** Conversion between integers and digit text, following the convention of
    GMP's `mpz_set_str` / `mpz_get_str` that `setFromString:withBase:` and
    `toStringInBase:` delegate to:

    - digits are `0`-`9` then letters; for bases up to 36 a letter of either
      case stands for 10..35 and output uses lower case; for bases 37..62
      upper case stands for 10..35 and lower case for 36..61;
    - a single optional leading `-`;
    - base 0 picks the base from the prefix: `0x`/`0X` hexadecimal, `0b`/`0B`
      binary, a leading `0` octal, otherwise decimal.
 */
module Text {
  import opened Integers
  import opened Wrappers

  /** Table value of a character that is not a digit in any base. */
  const NOT_A_DIGIT: nat := 99

  /** Digit value of `c` under the table GMP uses for `base`. */
  function DigitValue(c: char, base: int): nat {
    if '0' <= c <= '9' then c as int - '0' as int
    else if 'A' <= c <= 'Z' then c as int - 'A' as int + 10
    else if 'a' <= c <= 'z' then c as int - 'a' as int + (if base <= 36 then 10 else 36)
    else NOT_A_DIGIT
  }

  predicate IsDigit(c: char, base: int) {
    DigitValue(c, base) < base
  }

  predicate AllDigits(s: string, base: int) {
    forall i :: 0 <= i < |s| ==> IsDigit(s[i], base)
  }

  /** The character that prints digit `d` in `base`. */
  function DigitChar(d: nat, base: int): (c: char)
    requires d < base <= 62
    ensures DigitValue(c, base) == d
    ensures c != '-'
  {
    if d < 10 then ('0' as int + d) as char
    else if base <= 36 then ('a' as int + d - 10) as char
    else if d < 36 then ('A' as int + d - 10) as char
    else ('a' as int + d - 36) as char
  }

  /** Value of a digit string, most significant digit first, accumulated by
      multiply-by-base, add-digit. */
  function TextValue(s: string, base: int): nat
    requires AllDigits(s, base)
    decreases |s|
  {
    if |s| == 0 then 0
    else TextValue(s[..|s| - 1], base) * base + DigitValue(s[|s| - 1], base)
  }

  /** Digits of `n` in `base`, most significant first: a single `0` for zero,
      otherwise no leading zero. */
  function DigitText(n: nat, base: int): (s: string)
    requires 2 <= base <= 62
    ensures |s| >= 1 && AllDigits(s, base)
    ensures TextValue(s, base) == n
    ensures n > 0 ==> s[0] != '0'
    ensures s[0] != '-'
    decreases n
  {
    if n < base then
      DigitTextSingle(n, base);
      [DigitChar(n, base)]
    else
      QuotientDecreases(n, base);
      var t := DigitText(n / base, base);
      DigitTextStep(n, base, t);
      t + [DigitChar(n % base, base)]
  }

  /** Dividing by the base leaves a smaller, positive quotient. */
  lemma QuotientDecreases(n: nat, base: int)
    requires 2 <= base <= n
    ensures 1 <= n / base < n && 0 <= n % base < base
  {
    DivMod(n, base);
    MulStrictMonotone(1, base, n / base);
  }

  /** A value below the base is a single digit. */
  lemma DigitTextSingle(n: nat, base: int)
    requires 2 <= base <= 62 && n < base
    ensures var s := [DigitChar(n, base)];
            && AllDigits(s, base) && TextValue(s, base) == n
            && (n > 0 ==> s[0] != '0') && s[0] != '-'
  {
    var s := [DigitChar(n, base)];
    assert s[..0] == [];
  }

  /** The recursive step of `DigitText`: the digits of `n / base` followed
      by the digit `n % base` are the digits of `n`. */
  lemma DigitTextStep(n: nat, base: int, t: string)
    requires 2 <= base <= 62 && n >= base
    requires |t| >= 1 && AllDigits(t, base) && TextValue(t, base) == n / base
    requires n / base > 0 ==> t[0] != '0'
    requires t[0] != '-'
    ensures var s := t + [DigitChar(n % base, base)];
            && AllDigits(s, base) && TextValue(s, base) == n
            && s[0] != '0' && s[0] != '-'
  {
    var q, r := n / base, n % base;
    DivMod(n, base);
    assert q >= 1;
    var c := DigitChar(r, base);
    AppendDigit(t, c, base);
    assert (t + [c])[0] == t[0];
  }

  /** Appending a digit multiplies the value by the base and adds the
      digit. */
  lemma AppendDigit(t: string, c: char, base: int)
    requires AllDigits(t, base) && IsDigit(c, base)
    ensures AllDigits(t + [c], base)
    ensures TextValue(t + [c], base) == TextValue(t, base) * base + DigitValue(c, base)
  {
    var s := t + [c];
    assert s[..|s| - 1] == t;
  }

  /** `toStringInBase:`: optional `-`, then the digits of the magnitude. */
  function ToStringInBase(v: int, base: int): string
    requires 2 <= base <= 62
  {
    (if v < 0 then "-" else "") + DigitText(Abs(v), base)
  }

  /** Base selected by the prefix of `body` when the caller passes base 0,
      and the digits that remain after the prefix. */
  function DetectBase(body: string): (res: (int, string))
    requires |body| >= 1
    ensures res.0 in {2, 8, 10, 16}
  {
    if body[0] != '0' then (10, body)
    else if |body| >= 2 && (body[1] == 'x' || body[1] == 'X') then (16, body[2..])
    else if |body| >= 2 && (body[1] == 'b' || body[1] == 'B') then (2, body[2..])
    else (8, body[1..])
  }

  /** The unsigned part of `mpz_set_str`: `None` when there are no digits or
      a character is not a digit of the base (after the prefix in base 0). */
  function ParseDigits(body: string, base: int): Option<nat>
    requires base == 0 || 2 <= base <= 62
  {
    if |body| == 0 || !IsDigit(body[0], if base == 0 then 10 else base) then None
    else
      var (b, digits) := if base != 0 then (base, body) else DetectBase(body);
      if !AllDigits(digits, b) then None else Some(TextValue(digits, b))
  }

  /** `mpz_set_str`: `None` is its -1 status (no digits after the sign, or a
      character that is not a digit of the base). */
  function SetStr(s: string, base: int): Option<int>
    requires base == 0 || 2 <= base <= 62
  {
    var negative := |s| > 0 && s[0] == '-';
    var body := if negative then s[1..] else s;
    match ParseDigits(body, base)
    case None => None
    case Some(m) =>
      var v: int := m;
      Some(if negative then -v else v)
  }

  /** In a fixed base, digit text parses to its value. */
  lemma ParseDigitsInBase(t: string, base: int)
    requires 2 <= base <= 62
    requires |t| >= 1 && AllDigits(t, base)
    ensures ParseDigits(t, base) == Some(TextValue(t, base))
  {
    assert IsDigit(t[0], base);
  }

  /** Formatting in a base and parsing back in the same base gives the value. */
  lemma ParseFormatRoundTrip(v: int, base: int)
    requires 2 <= base <= 62
    ensures SetStr(ToStringInBase(v, base), base) == Some(v)
  {
    var t := DigitText(Abs(v), base);
    var s := ToStringInBase(v, base);
    ParseDigitsInBase(t, base);
    if v < 0 {
      assert s == "-" + t;
      assert s[0] == '-' && s[1..] == t;
    } else {
      assert s == t;
      assert s[0] != '-';
    }
  }

  /** Digit text as `toStringInBase:` prints it: canonical characters and no
      leading zero unless the text is the single digit `0`. */
  predicate IsCanonicalDigits(s: string, base: int)
    requires 2 <= base <= 62
  {
    && |s| >= 1
    && AllDigits(s, base)
    && (forall i :: 0 <= i < |s| ==> s[i] == DigitChar(DigitValue(s[i], base), base))
    && (|s| == 1 || s[0] != '0')
  }

  /** Signed text as `toStringInBase:` prints it (no `-0`). */
  predicate IsCanonicalText(s: string, base: int)
    requires 2 <= base <= 62
  {
    || IsCanonicalDigits(s, base)
    || (|s| >= 2 && s[0] == '-' && IsCanonicalDigits(s[1..], base) && s[1..] != "0")
  }

  /** `DigitText` prints canonical digits, and prints `0` only for zero. */
  lemma {:induction false} DigitTextCanonical(n: nat, base: int)
    requires 2 <= base <= 62
    ensures IsCanonicalDigits(DigitText(n, base), base)
    ensures DigitText(n, base) == "0" <==> n == 0
    decreases n
  {
    var s := DigitText(n, base);
    if n < base {
      assert s == [DigitChar(n, base)];
    } else {
      QuotientDecreases(n, base);
      var t := DigitText(n / base, base);
      DigitTextCanonical(n / base, base);
      var c := DigitChar(n % base, base);
      assert s == t + [c];
      forall i | 0 <= i < |s|
        ensures s[i] == DigitChar(DigitValue(s[i], base), base)
      {
        if i < |t| {
          assert s[i] == t[i];
        } else {
          assert s[i] == c;
        }
      }
    }
  }

  /** `toStringInBase:` prints canonical text: the digit characters the
      printer uses, no leading zero, and no `-0`. */
  lemma ToStringCanonical(v: int, base: int)
    requires 2 <= base <= 62
    ensures IsCanonicalText(ToStringInBase(v, base), base)
  {
    var t := DigitText(Abs(v), base);
    var s := ToStringInBase(v, base);
    DigitTextCanonical(Abs(v), base);
    if v < 0 {
      assert s == "-" + t;
      assert s[1..] == t;
    } else {
      assert s == t;
    }
  }

  lemma {:induction false} LeadingDigitPositive(s: string, base: int)
    requires 2 <= base <= 62
    requires |s| >= 1 && AllDigits(s, base) && s[0] != '0'
    ensures TextValue(s, base) >= 1
    decreases |s|
  {
    if |s| == 1 {
      assert s[..0] == [];
      assert IsDigit(s[0], base);
    } else {
      var t := s[..|s| - 1];
      assert t[0] == s[0];
      assert AllDigits(t, base) by {
        forall i | 0 <= i < |t| ensures IsDigit(t[i], base) {
          assert t[i] == s[i];
        }
      }
      LeadingDigitPositive(t, base);
      MulMonotone(1, TextValue(t, base), 1, base);
    }
  }

  /** Parsing canonical digits and printing the value reproduces the text. */
  lemma {:induction false} DigitTextOfValue(s: string, base: int)
    requires 2 <= base <= 62
    requires IsCanonicalDigits(s, base)
    ensures DigitText(TextValue(s, base), base) == s
    decreases |s|
  {
    var last := s[|s| - 1];
    var d := DigitValue(last, base);
    assert IsDigit(last, base);
    assert DigitChar(d, base) == last;
    if |s| == 1 {
      assert s[..0] == [];
      assert TextValue(s, base) == d;
    } else {
      var t := s[..|s| - 1];
      assert t[0] == s[0];
      forall i | 0 <= i < |t|
        ensures IsDigit(t[i], base) && t[i] == DigitChar(DigitValue(t[i], base), base)
      {
        assert t[i] == s[i];
      }
      assert IsCanonicalDigits(t, base);
      DigitTextOfValue(t, base);
      var v := TextValue(t, base);
      if |t| > 1 {
        LeadingDigitPositive(t, base);
      } else {
        assert t == [s[0]];
        assert IsDigit(s[0], base);
        assert t[..0] == [];
        assert v == DigitValue(s[0], base);
      }
      var n := v * base + d;
      assert n == TextValue(s, base);
      assert n >= base by {
        MulMonotone(1, v, base, base);
      }
      assert n / base == v && n % base == d by {
        DivModUnique(n, base, v, d);
      }
      assert s == t + [last];
    }
  }

  lemma DivModUnique(n: int, b: int, q: int, r: int)
    requires b > 0 && 0 <= r < b && n == q * b + r
    ensures n / b == q && n % b == r
  {
    var q', r' := n / b, n % b;
    assert n == q' * b + r';
    if q' > q {
      MulMonotone(b, b, 1, q' - q);
      assert false;
    } else if q' < q {
      MulMonotone(b, b, 1, q - q');
      assert false;
    }
  }

  /** Parsing text as `toStringInBase:` prints it and printing the value in
      the same base reproduces the text. */
  lemma FormatParseRoundTrip(s: string, base: int)
    requires 2 <= base <= 62
    requires IsCanonicalText(s, base)
    ensures SetStr(s, base).Some?
    ensures ToStringInBase(SetStr(s, base).value, base) == s
  {
    if IsCanonicalDigits(s, base) {
      assert s[0] != '-' by {
        assert IsDigit(s[0], base);
      }
      DigitTextOfValue(s, base);
    } else {
      var t := s[1..];
      assert IsDigit(t[0], base);
      DigitTextOfValue(t, base);
      assert s == "-" + t;
    }
  }
}
