/**
 Conversions between strings and numbers that the scripts rely on: `Number`
 applied to a spreadsheet cell's text (what `isNaN`, `>` and `-` do to a
 string), the decimal text of an integer (what a number becomes as an
 object key) and `parseInt(key, 10)`. Numbers are exact reals: rounding to
 the nearest double is not modelled.
 */
module JsNumbers {
  import opened Wrappers
  import opened JsText

  datatype JsNumber = NaN | Finite(value: real) | PosInfinity | NegInfinity

  /** `m` times ten to the power `e`, exactly. */
  function Scale(m: nat, e: int): real
  {
    if e >= 0 then (m * Pow10(e)) as real else (m as real) / (Pow10(-e) as real)
  }

  /** The number of decimal digits at the start of `u`. */
  function LeadingDigits(u: string): (n: nat)
    ensures n <= |u| && AllDigits(u[..n])
    ensures n < |u| ==> !IsDigit(u[n])
  {
    if u == [] || !IsDigit(u[0]) then 0
    else
      var n := 1 + LeadingDigits(u[1..]);
      assert u[..n] == [u[0]] + u[1..][..n - 1];
      n
  }

  /** ExponentPart of StrUnsignedDecimalLiteral, or nothing at all (exponent 0). */
  function ParseExponent(x: string): Option<int>
  {
    if x == [] then Some(0)
    else if x[0] != 'e' && x[0] != 'E' then None
    else
      var y := x[1..];
      var neg := y != [] && y[0] == '-';
      var z := if y != [] && (y[0] == '-' || y[0] == '+') then y[1..] else y;
      if z == [] || !AllDigits(z) then None
      else
        var v: int := DigitsValue(z);
        Some(if neg then -v else v)
  }

  /**
   StrUnsignedDecimalLiteral without Infinity: digits, an optional point with
   optional digits (at least one digit on some side) and an optional exponent.
   */
  function ParseUnsignedDecimal(u: string): JsNumber
  {
    var a := LeadingDigits(u);
    var rest := u[a..];
    var hasPoint := rest != [] && rest[0] == '.';
    var afterPoint := if hasPoint then rest[1..] else rest;
    var b := if hasPoint then LeadingDigits(afterPoint) else 0;
    var mantissa := u[..a] + afterPoint[..b];
    assert AllDigits(mantissa);
    if a + b == 0 then NaN
    else match ParseExponent(afterPoint[b..])
      case None => NaN
      case Some(e) => Finite(Scale(DigitsValue(mantissa), e - b))
  }

  predicate IsRadixDigit(c: char, radix: nat)
  {
    if radix == 16 then IsDigit(c) || 'a' <= c <= 'f' || 'A' <= c <= 'F'
    else '0' <= c && (c as int) < ('0' as int) + radix
  }

  function RadixDigitValue(c: char): nat
  {
    if IsDigit(c) then DigitValue(c)
    else if 'a' <= c <= 'f' then (c as int) - ('a' as int) + 10
    else if 'A' <= c <= 'F' then (c as int) - ('A' as int) + 10
    else 0
  }

  /** The value of a non-empty string of digits in base 2, 8 or 16. */
  function RadixValue(s: string, radix: nat): nat
  {
    if s == [] then 0 else RadixValue(s[..|s| - 1], radix) * radix + RadixDigitValue(s[|s| - 1])
  }

  /** NonDecimalIntegerLiteral: `0x`, `0o` or `0b` followed by digits of that base. */
  function ParseNonDecimal(t: string): JsNumber
    requires |t| > 2
  {
    var radix := if t[1] == 'x' || t[1] == 'X' then 16 else if t[1] == 'o' || t[1] == 'O' then 8 else 2;
    var ds := t[2..];
    if forall k :: 0 <= k < |ds| ==> IsRadixDigit(ds[k], radix) then Finite(RadixValue(ds, radix) as real)
    else NaN
  }

  predicate HasRadixPrefix(t: string)
  {
    |t| > 2 && t[0] == '0' && (t[1] == 'x' || t[1] == 'X' || t[1] == 'o' || t[1] == 'O' || t[1] == 'b' || t[1] == 'B')
  }

  /**
   `Number(s)` for a string (StringToNumber, section 7.1.4.1.1 of ECMA-262):
   white space around the numeral is ignored, the empty string is 0, and
   anything that is not a StringNumericLiteral is NaN.
   */
  function ToNumber(s: string): JsNumber
  {
    NumberOfTrimmed(Trim(s))
  }

  /** StringToNumber once the surrounding white space is gone. */
  function NumberOfTrimmed(t: string): JsNumber
  {
    if t == [] then Finite(0.0)
    else if t == "Infinity" || t == "+Infinity" then PosInfinity
    else if t == "-Infinity" then NegInfinity
    else if HasRadixPrefix(t) then ParseNonDecimal(t)
    else if t[0] == '-' then
      match ParseUnsignedDecimal(t[1..])
      case Finite(v) => Finite(-v)
      case _ => NaN
    else if t[0] == '+' then ParseUnsignedDecimal(t[1..])
    else ParseUnsignedDecimal(t)
  }

  /** `n > b` for a number `n` and a finite `b`: false for NaN, true for +Infinity. */
  predicate GreaterThan(n: JsNumber, b: real)
  {
    match n
    case NaN => false
    case Finite(v) => v > b
    case PosInfinity => true
    case NegInfinity => false
  }

  /** `n < b` for a number `n` and a finite `b`: false for NaN, true for -Infinity. */
  predicate LessThan(n: JsNumber, b: real)
  {
    match n
    case NaN => false
    case Finite(v) => v < b
    case PosInfinity => false
    case NegInfinity => true
  }

  lemma {:induction false} LeadingDigitsStop(u: string, n: nat)
    requires n <= |u| && AllDigits(u[..n]) && (n < |u| ==> !IsDigit(u[n]))
    ensures LeadingDigits(u) == n
  {
    if n > 0 {
      assert IsDigit(u[..n][0]);
      assert u[1..][..n - 1] == u[..n][1..];
      LeadingDigitsStop(u[1..], n - 1);
    }
  }

  /**
   Digits followed by a character that cannot continue a numeral (not a
   digit, point or exponent mark) make the whole text NaN, as in
   `2023-01-15` or `15/01/2023`.
   */
  lemma ToNumberStopsAt(s: string, n: nat)
    requires 2 <= n < |s| && AllDigits(s[..n])
    requires !IsDigit(s[n]) && s[n] != '.' && s[n] != 'e' && s[n] != 'E'
    requires !IsWhiteSpace(s[|s| - 1])
    ensures ToNumber(s) == NaN
  {
    assert IsDigit(s[..n][0]) && IsDigit(s[..n][1]);
    TrimUnchanged(s);
    NumberOfDigitLed(s);
    LeadingDigitsStop(s, n);
    assert s[n..][0] == s[n];
    assert s[..n] + [] == s[..n];
  }

  /** `Number` reads a plain digit string as its decimal value. */
  lemma ToNumberOfDigits(s: string)
    requires s != [] && AllDigits(s)
    ensures ToNumber(s) == Finite(DigitsValue(s) as real)
  {
    TrimUnchanged(s);
    UnsignedDecimalOfDigits(s);
    NumberOfDigitLed(s);
  }

  /** A trimmed text that starts with a digit and no radix prefix is a decimal literal. */
  lemma NumberOfDigitLed(t: string)
    requires t != [] && IsDigit(t[0]) && !HasRadixPrefix(t)
    ensures NumberOfTrimmed(t) == ParseUnsignedDecimal(t)
  {
    assert t != "Infinity" by { assert "Infinity"[0] == 'I'; }
    assert t != "+Infinity" by { assert "+Infinity"[0] == '+'; }
    assert t != "-Infinity" by { assert "-Infinity"[0] == '-'; }
  }

  lemma UnsignedDecimalOfDigits(s: string)
    requires s != [] && AllDigits(s)
    ensures ParseUnsignedDecimal(s) == Finite(DigitsValue(s) as real)
  {
    LeadingDigitsOfDigits(s);
    assert s[|s|..] == [];
    assert s[..|s|] + [][..0] == s;
    assert ParseExponent([]) == Some(0);
    assert Scale(DigitsValue(s), 0) == DigitsValue(s) as real by {
      assert Pow10(0) == 1;
    }
  }

  lemma {:induction false} LeadingDigitsOfDigits(s: string)
    requires AllDigits(s)
    ensures LeadingDigits(s) == |s|
  {
    if s != [] {
      LeadingDigitsOfDigits(s[1..]);
    }
  }

  /** The decimal text of an integer: `String(n)` (Number::toString for |n| < 10^21). */
  function IntToString(n: int): (s: string)
    ensures s != []
  {
    if n < 0 then "-" + NatToString(-n) else NatToString(n)
  }

  /** `Number` reads the decimal text of an integer back as that integer. */
  lemma ToNumberOfIntToString(n: int)
    ensures ToNumber(IntToString(n)) == Finite(n as real)
  {
    if n < 0 {
      ToNumberOfNegative(n);
    } else {
      DigitsValueOfNatToString(n);
      ToNumberOfDigits(NatToString(n));
    }
  }

  lemma ToNumberOfNegative(n: int)
    requires n < 0
    ensures ToNumber("-" + NatToString(-n)) == Finite(n as real)
  {
    DigitsValueOfNatToString(-n);
    ToNumberOfMinusDigits(NatToString(-n), n);
  }

  /** `Number` reads a minus sign and a digit string as the negated decimal value. */
  lemma ToNumberOfMinusDigits(d: string, n: int)
    requires d != [] && AllDigits(d) && DigitsValue(d) == -n
    ensures ToNumber("-" + d) == Finite(n as real)
  {
    var s := "-" + d;
    assert s[1..] == d;
    assert s[|s| - 1] == d[|d| - 1];
    TrimUnchanged(s);
    UnsignedDecimalOfDigits(d);
    NumberOfMinusLed(s);
  }

  /** A trimmed text of a minus sign and a digit-led literal is that literal negated. */
  lemma NumberOfMinusLed(t: string)
    requires |t| >= 2 && t[0] == '-' && IsDigit(t[1])
    requires ParseUnsignedDecimal(t[1..]).Finite?
    ensures NumberOfTrimmed(t) == Finite(-ParseUnsignedDecimal(t[1..]).value)
  {
    assert t != "Infinity" by { assert "Infinity"[0] == 'I'; }
    assert t != "+Infinity" by { assert "+Infinity"[0] == '+'; }
    assert t != "-Infinity" by { assert "-Infinity"[1] == 'I'; }
  }

  /**
   `parseInt(s, 10)`: leading white space skipped, an optional sign, then the
   longest run of decimal digits; NaN (here None) when there is no digit.
   */
  function ParseInt(s: string): Option<int>
  {
    ParseSigned(TrimStart(s))
  }

  /** An optional sign, then the digits. */
  function ParseSigned(t: string): Option<int>
  {
    if t != [] && t[0] == '-' then
      match ParseDigits(t[1..])
      case Some(v) => Some(-v)
      case None => None
    else if t != [] && t[0] == '+' then ParseDigits(t[1..])
    else ParseDigits(t)
  }

  /** The value of the longest run of decimal digits that starts `u`; None when there is none. */
  function ParseDigits(u: string): Option<int>
  {
    var n := LeadingDigits(u);
    if n == 0 then None else Some(DigitsValue(u[..n]))
  }

  lemma ParseDigitsOfDigits(d: string)
    requires d != [] && AllDigits(d)
    ensures ParseDigits(d) == Some(DigitsValue(d) as int)
  {
    LeadingDigitsOfDigits(d);
    assert d[..|d|] == d;
  }

  /** `parseInt` recovers the integer from its decimal text. */
  lemma ParseIntOfIntToString(n: int)
    ensures ParseInt(IntToString(n)) == Some(n)
  {
    if n < 0 {
      DigitsValueOfNatToString(-n);
      ParseIntOfMinusDigits(NatToString(-n), n);
    } else {
      DigitsValueOfNatToString(n);
      ParseIntOfDigits(NatToString(n), n);
    }
  }

  lemma ParseIntOfDigits(d: string, n: int)
    requires d != [] && AllDigits(d) && DigitsValue(d) == n
    ensures ParseInt(d) == Some(n)
  {
    assert !IsWhiteSpace(d[0]);
    assert TrimStart(d) == d;
    ParseDigitsOfDigits(d);
  }

  lemma ParseIntOfMinusDigits(d: string, n: int)
    requires d != [] && AllDigits(d) && DigitsValue(d) == -n
    ensures ParseInt("-" + d) == Some(n)
  {
    var s := "-" + d;
    assert !IsWhiteSpace(s[0]);
    assert TrimStart(s) == s;
    assert s[0] == '-' && s[1..] == d;
    ParseDigitsOfDigits(d);
    assert ParseSigned(s) == Some(n);
  }

  /** `parseInt("NaN", 10)` is NaN. */
  lemma ParseIntOfNaN()
    ensures ParseInt("NaN") == None
  {
    var s := "NaN";
    assert !IsWhiteSpace(s[0]) && !IsDigit(s[0]);
    assert SkipStart(s, 0) == 0;
    assert TrimStart(s) == s;
    assert LeadingDigits(s) == 0;
  }

  /** Distinct integers have distinct decimal texts. */
  lemma IntToStringInjective(m: int, n: int)
    requires IntToString(m) == IntToString(n)
    ensures m == n
  {
    ParseIntOfIntToString(m);
    ParseIntOfIntToString(n);
  }
}
