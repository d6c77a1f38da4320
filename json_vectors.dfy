/** Concrete inputs of the number and value rules and what they read. Each text is a parameter
    fixed by a `requires`, so that the proofs take it apart step by step. */
module JsonVectors {
  import opened Wrappers
  import opened Text
  import opened JsonValue
  import opened JsonSpec
  import opened JsonLemmas

  /** The value of the first `k` digits of `s`, read from the left. */
  function DigitsUpTo(s: string, k: nat): nat
    requires k <= |s|
  {
    if k == 0 then 0 else DigitsUpTo(s, k - 1) * 10 + DigitValue(s[k - 1])
  }

  lemma {:induction false} DigitsUpToValue(s: string, k: nat)
    requires k <= |s|
    ensures DigitsUpTo(s, k) == DigitsValue(s[..k])
  {
    if k > 0 {
      DigitsUpToValue(s, k - 1);
      assert s[..k][..k - 1] == s[..k - 1];
    }
  }

  lemma DigitsOfText(d: string, n: nat)
    requires DigitsUpTo(d, |d|) == n
    ensures DigitsValue(d) == n
  {
    DigitsUpToValue(d, |d|);
    assert d[..|d|] == d;
  }

  /** A run of digits with no superfluous leading zero, followed by a non-digit, is an integral part. */
  lemma IntegralOfDigits(d: string, r: string)
    requires d != [] && AllDigits(d) && (d[0] != '0' || |d| == 1) && (r == [] || !IsDigit(r[0]))
    ensures IntegralPart(d + r) == Success(Parsed(d, r))
  {
    DigitRunOfDigits(d, r);
    if d[0] == '0' {
      assert d == "0" && (d + r)[1..] == r;
    }
  }

  lemma FractionOfDigits(d: string, r: string)
    requires d != [] && AllDigits(d) && (r == [] || !IsDigit(r[0]))
    ensures FractionPart("." + d + r) == Success(Parsed(Some(d), r))
  {
    assert ("." + d + r)[1..] == d + r;
    DigitRunOfDigits(d, r);
  }

  /** An integer literal: an optional '-' and the digits `d`, then a delimiter. */
  lemma IntegerLiteral(s: string, big: bool, negative: bool, d: string, literal: string, rest: string)
    requires literal == (if negative then "-" + d else d) && s == literal + rest
    requires d != [] && AllDigits(d) && (d[0] != '0' || |d| == 1) && Delimited(rest)
    ensures NumberAt(s, big) == Success(Parsed(NumberValue(negative, d, None, None, literal, big), rest))
  {
    if negative {
      assert s[1..] == d + rest;
    }
    IntegralOfDigits(d, rest);
    NoFractionNoExponent(rest);
    NumberAtParts(s, big, negative, if negative then s[1..] else s, d, rest, None, rest, None, rest, literal);
  }

  /** An integer literal of value `n`, read with the BIGINT_AS_STRING option off. */
  lemma IntegerVector(s: string, negative: bool, d: string, rest: string, n: nat)
    requires s == (if negative then "-" + d else d) + rest
    requires d != [] && AllDigits(d) && (d[0] != '0' || |d| == 1) && Delimited(rest)
    requires DigitsUpTo(d, |d|) == n
    ensures NumberAt(s, false) == Success(Parsed(IntNum(if negative then -(n as int) else n), rest))
  {
    var literal := if negative then "-" + d else d;
    IntegerLiteral(s, false, negative, d, literal, rest);
    DigitsOfText(d, n);
    if negative {
      assert NumberValue(true, d, None, None, literal, false) == IntNum(-(n as int));
    } else {
      assert NumberValue(false, d, None, None, literal, false) == IntNum(n);
    }
  }

  /** "0" before a ',' reads as the integer 0, and the ',' is what remains. */
  lemma ZeroVector(s: string)
    requires s == "0,"
    ensures NumberAt(s, false) == Success(Parsed(IntNum(0), ","))
  {
    IntegerVector(s, false, s[..1], s[1..], 0);
  }

  lemma PositiveVector(s: string)
    requires s == "135,"
    ensures NumberAt(s, false) == Success(Parsed(IntNum(135), ","))
  {
    var d := s[..3];
    assert DigitsUpTo(d, 1) == 1 && DigitsUpTo(d, 2) == 13;
    IntegerVector(s, false, d, s[3..], 135);
  }

  lemma NegativeVector(s: string)
    requires s == "-100,"
    ensures NumberAt(s, false) == Success(Parsed(IntNum(-100), ","))
  {
    var d := s[1..4];
    assert DigitsUpTo(d, 1) == 1 && DigitsUpTo(d, 2) == 10;
    IntegerVector(s, true, d, s[4..], 100);
  }

  /** An integer literal of value `n` or `-n`, read with or without the BIGINT_AS_STRING option: its text
      is kept only when the option is on and the value lies outside the signed 32-bit range. */
  lemma IntegerOption(s: string, big: bool, negative: bool, d: string, literal: string, rest: string, n: nat, i: int)
    requires literal == (if negative then "-" + d else d) && s == literal + rest
    requires d != [] && AllDigits(d) && (d[0] != '0' || |d| == 1) && Delimited(rest)
    requires DigitsUpTo(d, |d|) == n && i == (if negative then -(n as int) else n)
    ensures NumberAt(s, big) == Success(Parsed(if big && !InInt32(i) then BigIntString(literal) else IntNum(i), rest))
  {
    IntegerLiteral(s, big, negative, d, literal, rest);
    DigitsOfText(d, n);
    if negative {
      assert NumberValue(true, d, None, None, literal, big) == if big && !InInt32(i) then BigIntString(literal) else IntNum(i);
    } else {
      assert NumberValue(false, d, None, None, literal, big) == if big && !InInt32(i) then BigIntString(literal) else IntNum(i);
    }
  }

  /** "54321" and "-54321" fit in 32 bits and read as integers whether or not the option is on. */
  lemma SmallOptionVector(s: string, big: bool, negative: bool)
    requires s == if negative then "-54321" else "54321"
    ensures NumberAt(s, big) == Success(Parsed(IntNum(if negative then -54321 else 54321), []))
  {
    var d := if negative then s[1..] else s;
    assert d == "54321";
    assert DigitsUpTo(d, 1) == 5;
    assert DigitsUpTo(d, 2) == 54;
    assert DigitsUpTo(d, 3) == 543;
    assert DigitsUpTo(d, 4) == 5432;
    assert DigitsUpTo(d, 5) == 54321;
    assert s + [] == s;
    IntegerOption(s, big, negative, d, s, [], 54321, if negative then -54321 else 54321);
  }

  lemma BigDigitsLow(d: string)
    requires d == "1234567890123456"
    ensures DigitsUpTo(d, 8) == 12345678
  {
    assert DigitsUpTo(d, 1) == 1;
    assert DigitsUpTo(d, 2) == 12;
    assert DigitsUpTo(d, 3) == 123;
    assert DigitsUpTo(d, 4) == 1234;
    assert DigitsUpTo(d, 5) == 12345;
    assert DigitsUpTo(d, 6) == 123456;
    assert DigitsUpTo(d, 7) == 1234567;
    assert DigitsUpTo(d, 8) == 12345678;
  }

  lemma BigDigits(d: string)
    requires d == "1234567890123456"
    ensures DigitsUpTo(d, |d|) == 1234567890123456
  {
    BigDigitsLow(d);
    assert DigitsUpTo(d, 9) == 123456789;
    assert DigitsUpTo(d, 10) == 1234567890;
    assert DigitsUpTo(d, 11) == 12345678901;
    assert DigitsUpTo(d, 12) == 123456789012;
    assert DigitsUpTo(d, 13) == 1234567890123;
    assert DigitsUpTo(d, 14) == 12345678901234;
    assert DigitsUpTo(d, 15) == 123456789012345;
    assert DigitsUpTo(d, 16) == 1234567890123456;
  }

  /** "1234567890123456" and its negation lie outside 32 bits: with the option on the text is kept,
      with it off they read as integers. */
  lemma BigOptionVector(s: string, big: bool, negative: bool)
    requires s == if negative then "-1234567890123456" else "1234567890123456"
    ensures NumberAt(s, big)
         == Success(Parsed(if big then BigIntString(s) else IntNum(if negative then -1234567890123456 else 1234567890123456), []))
  {
    var d := if negative then s[1..] else s;
    assert d == "1234567890123456";
    BigDigits(d);
    assert s + [] == s;
    IntegerOption(s, big, negative, d, s, [], 1234567890123456, if negative then -1234567890123456 else 1234567890123456);
  }

  /** Digits written after others shift them by a power of ten. */
  lemma {:induction false} DigitsValueAppend(a: string, b: string)
    ensures DigitsValue(a + b) == DigitsValue(a) * Pow10(|b|) + DigitsValue(b)
  {
    if b != [] {
      var b', c := b[..|b| - 1], b[|b| - 1];
      assert (a + b)[..|a + b| - 1] == a + b' && (a + b)[|a + b| - 1] == c;
      DigitsValueAppend(a, b');
      ShiftDigit(DigitsValue(a), Pow10(|b'|), DigitsValue(b'), DigitValue(c));
    } else {
      assert a + b == a;
    }
  }

  lemma ShiftDigit(x: int, p: int, y: int, c: int)
    ensures (x * p + y) * 10 + c == x * (10 * p) + (y * 10 + c)
  {
  }

  /** The exponent part `e±t` or `et` before `rest`. */
  lemma ExponentOf(c: string, signed: bool, minus: bool, t: string, rest: string, x: nat, e: int)
    requires |c| >= 2 && (c[0] == 'e' || c[0] == 'E') && signed == (c[1] == '+' || c[1] == '-')
    requires minus == (signed && c[1] == '-') && (if signed then c[2..] else c[1..]) == t + rest
    requires t != [] && AllDigits(t) && (rest == [] || !IsDigit(rest[0]))
    requires DigitsUpTo(t, |t|) == x && e == if minus then -(x as int) else x
    ensures ExponentPart(c) == Success(Parsed(Some(e), rest))
  {
    DigitsOfText(t, x);
    assert (if signed && c[1] == '-' then 0 - DigitsValue(t) else DigitsValue(t)) == e;
    ExponentDigits(c, signed, t, rest);
  }

  lemma PositiveFloatValue(d: string, f: string, e: int, literal: string)
    ensures NumberValue(false, d, Some(f), Some(e), literal, false) == FloatNum(DigitsValue(d + f), e - |f|)
  {
  }

  lemma FractionOnlyValue(d: string, f: string, literal: string)
    ensures NumberValue(false, d, Some(f), None, literal, false) == FloatNum(DigitsValue(d + f), 0 - |f|)
  {
  }

  lemma ExponentOnlyValue(d: string, e: int, literal: string)
    ensures NumberValue(false, d, None, Some(e), literal, false) == FloatNum(DigitsValue(d), e)
  {
    assert d + "" == d;
  }

  /** The digits `d` and `f` on either side of a decimal point, as one number. */
  lemma PointlessValue(d: string, f: string, i: nat, j: nat, m: nat)
    requires DigitsUpTo(d, |d|) == i && DigitsUpTo(f, |f|) == j && m == i * Pow10(|f|) + j
    ensures DigitsValue(d + f) == m
  {
    DigitsOfText(d, i);
    DigitsOfText(f, j);
    DigitsValueAppend(d, f);
  }

  lemma SplitAt<T>(s: seq<T>, i: nat)
    requires i <= |s|
    ensures s == s[..i] + s[i..]
  {
  }

  lemma PointAt(s: string, i: nat, j: nat)
    requires i < j <= |s| && s[i] == '.'
    ensures s[i..] == "." + s[i + 1..j] + s[j..]
  {
    assert s[i..] == [s[i]] + s[i + 1..j] + s[j..];
  }

  /** A literal without a sign whose parts and value are known. */
  lemma PositiveNumber(s: string, digits: string, b: string, frac: Option<string>, c: string, exp: Option<int>,
                       rest: string, literal: string, v: Number)
    requires s != [] && s[0] != '-' && s == literal + rest
    requires IntegralPart(s) == Success(Parsed(digits, b)) && FractionPart(b) == Success(Parsed(frac, c))
    requires ExponentPart(c) == Success(Parsed(exp, rest))
    requires v == NumberValue(false, digits, frac, exp, literal, false)
    ensures NumberAt(s, false) == Success(Parsed(v, rest))
  {
    NumberAtParts(s, false, false, s, digits, b, frac, c, exp, rest, literal);
  }

  /** The integral and fraction parts of a positive literal `d.f` followed by `c`. */
  lemma PointParts(s: string, d: string, b: string, f: string, c: string)
    requires s == d + b && b == "." + f + c && (c == [] || !IsDigit(c[0]))
    requires d != [] && AllDigits(d) && (d[0] != '0' || |d| == 1) && f != [] && AllDigits(f)
    ensures s[0] != '-'
    ensures IntegralPart(s) == Success(Parsed(d, b)) && FractionPart(b) == Success(Parsed(Some(f), c))
  {
    IntegralOfDigits(d, b);
    FractionOfDigits(f, c);
  }

  /** A positive literal `d.f`, an exponent part `c` read as `e`, and `rest`; `m` is the value of its
      digits with the point removed. */
  lemma FloatVector(s: string, literal: string, d: string, b: string, f: string, c: string, rest: string,
                    m: nat, e: int, p: int)
    requires s == d + b && b == "." + f + c && s == literal + rest && c != [] && (c[0] == 'e' || c[0] == 'E')
    requires d != [] && AllDigits(d) && (d[0] != '0' || |d| == 1) && f != [] && AllDigits(f)
    requires ExponentPart(c) == Success(Parsed(Some(e), rest)) && DigitsValue(d + f) == m && p == e - |f|
    ensures NumberAt(s, false) == Success(Parsed(FloatNum(m, p), rest))
  {
    PointParts(s, d, b, f, c);
    PositiveFloatValue(d, f, e, literal);
    PositiveNumber(s, d, b, Some(f), c, Some(e), rest, literal, FloatNum(m, p));
  }

  /** `FloatVector` with the pieces given by position: the point at `i`, the exponent from `j`, the
      literal ending at `k`. */
  lemma FloatVectorAt(s: string, i: nat, j: nat, k: nat, m: nat, e: int, p: int)
    requires 0 < i && i + 1 < j < k <= |s| && s[i] == '.' && (s[j] == 'e' || s[j] == 'E')
    requires AllDigits(s[..i]) && (s[0] != '0' || i == 1) && AllDigits(s[i + 1..j])
    requires ExponentPart(s[j..]) == Success(Parsed(Some(e), s[k..])) && DigitsValue(s[..i] + s[i + 1..j]) == m
    requires p == e - (j - i - 1)
    ensures NumberAt(s, false) == Success(Parsed(FloatNum(m, p), s[k..]))
  {
    SplitAt(s, i);
    SplitAt(s, k);
    PointAt(s, i, j);
    FloatVector(s, s[..k], s[..i], s[i..], s[i + 1..j], s[j..], s[k..], m, e, p);
  }

  /** A positive literal `d.f` followed by `rest`. */
  lemma FractionVector(s: string, literal: string, d: string, b: string, f: string, rest: string, m: nat)
    requires s == d + b && b == "." + f + rest && s == literal + rest
    requires d != [] && AllDigits(d) && (d[0] != '0' || |d| == 1)
    requires f != [] && AllDigits(f) && Delimited(rest) && DigitsValue(d + f) == m
    ensures NumberAt(s, false) == Success(Parsed(FloatNum(m, 0 - |f|), rest))
  {
    IntegralOfDigits(d, b);
    FractionOfDigits(f, rest);
    NoFractionNoExponent(rest);
    NumberAtParts(s, false, false, s, d, b, Some(f), rest, None, rest, literal);
    FractionOnlyValue(d, f, literal);
  }

  /** `FractionVector` with the point at `i` and the literal ending at `k`. */
  lemma FractionVectorAt(s: string, i: nat, k: nat, m: nat, p: int)
    requires 0 < i && i + 1 < k <= |s| && s[i] == '.'
    requires AllDigits(s[..i]) && (s[0] != '0' || i == 1) && AllDigits(s[i + 1..k]) && Delimited(s[k..])
    requires DigitsValue(s[..i] + s[i + 1..k]) == m && p == 0 - (k - i - 1)
    ensures NumberAt(s, false) == Success(Parsed(FloatNum(m, p), s[k..]))
  {
    SplitAt(s, i);
    SplitAt(s, k);
    PointAt(s, i, k);
    var f := s[i + 1..k];
    FractionVector(s, s[..k], s[..i], s[i..], f, s[k..], m);
    assert |f| == k - i - 1;
  }

  /** A positive integral part followed by an exponent: the exponent from `j`, the literal ending at `k`. */
  lemma ExponentVectorAt(s: string, j: nat, k: nat, m: nat, e: int)
    requires 0 < j < k <= |s| && (s[j] == 'e' || s[j] == 'E')
    requires AllDigits(s[..j]) && (s[0] != '0' || j == 1)
    requires ExponentPart(s[j..]) == Success(Parsed(Some(e), s[k..])) && DigitsUpTo(s[..j], j) == m
    ensures NumberAt(s, false) == Success(Parsed(FloatNum(m, e), s[k..]))
  {
    var d, c, rest := s[..j], s[j..], s[k..];
    SplitAt(s, j);
    SplitAt(s, k);
    assert c[0] == s[j];
    IntegralOfDigits(d, c);
    NoFraction(c);
    DigitsOfText(d, m);
    NumberAtParts(s, false, false, s, d, c, None, c, Some(e), rest, s[..k]);
    ExponentOnlyValue(d, e, s[..k]);
  }

  /** "0.0625" is 625 * 10^-4. */
  lemma FractionVectorZero(s: string)
    requires s == "0.0625,"
    ensures NumberAt(s, false) == Success(Parsed(FloatNum(625, -4), ","))
  {
    var f := s[2..6];
    assert DigitsUpTo(f, 1) == 0;
    assert DigitsUpTo(f, 2) == 6;
    assert DigitsUpTo(f, 3) == 62;
    assert DigitsUpTo(f, 4) == 625;
    assert DigitsUpTo(s[..1], 1) == 0;
    assert Pow10(1) == 10 && Pow10(2) == 100 && Pow10(3) == 1000 && Pow10(4) == 10000;
    PointlessValue(s[..1], f, 0, 625, 625);
    FractionVectorAt(s, 1, 6, 625, -4);
  }

  /** "713.5E+5" is 7135 * 10^4. */
  lemma ExponentPlusVector(s: string)
    requires s == "713.5E+5,"
    ensures NumberAt(s, false) == Success(Parsed(FloatNum(7135, 4), ","))
  {
    ExponentPlusParts(s);
    FloatVectorAt(s, 3, 5, 8, 7135, 5, 4);
  }

  lemma ExponentPlusParts(s: string)
    requires s == "713.5E+5,"
    ensures DigitsValue(s[..3] + s[4..5]) == 7135
    ensures ExponentPart(s[5..]) == Success(Parsed(Some(5), s[8..]))
  {
    var d := s[..3];
    assert DigitsUpTo(d, 1) == 7 && DigitsUpTo(d, 2) == 71 && DigitsUpTo(d, 3) == 713;
    assert DigitsUpTo(s[4..5], 1) == 5 && DigitsUpTo(s[7..8], 1) == 5 && Pow10(1) == 10;
    PointlessValue(d, s[4..5], 713, 5, 7135);
    ExponentOf(s[5..], true, false, s[7..8], s[8..], 5, 5);
  }

  /** "15625E-6" is 15625 * 10^-6: an exponent alone also makes a non-integer. */
  lemma ExponentMinusVector(s: string)
    requires s == "15625E-6,"
    ensures NumberAt(s, false) == Success(Parsed(FloatNum(15625, -6), ","))
  {
    var d := s[..5];
    assert DigitsUpTo(d, 1) == 1 && DigitsUpTo(d, 2) == 15 && DigitsUpTo(d, 3) == 156 && DigitsUpTo(d, 4) == 1562;
    assert DigitsUpTo(d, 5) == 15625;
    ExponentMinusPart(s);
    ExponentVectorAt(s, 5, 8, 15625, -6);
  }

  lemma ExponentMinusPart(s: string)
    requires s == "15625E-6,"
    ensures ExponentPart(s[5..]) == Success(Parsed(Some(-6), s[8..]))
  {
    assert DigitsUpTo(s[7..8], 1) == 6;
    ExponentOf(s[5..], true, true, s[7..8], s[8..], 6, -6);
  }

  /** "1.5E15" is 15 * 10^14: an exponent without a sign. */
  lemma ExponentBigVector(s: string)
    requires s == "1.5E15,"
    ensures NumberAt(s, false) == Success(Parsed(FloatNum(15, 14), ","))
  {
    ExponentBigParts(s);
    FloatVectorAt(s, 1, 3, 6, 15, 15, 14);
  }

  lemma ExponentBigParts(s: string)
    requires s == "1.5E15,"
    ensures DigitsValue(s[..1] + s[2..3]) == 15
    ensures ExponentPart(s[3..]) == Success(Parsed(Some(15), s[6..]))
  {
    var t := s[4..6];
    assert DigitsUpTo(s[..1], 1) == 1 && DigitsUpTo(s[2..3], 1) == 5 && Pow10(1) == 10;
    assert DigitsUpTo(t, 1) == 1 && DigitsUpTo(t, 2) == 15;
    PointlessValue(s[..1], s[2..3], 1, 5, 15);
    ExponentOf(s[3..], false, false, t, s[6..], 15, 15);
  }

  /** The literal names read as their values and stop right after the name. */
  lemma TrueVector(s: string, big: bool)
    requires s == "true}"
    ensures ValueAt(s, big) == Success(Parsed(JBool(true), "}"))
  {
    assert s == "true" + "}";
  }

  lemma FalseVector(s: string, big: bool)
    requires s == "false,"
    ensures ValueAt(s, big) == Success(Parsed(JBool(false), ","))
  {
    assert s[..4][0] == 'f';
    assert s == "false" + ",";
  }

  lemma NullVector(s: string, big: bool)
    requires s == "null{"
    ensures ValueAt(s, big) == Success(Parsed(JNull, "{"))
  {
    assert s[..4][0] == 'n' && s[..5][0] == 'n';
    assert s == "null" + "{";
  }

  /** A string value ends at its closing quotation mark. */
  lemma StringVector(s: string, big: bool)
    requires s == "\"Test\","
    ensures ValueAt(s, big) == Success(Parsed(JString("Test"), ","))
  {
    TestString(s);
    StringValue(s, big, "Test", ",");
  }

  lemma TestString(s: string)
    requires s == "\"Test\","
    ensures StringAt(s) == Success(Parsed("Test", ","))
  {
    assert s[1..1] == "";
    PlainStep(s, 1);
    PlainStep(s, 2);
    PlainStep(s, 3);
    PlainStep(s, 4);
    assert s[5..][1..] == s[6..];
    assert s[1..5] == "Test";
  }

  /** A text starting with a quotation mark is a string value when it reads as a string. */
  lemma StringValue(s: string, big: bool, v: string, rest: string)
    requires s != [] && s[0] == '"' && StringAt(s) == Success(Parsed(v, rest))
    ensures ValueAt(s, big) == Success(Parsed(JString(v), rest))
  {
  }

  /** A text starting with a digit is a number value when it reads as a number. */
  lemma NumberValueOf(s: string, big: bool, v: Number, rest: string)
    requires s != [] && IsDigit(s[0]) && NumberAt(s, big) == Success(Parsed(v, rest))
    ensures ValueAt(s, big) == Success(Parsed(JNumber(v), rest))
  {
  }

  /** One character that needs no escape, taken into the string read so far. */
  lemma PlainStep(s: string, k: nat)
    requires 1 <= k < |s| && s[k] != '"' && s[k] != '\\' && s[k] >= ' '
    ensures StringBody(s[k..], s[1..k]) == StringBody(s[k + 1..], s[1..k + 1])
  {
    assert s[k..][1..] == s[k + 1..];
    assert s[1..k] + [s[k]] == s[1..k + 1];
  }

  /** "3e+5" is the number 3 * 10^5 as a value. */
  lemma NumberValueVector(s: string)
    requires s == "3e+5,"
    ensures ValueAt(s, false) == Success(Parsed(JNumber(FloatNum(3, 5)), ","))
  {
    ExponentOnlyVector(s);
    NumberValueOf(s, false, FloatNum(3, 5), ",");
  }

  lemma ExponentOnlyVector(s: string)
    requires s == "3e+5,"
    ensures NumberAt(s, false) == Success(Parsed(FloatNum(3, 5), ","))
  {
    assert DigitsUpTo(s[..1], 1) == 3;
    assert DigitsUpTo(s[3..4], 1) == 5;
    ExponentOf(s[1..], true, false, s[3..4], s[4..], 5, 5);
    ExponentVectorAt(s, 1, 4, 3, 5);
  }

  /** A value cannot start with 'a'. */
  lemma UnexpectedVector(s: string, big: bool)
    requires s == "asdf"
    ensures ValueAt(s, big) == Failure(DecodeError(UnexpectedChar('a'), 4))
  {
  }

  /** "trap" starts like `true` but is no literal name. */
  lemma LiteralFailVector(s: string, big: bool)
    requires s == "trap"
    ensures ValueAt(s, big) == Failure(DecodeError(InvalidLiteral, 4))
  {
    assert s[..4][2] != "true"[2];
  }

  /** "0123": a zero integral part may not be followed by another digit. */
  lemma LeadingZeroVector(s: string, big: bool)
    requires s == "0123"
    ensures NumberAt(s, big) == Failure(DecodeError(LeadingZero, 3))
  {
  }

  /** "3.xyz": a decimal point must be followed by a digit. */
  lemma NoFractionDigitVector(s: string, big: bool)
    requires s == "3.xyz"
    ensures NumberAt(s, big) == Failure(DecodeError(DigitExpected, 3))
  {
    assert DigitRun(s[1..]) == 0;
    assert DigitRun(s) == 1;
    assert IntegralPart(s) == Success(Parsed(s[..1], s[1..]));
    assert s[1..][1..] == "xyz" && DigitRun("xyz") == 0;
    assert FractionPart(s[1..]) == Failure(DecodeError(DigitExpected, 3));
  }

  /** "1.0exyz": an exponent marker must be followed by a digit. */
  lemma NoExponentDigitVector(s: string, big: bool)
    requires s == "1.0exyz"
    ensures NumberAt(s, big) == Failure(DecodeError(DigitExpected, 3))
  {
    var f := s[1..];
    assert IntegralPart(s) == Success(Parsed(s[..1], f)) by {
      assert DigitRun(s[1..]) == 0;
      assert DigitRun(s) == 1;
    }
    assert FractionPart(f) == Success(Parsed(Some("0"), "exyz")) by {
      assert s[1..][1..] == "0exyz" && DigitRun("exyz") == 0 && DigitRun("0exyz") == 1;
      assert f[1..] == "0exyz" && f[1..][..1] == "0" && f[2..] == "exyz";
    }
    var e := "exyz";
    assert ExponentPart(e) == Failure(DecodeError(DigitExpected, 3)) by {
      assert e[1..] == "xyz" && DigitRun("xyz") == 0;
    }
  }
}
