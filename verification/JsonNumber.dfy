/**
 Numbers: the decimal text that "%d" prints, and what `parse_number` reads.
 Values are exact reals; rounding to a double is not modelled.
 */
module JsonNumber {
  import opened CBytes

  const INT_MAX: int := 0x7FFF_FFFF
  const INT_MIN: int := -0x8000_0000

  /** The conversion to `valueint`: truncation toward zero, saturating at the ends of `int`. */
  function SaturatedInt(v: real): (i: int)
    ensures INT_MIN <= i <= INT_MAX
  {
    if v >= INT_MAX as real then INT_MAX
    else if v <= INT_MIN as real then INT_MIN
    else if v >= 0.0 then v.Floor
    else -((-v).Floor)
  }

  /** Between the ends of `int` the fraction is cut off: the result is no further from zero, by less than one. */
  lemma FractionCutOff(v: real)
    requires INT_MIN as real <= v <= INT_MAX as real
    ensures var d := v - SaturatedInt(v) as real; if v >= 0.0 then 0.0 <= d < 1.0 else -1.0 < d <= 0.0
  {
  }

  /** The printer takes the "%d" branch for `v`. */
  predicate PrintsAsInt(v: real) { v == SaturatedInt(v) as real }

  /** That branch is for exactly the numbers that are `int`s. */
  lemma IntsPrintAsInt(v: real)
    ensures PrintsAsInt(v) <==> v == v.Floor as real && INT_MIN <= v.Floor <= INT_MAX
  {
    if v == SaturatedInt(v) as real {
      SaturatedOfInt(SaturatedInt(v));
    }
    if v == v.Floor as real && INT_MIN <= v.Floor <= INT_MAX {
      SaturatedOfInt(v.Floor);
    }
  }

  lemma SaturatedOfInt(n: int)
    requires INT_MIN <= n <= INT_MAX
    ensures SaturatedInt(n as real) == n == (n as real).Floor
  {
    assert (n as real).Floor == n && (-(n as real)).Floor == -n;
  }

  // ----- "%d" -----------------------------------------------------------------

  predicate IsDigit(b: byte) { '0' as int <= b <= '9' as int }

  predicate AllDigits(s: bytes) { forall i | 0 <= i < |s| :: IsDigit(s[i]) }

  function Digits(n: nat): (s: bytes)
    ensures s != [] && AllDigits(s)
  {
    if n < 10 then ['0' as int + n] else Digits(n / 10) + ['0' as int + n % 10]
  }

  function Decimal(n: int): (s: bytes)
    ensures s != [] && NulFree(s) && (s[0] == '-' as int || IsDigit(s[0]))
  {
    if n < 0 then ['-' as int] + Digits(-n) else Digits(n)
  }

  function DigitsValue(s: bytes): nat
    requires AllDigits(s)
  {
    if s == [] then 0 else DigitsValue(s[..|s| - 1]) * 10 + (s[|s| - 1] - '0' as int)
  }

  lemma {:induction false} DigitsRoundTrip(n: nat)
    ensures DigitsValue(Digits(n)) == n
  {
    if n >= 10 {
      DigitsRoundTrip(n / 10);
      var s := Digits(n);
      assert s[..|s| - 1] == Digits(n / 10);
    } else {
      assert Digits(n)[..0] == [];
    }
  }

  function Pow10(k: nat): (p: nat)
    ensures p > 0
  {
    if k == 0 then 1 else 10 * Pow10(k - 1)
  }

  lemma {:induction false} DigitsLength(n: nat, k: nat)
    requires k > 0 && n < Pow10(k)
    ensures |Digits(n)| <= k
  {
    assert Pow10(1) == 10 * Pow10(0) == 10;
    if n >= 10 {
      assert Pow10(k) == 10 * Pow10(k - 1);
      DigitsLength(n / 10, k - 1);
    }
  }

  /** An `int` prints in at most eleven characters. */
  lemma DecimalLength(n: int)
    requires INT_MIN <= n <= INT_MAX
    ensures |Decimal(n)| <= 11
  {
    assert Pow10(10) == 10000000000 by {
      assert Pow10(5) == 100000;
      assert Pow10(10) == 100000 * Pow10(5);
    }
    DigitsLength(if n < 0 then -n else n, 10);
  }

  // ----- strtod on the characters that parse_number copies ------------------------

  predicate IsSign(b: byte) { b == '+' as int || b == '-' as int }
  predicate IsExponentMark(b: byte) { b == 'e' as int || b == 'E' as int }
  predicate IsNumberByte(b: byte) { IsDigit(b) || IsSign(b) || IsExponentMark(b) || b == '.' as int }

  function DigitCount(s: bytes, i: nat): (k: nat)
    requires i <= |s|
    ensures i + k <= |s| && AllDigits(s[i..i + k])
    ensures i + k < |s| ==> !IsDigit(s[i + k])
    decreases |s| - i
  {
    if i < |s| && IsDigit(s[i]) then
      var k := DigitCount(s, i + 1);
      assert s[i..i + 1 + k] == [s[i]] + s[i + 1..i + 1 + k];
      1 + k
    else 0
  }

  function SignLength(s: bytes, i: nat): nat { if i < |s| && IsSign(s[i]) then 1 else 0 }

  function Negative(s: bytes, i: nat): bool { i < |s| && s[i] == '-' as int }

  /** v * 10^e */
  function Scale(v: real, e: int): real {
    if e >= 0 then v * (Pow10(e) as real) else v / (Pow10(-e) as real)
  }

  /** What stands behind a point: how long it is with the point, and the digits. */
  datatype Fraction = Fraction(length: nat, digits: bytes)

  function FractionAt(s: bytes, p: nat): (f: Fraction)
    requires p <= |s|
    ensures p + f.length <= |s| && AllDigits(f.digits)
  {
    if p < |s| && s[p] == '.' as int then
      var k := DigitCount(s, p + 1);
      Fraction(1 + k, s[p + 1..p + 1 + k])
    else Fraction(0, [])
  }

  /** An exponent: how long it is with its mark and sign, and its value; without digits it is none. */
  datatype Power = Power(length: nat, value: int)

  function PowerAt(s: bytes, p: nat): (e: Power)
    requires p <= |s|
    ensures p + e.length <= |s|
  {
    if p < |s| && IsExponentMark(s[p]) then
      var q := p + 1 + SignLength(s, p + 1);
      var k := DigitCount(s, q);
      if k == 0 then Power(0, 0)
      else
        var e: int := DigitsValue(s[q..q + k]);
        Power(q + k - p, if Negative(s, p + 1) then -e else e)
    else Power(0, 0)
  }

  /** How many characters `strtod` accepts, and their value; none means no conversion. */
  datatype Reading = Reading(length: nat, value: real)

  function Strtod(s: bytes): (r: Reading)
    ensures r.length <= |s|
  {
    hide DigitCount, Scale, DigitsValue, FractionAt, PowerAt;
    var p0 := SignLength(s, 0);
    var p1 := p0 + DigitCount(s, p0);
    var f := FractionAt(s, p1);
    var digits := s[p0..p1] + f.digits;
    if digits == [] then Reading(0, 0.0)
    else
      var e := PowerAt(s, p1 + f.length);
      var mantissa := DigitsValue(digits) as real;
      var signed := if Negative(s, 0) then -mantissa else mantissa;
      Reading(p1 + f.length + e.length, Scale(signed, e.value - |f.digits|))
  }

  // ----- the syntax of numbers ------------------------------------------------------

  datatype Exponent = NoExponent | Exponent(mark: byte, sign: bytes, digits: bytes)

  /** A number as it is written: sign, whole part, a point with a fraction perhaps, an exponent perhaps. */
  datatype NumberParts = NumberParts(sign: bytes, whole: bytes, point: bool, fraction: bytes, exponent: Exponent)

  predicate SignText(s: bytes) { s == [] || (|s| == 1 && IsSign(s[0])) }

  predicate GoodExponent(e: Exponent) {
    e.Exponent? ==> IsExponentMark(e.mark) && SignText(e.sign) && e.digits != [] && AllDigits(e.digits)
  }

  predicate GoodNumber(n: NumberParts) {
    && SignText(n.sign) && AllDigits(n.whole) && AllDigits(n.fraction) && n.whole + n.fraction != []
    && (n.fraction != [] ==> n.point)
    && GoodExponent(n.exponent)
  }

  function ExponentText(e: Exponent): bytes {
    match e
    case NoExponent => []
    case Exponent(mark, sign, digits) => [mark] + (sign + digits)
  }

  function FractionText(n: NumberParts): bytes { if n.point then ['.' as int] + n.fraction else [] }

  function PartsText(n: NumberParts): bytes { n.sign + (n.whole + (FractionText(n) + ExponentText(n.exponent))) }

  function ExponentValue(e: Exponent): int
    requires e.Exponent? ==> AllDigits(e.digits)
  {
    match e
    case NoExponent => 0
    case Exponent(_, sign, digits) =>
      var e: int := DigitsValue(digits);
      if Negative(sign, 0) then -e else e
  }

  /** The whole part and as many parts in ten to the power of its length as the fraction says. */
  function Mantissa(n: NumberParts): real
    requires GoodNumber(n)
  {
    DigitsValue(n.whole) as real + DigitsValue(n.fraction) as real / Pow10(|n.fraction|) as real
  }

  function PartsValue(n: NumberParts): real
    requires GoodNumber(n)
  {
    Scale(if Negative(n.sign, 0) then -Mantissa(n) else Mantissa(n), ExponentValue(n.exponent))
  }

  lemma {:induction false} DigitsValueConcat(s: bytes, t: bytes)
    requires AllDigits(s) && AllDigits(t)
    ensures AllDigits(s + t) && DigitsValue(s + t) == DigitsValue(s) * Pow10(|t|) + DigitsValue(t)
    decreases |t|
  {
    if t == [] {
      assert s + t == s;
    } else {
      var init, last := t[..|t| - 1], t[|t| - 1];
      assert t == init + [last] && s + t == s + init + [last];
      DigitsValueConcat(s, init);
      DigitsValueSnoc(init, last);
      DigitsValueSnoc(s + init, last);
      TimesTen(DigitsValue(s), Pow10(|init|));
    }
  }

  lemma DigitsValueSnoc(s: bytes, b: byte)
    requires AllDigits(s) && IsDigit(b)
    ensures AllDigits(s + [b]) && DigitsValue(s + [b]) == DigitsValue(s) * 10 + (b - '0' as int)
  {
    assert (s + [b])[..|s|] == s;
  }

  lemma TimesTen(x: nat, y: nat)
    ensures x * (10 * y) == 10 * (x * y)
  {
  }

  lemma {:induction false} Pow10Sum(a: nat, b: nat)
    ensures Pow10(a + b) == Pow10(a) * Pow10(b)
  {
    hide Pow10;
    Pow10Unfold(a);
    Pow10Unfold(a + b);
    if a > 0 {
      Pow10Sum(a - 1, b);
      TenTimes(Pow10(a - 1), Pow10(b));
    }
  }

  lemma Pow10Unfold(k: nat)
    ensures Pow10(k) == if k == 0 then 1 else 10 * Pow10(k - 1)
  {
  }

  lemma TenTimes(x: nat, y: nat)
    ensures 10 * (x * y) == 10 * x * y
  {
  }

  lemma Quotient(v: real, a: real, b: real)
    requires a > 0.0 && b > 0.0
    ensures v / (a * b) == v / a / b
  {
  }

  lemma ScaleDown(v: real, k: int)
    requires k >= 0
    ensures Scale(v, -k) == v / Pow10(k) as real
  {
    assert Pow10(0) == 1;
  }

  lemma ScaleUp(v: real, k: int)
    requires k >= 0
    ensures Scale(v, k) == v * Pow10(k) as real
  {
  }

  /** Shifting the point in two steps. */
  lemma ScaleSum(v: real, k: int, e: int)
    requires k >= 0
    ensures Scale(v, e - k) == Scale(Scale(v, -k), e)
  {
    hide Pow10, Scale;
    ScaleDown(v, k);
    if e <= 0 {
      ScaleTwiceDown(v, k, -e);
    } else if e <= k {
      ScaleDown(v, k - e);
      ScaleUp(v / Pow10(k) as real, e);
      Pow10Sum(e, k - e);
      ProductReal(Pow10(e), Pow10(k - e));
      ShiftBack(v, Pow10(e) as real, Pow10(k - e) as real);
    } else {
      ScaleUp(v, e - k);
      ScaleUp(v / Pow10(k) as real, e);
      Pow10Sum(k, e - k);
      ProductReal(Pow10(k), Pow10(e - k));
      ShiftOn(v, Pow10(k) as real, Pow10(e - k) as real);
    }
  }

  lemma ScaleTwiceDown(v: real, k: int, e: int)
    requires k >= 0 && e >= 0
    ensures Scale(v, -e - k) == Scale(v / Pow10(k) as real, -e)
  {
    hide Pow10, Scale;
    var a, b, p := Pow10(k), Pow10(e), Pow10(k + e);
    assert -e - k == -(k + e);
    ScaleDown(v, k + e);
    ScaleDown(v / a as real, e);
    assert p as real == a as real * b as real by {
      Pow10Sum(k, e);
      ProductReal(a, b);
    }
    Quotient(v, a as real, b as real);
  }

  lemma ProductReal(a: nat, b: nat)
    ensures (a * b) as real == a as real * b as real
  {
  }

  lemma ShiftBack(v: real, a: real, b: real)
    requires a > 0.0 && b > 0.0
    ensures v / (a * b) * a == v / b
  {
  }

  lemma ShiftOn(v: real, a: real, b: real)
    requires a > 0.0 && b > 0.0
    ensures v / a * (a * b) == v * b
  {
  }

  lemma {:induction false} DigitCountExact(s: bytes, i: nat, k: nat)
    requires i + k <= |s| && AllDigits(s[i..i + k]) && (i + k < |s| ==> !IsDigit(s[i + k]))
    ensures DigitCount(s, i) == k
    decreases k
  {
    if k > 0 {
      assert s[i] == s[i..i + k][0] && s[i + 1..i + k] == s[i..i + k][1..];
      DigitCountExact(s, i + 1, k - 1);
    }
  }

  /** The digits of both parts, read as one number and shifted by the length of the fraction. */
  lemma MantissaShifted(n: NumberParts)
    requires GoodNumber(n)
    ensures AllDigits(n.whole + n.fraction)
    ensures Scale(DigitsValue(n.whole + n.fraction) as real, -|n.fraction|) == Mantissa(n)
    ensures Scale(-(DigitsValue(n.whole + n.fraction) as real), -|n.fraction|) == -Mantissa(n)
  {
    hide DigitsValue, Pow10, Scale;
    var w, f, p := DigitsValue(n.whole), DigitsValue(n.fraction), Pow10(|n.fraction|);
    var m := DigitsValue(n.whole + n.fraction);
    DigitsValueConcat(n.whole, n.fraction);
    ProductReal(w, p);
    ScaleDown(m as real, |n.fraction|);
    ScaleDown(-(m as real), |n.fraction|);
    Shares(w as real, f as real, p as real);
  }

  lemma Shares(w: real, f: real, p: real)
    requires p > 0.0
    ensures (w * p + f) / p == w + f / p && -(w * p + f) / p == -(w + f / p)
  {
  }

  /** Digits in a text that no further digit follows. */
  lemma DigitsAt(s: bytes, i: nat, digits: bytes)
    requires Has(s, i, digits) && AllDigits(digits) && (i + |digits| < |s| ==> !IsDigit(s[i + |digits|]))
    ensures DigitCount(s, i) == |digits| && s[i..i + |digits|] == digits
  {
    DigitCountExact(s, i, |digits|);
  }

  lemma ExponentFirst(e: Exponent)
    requires GoodExponent(e)
    ensures e.NoExponent? ==> ExponentText(e) == []
    ensures e.Exponent? ==> ExponentText(e) != [] && ExponentText(e)[0] == e.mark
    ensures e.Exponent? ==> !IsDigit(e.mark) && !IsSign(e.mark) && e.mark != '.' as int
  {
  }

  /** A sign in front of something that starts with none. */
  lemma SignAt(s: bytes, p: nat, sign: bytes)
    requires Has(s, p, sign) && SignText(sign) && (p + |sign| < |s| ==> !IsSign(s[p + |sign|]))
    ensures SignLength(s, p) == |sign| && Negative(s, p) == Negative(sign, 0)
  {
    if sign != [] {
      HasByte(s, p, sign, 0);
    }
  }

  /** Where the parts of an exponent stand. */
  lemma ExponentPlaces(s: bytes, p: nat, mark: byte, sign: bytes, digits: bytes)
    requires Has(s, p, [mark] + (sign + digits)) && |s| == p + 1 + |sign| + |digits|
    requires SignText(sign) && digits != [] && AllDigits(digits)
    ensures s[p] == mark && SignLength(s, p + 1) == |sign| && Negative(s, p + 1) == Negative(sign, 0)
    ensures var q := p + 1 + |sign|; DigitCount(s, q) == |digits| && s[q..q + |digits|] == digits
  {
    hide DigitCount, Has, SignLength, Negative, AllDigits, SignText;
    HasConcat(s, p, [mark], sign + digits);
    HasConcat(s, p + 1, sign, digits);
    HasByte(s, p, [mark], 0);
    HasByte(s, p + 1 + |sign|, digits, 0);
    FirstDigit(digits);
    SignAt(s, p + 1, sign);
    DigitsAt(s, p + 1 + |sign|, digits);
  }

  /** The exponent at the end of a text. */
  lemma ExponentLayout(s: bytes, p: nat, e: Exponent)
    requires GoodExponent(e) && Has(s, p, ExponentText(e)) && |s| == p + |ExponentText(e)|
    ensures PowerAt(s, p) == Power(|ExponentText(e)|, ExponentValue(e))
  {
    hide DigitCount, Has, IsExponentMark, SignLength, Negative, DigitsValue, AllDigits, SignText;
    if e.Exponent? {
      ExponentPlaces(s, p, e.mark, e.sign, e.digits);
    }
  }

  lemma FirstDigit(s: bytes)
    requires s != [] && AllDigits(s)
    ensures IsDigit(s[0]) && !IsSign(s[0])
  {
  }

  /** The fraction in front of the exponent. */
  lemma FractionLayout(s: bytes, p: nat, n: NumberParts)
    requires GoodNumber(n) && Has(s, p, FractionText(n) + ExponentText(n.exponent))
    requires |s| == p + |FractionText(n)| + |ExponentText(n.exponent)|
    ensures FractionAt(s, p) == Fraction(|FractionText(n)|, n.fraction)
    ensures p < |s| ==> !IsDigit(s[p]) && !IsSign(s[p])
  {
    hide DigitCount, Has, ExponentText, AllDigits, IsExponentMark;
    var e := ExponentText(n.exponent);
    HasConcat(s, p, FractionText(n), e);
    ExponentFirst(n.exponent);
    if e != [] {
      HasByte(s, p + |FractionText(n)|, e, 0);
    }
    if n.point {
      HasConcat(s, p, ['.' as int], n.fraction);
      HasByte(s, p, ['.' as int], 0);
      DigitsAt(s, p + 1, n.fraction);
    }
  }

  /** The whole part behind the sign. */
  lemma WholeLayout(n: NumberParts)
    requires GoodNumber(n)
    ensures var s, p0 := PartsText(n), |n.sign|;
            && SignLength(s, 0) == p0 && Negative(s, 0) == Negative(n.sign, 0)
            && DigitCount(s, p0) == |n.whole| && s[p0..p0 + |n.whole|] == n.whole
            && Has(s, p0 + |n.whole|, FractionText(n) + ExponentText(n.exponent))
            && |s| == p0 + |n.whole| + |FractionText(n)| + |ExponentText(n.exponent)|
  {
    hide DigitCount, Has, ExponentText, FractionText, AllDigits, SignLength, Negative;
    var s, p0, rest := PartsText(n), |n.sign|, FractionText(n) + ExponentText(n.exponent);
    assert Has(s, 0, s) by { HasAll(s); }
    HasConcat(s, 0, n.sign, n.whole + rest);
    HasConcat(s, p0, n.whole, rest);
    FractionLayout(s, p0 + |n.whole|, n);
    if n.whole != [] {
      HasByte(s, p0, n.whole, 0);
      FirstDigit(n.whole);
    }
    SignAt(s, 0, n.sign);
    DigitsAt(s, p0, n.whole);
  }

  lemma HasAll(s: bytes)
    ensures Has(s, 0, s)
  {
  }

  /** `strtod` reads every number to its end, and gives its value. */
  lemma StrtodReads(n: NumberParts)
    requires GoodNumber(n)
    ensures Strtod(PartsText(n)) == Reading(|PartsText(n)|, PartsValue(n))
  {
    hide DigitCount, Scale, DigitsValue, PartsText, ExponentText, ExponentValue, SignLength, Negative, Has;
    hide FractionAt, PowerAt, Mantissa, FractionText, AllDigits, SignText;
    var s, p1 := PartsText(n), |n.sign| + |n.whole|;
    WholeLayout(n);
    FractionLayout(s, p1, n);
    HasConcat(s, p1, FractionText(n), ExponentText(n.exponent));
    ExponentLayout(s, p1 + |FractionText(n)|, n.exponent);
    ValueShifted(n);
  }

  /** The value of a number, as a shifted integer. */
  lemma ValueShifted(n: NumberParts)
    requires GoodNumber(n)
    ensures AllDigits(n.whole + n.fraction)
    ensures var m := DigitsValue(n.whole + n.fraction) as real;
            Scale(if Negative(n.sign, 0) then -m else m, ExponentValue(n.exponent) - |n.fraction|) == PartsValue(n)
  {
    hide DigitsValue, Scale, Mantissa, ExponentValue;
    MantissaShifted(n);
    var m, k: int := DigitsValue(n.whole + n.fraction) as real, |n.fraction|;
    ScaleSum(if Negative(n.sign, 0) then -m else m, k, ExponentValue(n.exponent));
  }

  /** What `strtod` reads is a number. */
  lemma StrtodWrites(s: bytes) returns (n: NumberParts)
    requires Strtod(s).length > 0
    ensures GoodNumber(n) && PartsText(n) == s[..Strtod(s).length] && PartsValue(n) == Strtod(s).value
  {
    hide DigitCount, Scale, DigitsValue, SignLength, Negative, AllDigits, ExponentValue, PartsValue;
    hide FractionAt, PowerAt, SignText, ExponentText, FractionText, PartsText;
    SignPart(s);
    n := Pieces(s);
    ValueShifted(n);
  }

  lemma Pieces(s: bytes) returns (n: NumberParts)
    requires Strtod(s).length > 0
    ensures GoodNumber(n) && PartsText(n) == s[..Strtod(s).length] && Negative(n.sign, 0) == Negative(s, 0)
    ensures var p1 := |n.sign| + |n.whole|;
            && |n.sign| == SignLength(s, 0) && |n.whole| == DigitCount(s, |n.sign|)
            && n.whole == s[|n.sign|..p1] && n.fraction == FractionAt(s, p1).digits
            && ExponentValue(n.exponent) == PowerAt(s, p1 + FractionAt(s, p1).length).value
  {
    hide DigitCount, Scale, DigitsValue, SignLength, Negative, ExponentValue;
    hide FractionAt, PowerAt, SignText, ExponentText, FractionText, GoodExponent, AllDigits;
    var p0 := SignLength(s, 0);
    var p1 := p0 + DigitCount(s, p0);
    var f := FractionAt(s, p1);
    var p2 := p1 + f.length;
    var e := ExponentPart(s, p2);
    SignPart(s);
    n := NumberParts(s[..p0], s[p0..p1], f.length > 0, f.digits, e);
    FractionPart(s, p1, n);
    Rejoined(s, p0, p1, p2, p2 + PowerAt(s, p2).length);
  }

  lemma Rejoined(s: bytes, i: nat, j: nat, k: nat, l: nat)
    requires i <= j <= k <= l <= |s|
    ensures s[..i] + (s[i..j] + (s[j..k] + s[k..l])) == s[..l]
  {
  }

  lemma SignPart(s: bytes)
    ensures var k := SignLength(s, 0); k <= |s| && SignText(s[..k]) && Negative(s[..k], 0) == Negative(s, 0)
  {
  }

  lemma FractionPart(s: bytes, p: nat, n: NumberParts)
    requires p <= |s| && n.point == (FractionAt(s, p).length > 0) && n.fraction == FractionAt(s, p).digits
    ensures FractionText(n) == s[p..p + FractionAt(s, p).length] && (n.fraction != [] ==> n.point)
  {
    hide DigitCount;
  }

  lemma ExponentPart(s: bytes, p: nat) returns (e: Exponent)
    requires p <= |s|
    ensures var r := PowerAt(s, p);
            GoodExponent(e) && ExponentText(e) == s[p..p + r.length] && ExponentValue(e) == r.value
  {
    hide DigitCount, DigitsValue, AllDigits;
    var r := PowerAt(s, p);
    if r.length == 0 {
      e := NoExponent;
    } else {
      var q := p + 1 + SignLength(s, p + 1);
      e := Exponent(s[p], s[p + 1..q], s[q..p + r.length]);
      assert s[p..p + r.length] == [s[p]] + (s[p + 1..q] + s[q..p + r.length]);
    }
  }

  predicate NumberBytes(s: bytes) { forall i | 0 <= i < |s| :: IsNumberByte(s[i]) }

  lemma NumberBytesConcat(s: bytes, t: bytes)
    requires NumberBytes(s) && NumberBytes(t)
    ensures NumberBytes(s + t)
  {
  }

  /** A number consists of number characters. */
  lemma PartsBytes(n: NumberParts)
    requires GoodNumber(n)
    ensures NumberBytes(PartsText(n))
  {
    TokenBytes(n);
    hide NumberBytes, FractionText, ExponentText;
    NumberBytesConcat(FractionText(n), ExponentText(n.exponent));
    NumberBytesConcat(n.whole, FractionText(n) + ExponentText(n.exponent));
    NumberBytesConcat(n.sign, n.whole + (FractionText(n) + ExponentText(n.exponent)));
  }

  lemma TokenBytes(n: NumberParts)
    requires GoodNumber(n)
    ensures NumberBytes(n.sign) && NumberBytes(n.whole)
    ensures NumberBytes(FractionText(n)) && NumberBytes(ExponentText(n.exponent))
  {
    if n.exponent.Exponent? {
      NumberBytesConcat(n.exponent.sign, n.exponent.digits);
      NumberBytesConcat([n.exponent.mark], n.exponent.sign + n.exponent.digits);
    }
  }

  /** A value that starts with this byte is taken for a number. */
  predicate LeadsNumber(b: byte) { b == '-' as int || IsDigit(b) }

  /** An `int` as a number without fraction and exponent. */
  function DecimalParts(n: int): (p: NumberParts)
    ensures GoodNumber(p) && PartsText(p) == Decimal(n)
  {
    var m := if n < 0 then Digits(-n) else Digits(n);
    NumberParts(if n < 0 then ['-' as int] else [], m, false, [], NoExponent)
  }

  lemma DecimalValue(n: int)
    ensures PartsValue(DecimalParts(n)) == n as real
  {
    hide Digits, DigitsValue, Scale;
    var m: nat := if n < 0 then -n else n;
    DigitsRoundTrip(m);
    NoDigits();
    ScaleZero(if n < 0 then -(m as real) else m as real);
  }

  lemma NoDigits()
    ensures DigitsValue([]) == 0
  {
  }

  lemma ScaleZero(v: real)
    ensures Scale(v, 0) == v
  {
    assert Pow10(0) == 1;
  }

  /** Length of the run of number characters at `i`, at most `room`: the first loop of `parse_number`. */
  function NumberRun(c: bytes, i: nat, room: nat): (k: nat)
    ensures k <= room && (k > 0 ==> i + k <= |c|)
    ensures forall j | i <= j < i + k :: IsNumberByte(c[j])
    decreases room
  {
    if room == 0 || i >= |c| || !IsNumberByte(c[i]) then 0 else 1 + NumberRun(c, i + 1, room - 1)
  }

  /** The temporary buffer holds 63 characters and a NUL. */
  const NUMBER_ROOM: nat := 63

  /** What `parse_number` reads at `off`: length 0 means failure. */
  function ParseNumberAt(c: bytes, off: nat): (r: Reading)
    requires off <= |c|
    ensures off + r.length <= |c|
    ensures forall j | off <= j < off + r.length :: IsNumberByte(c[j])
  {
    Strtod(c[off..off + NumberRun(c, off, NUMBER_ROOM)])
  }

  lemma {:induction false} RunIsExact(c: bytes, i: nat, k: nat, room: nat)
    requires k <= room && i + k < |c| && !IsNumberByte(c[i + k])
    requires forall j | i <= j < i + k :: IsNumberByte(c[j])
    ensures NumberRun(c, i, room) == k
    decreases k
  {
    if k > 0 {
      RunIsExact(c, i + 1, k - 1, room - 1);
    }
  }

  /** Reading a number gives its value, provided there is room for it and no number character follows. */
  lemma NumberParses(c: bytes, off: nat, n: NumberParts)
    requires GoodNumber(n) && |PartsText(n)| <= NUMBER_ROOM && Has(c, off, PartsText(n))
    requires off + |PartsText(n)| < |c| && !IsNumberByte(c[off + |PartsText(n)|])
    ensures ParseNumberAt(c, off) == Reading(|PartsText(n)|, PartsValue(n))
  {
    hide Strtod, PartsText, NumberRun, GoodNumber, PartsValue;
    var s := PartsText(n);
    PartsBytes(n);
    forall j | off <= j < off + |s| ensures IsNumberByte(c[j]) {
      HasByte(c, off, s, j - off);
    }
    RunIsExact(c, off, |s|, NUMBER_ROOM);
    assert c[off..off + |s|] == s;
    StrtodReads(n);
  }

  /** What is read is a number with room for it. */
  lemma ParsedNumber(c: bytes, off: nat) returns (n: NumberParts)
    requires off <= |c| && ParseNumberAt(c, off).length > 0
    ensures GoodNumber(n) && |PartsText(n)| <= NUMBER_ROOM && Has(c, off, PartsText(n))
    ensures ParseNumberAt(c, off) == Reading(|PartsText(n)|, PartsValue(n))
  {
    hide Strtod, PartsText, NumberRun, GoodNumber, PartsValue;
    var k := NumberRun(c, off, NUMBER_ROOM);
    var s := c[off..off + k];
    n := StrtodWrites(s);
    assert s[..Strtod(s).length] == c[off..off + Strtod(s).length];
  }

  /** Reading a printed `int` gives it back, provided no number character follows. */
  lemma NumberRoundTrip(c: bytes, off: nat, n: int)
    requires INT_MIN <= n <= INT_MAX && Has(c, off, Decimal(n))
    requires off + |Decimal(n)| < |c| && !IsNumberByte(c[off + |Decimal(n)|])
    ensures ParseNumberAt(c, off) == Reading(|Decimal(n)|, n as real)
  {
    hide Decimal, PartsText, PartsValue, ParseNumberAt;
    DecimalLength(n);
    DecimalValue(n);
    NumberParses(c, off, DecimalParts(n));
  }

  // ----- compare_double -------------------------------------------------------------

  function Magnitude(x: real): real { if x < 0.0 then -x else x }

  const DBL_EPSILON: real := 1.0 / 4503599627370496.0

  /** `compare_double`. */
  predicate Close(x: real, y: real) {
    Magnitude(x - y) <= (if Magnitude(x) > Magnitude(y) then Magnitude(x) else Magnitude(y)) * DBL_EPSILON
  }
}
