/**
 * Numbers as the fetch service handles them: `Double.valueOf` on an observation's value text,
 * `BigDecimal.valueOf(double)`, and `BigDecimal.divide(divisor, 6, RoundingMode.HALF_UP)`.
 * Finite values are held as exact rationals.
 */
module Doubles {
  import opened Options
  import opened DecimalText
  import opened Outcomes

  /** A Java `double` as the parser produces it. */
  datatype DoubleValue = Finite(value: real) | NaN | Infinity(negative: bool)

  /** `x × 10^e`, one decimal shift at a time. */
  function Shift10(x: real, e: int): (r: real)
    ensures x >= 0.0 ==> r >= 0.0
    decreases if e < 0 then -e else e
  {
    if e == 0 then x
    else if e > 0 then Shift10(x, e - 1) * 10.0
    else Shift10(x, e + 1) / 10.0
  }

  /** The number `digits × 10^exponent`. */
  function DecimalValue(digits: string, exponent: int): (v: real)
    requires AllDigits(digits)
    ensures v >= 0.0
  {
    Shift10(DigitsValue(digits) as real, exponent)
  }

  /** Drops the leading characters `String.trim` removes (code points up to U+0020). */
  function TrimStart(s: string): (r: string)
    ensures |r| <= |s| && r == s[|s| - |r|..]
    ensures r != [] ==> r[0] > ' '
  {
    if s != [] && s[0] <= ' ' then TrimStart(s[1..]) else s
  }

  /** Drops the trailing characters `String.trim` removes. */
  function TrimEnd(s: string): (r: string)
    ensures |r| <= |s| && r == s[..|r|]
    ensures r != [] ==> r[|r| - 1] > ' '
  {
    if s != [] && s[|s| - 1] <= ' ' then TrimEnd(s[..|s| - 1]) else s
  }

  /** `String.trim`. */
  function Trim(s: string): (r: string)
    ensures |r| <= |s|
    ensures r != [] ==> r[0] > ' ' && r[|r| - 1] > ' '
  {
    TrimEnd(TrimStart(s))
  }

  /** The end of the run of decimal digits that starts at `i`. */
  function DigitRun(s: string, i: nat): (j: nat)
    requires i <= |s|
    ensures i <= j <= |s| && AllDigits(s[i..j])
    ensures j < |s| ==> !IsDigit(s[j])
    decreases |s| - i
  {
    if i < |s| && IsDigit(s[i]) then
      var j := DigitRun(s, i + 1);
      assert s[i..j] == [s[i]] + s[i + 1..j];
      j
    else i
  }

  /** An optional exponent `[eE][+-]?\d+` at `k`: its value and the position after it. */
  function ParseExponent(b: string, k: nat): (r: Option<(int, nat)>)
    requires k <= |b|
    ensures r.Some? ==> k <= r.value.1 <= |b|
    ensures r.Some? && r.value.1 == k ==> r.value.0 == 0
  {
    if k < |b| && (b[k] == 'e' || b[k] == 'E') then
      var signed := k + 1 < |b| && (b[k + 1] == '+' || b[k + 1] == '-');
      var s := if signed then k + 2 else k + 1;
      var f := DigitRun(b, s);
      if f == s then None
      else
        var n := DigitsValue(b[s..f]);
        var e := if signed && b[k + 1] == '-' then -(n as int) else n as int;
        Some((e, f))
    else Some((0, k))
  }

  /**
   * The unsigned decimal notation `Double.valueOf` reads: digits with at most one point and at
   * least one digit, an optional exponent, and an optional final `f`, `F`, `d` or `D`.
   */
  function ParseUnsignedDecimal(b: string): (r: Option<real>)
    ensures r.Some? ==> r.value >= 0.0
    ensures r.Some? ==> exists i :: 0 <= i < |b| && IsDigit(b[i])
  {
    var j := DigitRun(b, 0);
    var point := j < |b| && b[j] == '.';
    var k := if point then DigitRun(b, j + 1) else j;
    var fraction := if point then b[j + 1..k] else [];
    DigitsValueAppend(b[..j], fraction);
    var r := ScaleMantissa(b, b[..j] + fraction, |fraction|, k);
    assert r.Some? ==> |b[..j]| > 0 || |fraction| > 0;
    assert |b[..j]| > 0 ==> IsDigit(b[0]);
    assert |b[..j]| == 0 && |fraction| > 0 ==> IsDigit(b[j + 1]);
    r
  }

  /**
   * The value of the digits `mantissa` of which the last `fractionDigits` follow the point,
   * once an optional exponent and an optional final `f`, `F`, `d` or `D` after `k` are read.
   */
  function ScaleMantissa(b: string, mantissa: string, fractionDigits: nat, k: nat): (r: Option<real>)
    requires AllDigits(mantissa) && k <= |b|
    ensures r.Some? ==> |mantissa| > 0 && r.value >= 0.0
  {
    if |mantissa| == 0 then None
    else
      match ParseExponent(b, k)
      case None => None
      case Some((e, m)) =>
        if m == |b| || (m == |b| - 1 && b[m] in "fFdD") then
          Some(DecimalValue(mantissa, e - fractionDigits))
        else None
  }

  /**
   * `Double.valueOf(text)`: `None` is the `NumberFormatException`. After trimming, an optional
   * sign precedes `NaN`, `Infinity` or an unsigned decimal.
   */
  function ParseDouble(text: string): (r: Option<DoubleValue>)
    ensures r.Some? && r.value.Finite? ==> exists i :: 0 <= i < |text| && IsDigit(text[i])
  {
    var t := Trim(text);
    var r := ParseTrimmed(t);
    assert r.Some? && r.value.Finite? ==> exists i :: 0 <= i < |t| && IsDigit(t[i]);
    r
  }

  /** `Double.valueOf` on text that has been trimmed. */
  function ParseTrimmed(t: string): (r: Option<DoubleValue>)
    ensures r.Some? && r.value.Finite? ==> exists i :: 0 <= i < |t| && IsDigit(t[i])
  {
    var signed := |t| > 0 && (t[0] == '-' || t[0] == '+');
    var negative := signed && t[0] == '-';
    var body := if signed then t[1..] else t;
    if body == "NaN" then Some(NaN)
    else if body == "Infinity" then Some(Infinity(negative))
    else
      match ParseUnsignedDecimal(body)
      case None => None
      case Some(v) =>
        assert exists i :: 0 <= i < |t| && IsDigit(t[i]) by {
          var i :| 0 <= i < |body| && IsDigit(body[i]);
          assert body[i] == t[if signed then i + 1 else i];
        }
        Some(Finite(if negative then -v else v))
  }

  /** Text that starts and ends with a digit is read by the unsigned decimal grammar alone. */
  lemma ParseDigitText(s: string)
    requires s != [] && IsDigit(s[0]) && IsDigit(s[|s| - 1])
    ensures ParseDouble(s) == match ParseUnsignedDecimal(s) case None => None case Some(v) => Some(Finite(v))
  {
    assert TrimStart(s) == s && TrimEnd(s) == s;
    assert s != "NaN" && s != "Infinity" by { assert "NaN"[0] == 'N' && "Infinity"[0] == 'I'; }
  }

  /** The empty value text, which the pattern's `[^"]*` admits, is not a number. */
  lemma EmptyIsNotANumber()
    ensures ParseDouble("") == None
  {
    assert TrimStart("") == "" && TrimEnd("") == "";
  }

  /** A digit string is read as the natural number it denotes. */
  lemma ParseDigits(n: nat, width: nat)
    requires 0 < width && n < Pow10(width)
    ensures ParseDouble(PadDigits(n, width)) == Some(Finite(n as real))
  {
    var s := PadDigits(n, width);
    ParseDigitText(s);
    UnsignedDigits(s);
    assert DigitsValue(s) == n && Pow10(0) == 1;
  }

  lemma UnsignedDigits(s: string)
    requires s != [] && AllDigits(s)
    ensures ParseUnsignedDecimal(s) == Some(DecimalValue(s, 0))
  {
    DigitRunToEnd(s, 0);
    assert DigitRun(s, 0) == |s|;
    assert s[..|s|] + [] == s;
    assert ParseExponent(s, |s|) == Some((0, |s|));
    assert ScaleMantissa(s, s, 0, |s|) == Some(DecimalValue(s, 0));
  }

  /** The number `whole.frac` where `frac` is written with `digits` digits. */
  function FixedPoint(whole: nat, frac: nat, digits: nat): real {
    whole as real + frac as real / Pow10(digits) as real
  }

  /** Digits, a point and digits are read as the whole part plus the fraction digits over the power of ten they span. */
  lemma ParseFixedPoint(a: string, f: string)
    requires a != [] && AllDigits(a) && f != [] && AllDigits(f)
    ensures ParseDouble(a + "." + f) == Some(Finite(FixedPoint(DigitsValue(a), DigitsValue(f), |f|)))
  {
    var s := a + "." + f;
    assert s[0] == a[0] && s[|s| - 1] == f[|f| - 1];
    UnsignedFixedPoint(a, f);
    var v := DecimalValue(a + f, -(|f| as int));
    ParseDigitText(s);
    assert v == FixedPoint(DigitsValue(a), DigitsValue(f), |f|) by {
      DigitsValueAppend(a, f);
      FixedPointDigitsValue(a + f, DigitsValue(a), DigitsValue(f), |f|);
    }
  }

  lemma FixedPointDigitsValue(digits: string, whole: nat, frac: nat, n: nat)
    requires 0 < n && AllDigits(digits) && DigitsValue(digits) == whole * Pow10(n) + frac
    ensures DecimalValue(digits, -(n as int)) == FixedPoint(whole, frac, n)
  {
    NegativeExponent(digits, n);
    FixedPointOfInts(DigitsValue(digits), whole, Pow10(n), frac);
  }

  lemma NegativeExponent(digits: string, n: nat)
    requires AllDigits(digits)
    ensures DecimalValue(digits, -(n as int)) == DigitsValue(digits) as real / Pow10(n) as real
  {
    ShiftDown(DigitsValue(digits) as real, n);
  }

  /** Shifting by `-n` divides by `10^n`. */
  lemma {:induction false} ShiftDown(x: real, n: nat)
    ensures Shift10(x, -(n as int)) == x / Pow10(n) as real
  {
    if n > 0 {
      ShiftDown(x, n - 1);
      var p := Pow10(n - 1) as real;
      assert Pow10(n) as real == p * 10.0;
      DivideTwice(x, p);
    }
  }

  lemma DivideTwice(x: real, p: real)
    requires p > 0.0
    ensures x / p / 10.0 == x / (p * 10.0)
  {
  }

  lemma FixedPointOfInts(x: int, w: int, p: int, f: int)
    requires p > 0 && x == w * p + f
    ensures x as real / p as real == w as real + f as real / p as real
  {
    SumAsReal(x, w, p, f);
    FixedPointValue(x as real / p as real, x as real, w as real, f as real, p as real);
  }

  lemma SumAsReal(x: int, a: int, b: int, c: int)
    requires x == a * b + c
    ensures x as real == a as real * b as real + c as real
  {
  }

  lemma UnsignedFixedPoint(a: string, f: string)
    requires a != [] && AllDigits(a) && f != [] && AllDigits(f)
    ensures AllDigits(a + f)
    ensures ParseUnsignedDecimal(a + "." + f) == Some(DecimalValue(a + f, -(|f| as int)))
  {
    DigitsValueAppend(a, f);
    var s := a + "." + f;
    assert s[..|a|] == a && s[|a| + 1..] == f && s[|a|] == '.';
    assert DigitRun(s, 0) == |a| by { DigitRunPrefix(a, "." + f, 0); assert s == a + ("." + f); }
    DigitRunToEnd(s, |a| + 1);
    PointedDecimal(s, |a|);
  }

  /** Digits, a point and digits up to the end read as the digits together, shifted by the fraction's length. */
  lemma PointedDecimal(b: string, j: nat)
    requires 0 < j && j + 1 < |b| && b[j] == '.'
    requires DigitRun(b, 0) == j && DigitRun(b, j + 1) == |b|
    ensures AllDigits(b[..j] + b[j + 1..])
    ensures ParseUnsignedDecimal(b) == Some(DecimalValue(b[..j] + b[j + 1..], -((|b| - j - 1) as int)))
  {
    assert b[..j] == b[0..j] && b[j + 1..] == b[j + 1..|b|];
    DigitsValueAppend(b[..j], b[j + 1..]);
    assert ParseExponent(b, |b|) == Some((0, |b|));
  }

  lemma FixedPointValue(d: real, v: real, w: real, f: real, p: real)
    requires p > 0.0 && d == v / p && v == w * p + f
    ensures d == w + f / p
  {
  }

  lemma {:induction false} DigitRunToEnd(s: string, i: nat)
    requires i <= |s| && AllDigits(s[i..])
    ensures DigitRun(s, i) == |s|
    decreases |s| - i
  {
    if i < |s| {
      assert IsDigit(s[i..][0]);
      assert s[i + 1..] == s[i..][1..];
      DigitRunToEnd(s, i + 1);
    }
  }

  lemma {:induction false} DigitRunPrefix(a: string, rest: string, i: nat)
    requires i <= |a| && AllDigits(a[i..]) && (rest != [] ==> !IsDigit(rest[0]))
    ensures DigitRun(a + rest, i) == |a|
    decreases |a| - i
  {
    var s := a + rest;
    if i < |a| {
      assert s[i] == a[i..][0];
      assert a[i + 1..] == a[i..][1..];
      DigitRunPrefix(a, rest, i + 1);
    } else if rest != [] {
      assert s[i] == rest[0];
    }
  }

  /** `BigDecimal.valueOf(double)`: a NaN or an infinity has no decimal value. */
  function ToDecimal(v: DoubleValue): (r: Result<real>)
    ensures r.Ok? <==> v.Finite?
    ensures r.Ok? ==> r.value == v.value
    ensures r.Err? ==> r.error == NotFinite
  {
    if v.Finite? then Ok(v.value) else Err(NotFinite)
  }

  /** `n` is `x` rounded HALF_UP: the nearest integer, and a tie goes away from zero. */
  predicate RoundsHalfUpTo(x: real, n: int) {
    (x >= 0.0 ==> n as real - 0.5 <= x < n as real + 0.5) && (x < 0.0 ==> n as real - 0.5 < x <= n as real + 0.5)
  }

  /** HALF_UP rounding to an integer. */
  function RoundHalfUp(x: real): (n: int)
    ensures RoundsHalfUpTo(x, n)
  {
    if x >= 0.0 then (x + 0.5).Floor else -((-x + 0.5).Floor)
  }

  /** HALF_UP is a function: only one integer satisfies its bounds. */
  lemma RoundHalfUpUnique(x: real, n: int)
    requires RoundsHalfUpTo(x, n)
    ensures n == RoundHalfUp(x)
  {
  }

  /** The number of fraction digits of every growth factor. */
  const GrowthScale: nat := 6

  /**
   * `dividend.divide(divisor, 6, RoundingMode.HALF_UP)`: the exact quotient rounded HALF_UP to
   * six fraction digits, returned as a count of millionths. A zero divisor is an `ArithmeticException`.
   */
  function DivideHalfUp(dividend: real, divisor: real): (r: Result<int>)
    ensures r.Err? <==> divisor == 0.0
    ensures r.Err? ==> r.error == DivisionByZero
    ensures r.Ok? ==> RoundsHalfUpTo(dividend / divisor * Pow10(GrowthScale) as real, r.value)
  {
    if divisor == 0.0 then Err(DivisionByZero)
    else Ok(RoundHalfUp(dividend / divisor * Pow10(GrowthScale) as real))
  }

  /** Two worked growth factors: 101 / 100 is 1.010000 and 101 / 98 is 1.030612 at six digits. */
  lemma GrowthFactorExamples()
    ensures DivideHalfUp(101.0, 100.0) == Ok(1010000)
    ensures DivideHalfUp(101.0, 98.0) == Ok(1030612)
  {
    assert Pow10(GrowthScale) == 1000000;
    RoundHalfUpUnique(101.0 / 100.0 * 1000000.0, 1010000);
    RoundHalfUpUnique(101.0 / 98.0 * 1000000.0, 1030612);
  }
}
