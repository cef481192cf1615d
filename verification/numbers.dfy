/** Numeric text and rounding: the part of Python's `float()` and `Decimal()`
    constructors the pipeline exercises, over exact `real`s, and the two
    rounding rules it uses. */
module Numbers {
  import opened Wrappers
  import opened Text

  function Pow10(n: nat): (p: nat)
    ensures p >= 1
  {
    if n == 0 then 1 else 10 * Pow10(n - 1)
  }

  /** A number below `10 ** k` has at most `k` decimal digits. */
  lemma {:induction false} NatToStringShort(n: nat, k: nat)
    requires 0 < k && n < Pow10(k)
    ensures |NatToString(n)| <= k
    decreases n
  {
    if n >= 10 {
      NatToStringShort(n / 10, k - 1);
    }
  }

  /** `10 ** e` as an exact rational, for any integer exponent. */
  function Scale(e: int): (r: real)
    ensures r > 0.0
  {
    if e >= 0 then Pow10(e) as real else 1.0 / Pow10(-e) as real
  }

  /** The value of the numeral `whole.frac`. */
  function DecimalValue(whole: string, frac: string): (v: real)
    requires AllDigits(whole) && AllDigits(frac)
    ensures v >= 0.0
  {
    DigitsValue(whole) as real + DigitsValue(frac) as real / Pow10(|frac|) as real
  }

  /** A mantissa `digits[.digits]` with at least one digit in all. */
  function ParseMantissa(s: string): (r: Option<real>)
    ensures r.Some? ==> r.value >= 0.0
  {
    var p := IndexOf(s, '.');
    var whole := s[..p];
    var frac := if p < |s| then s[p + 1..] else "";
    if AllDigits(whole) && AllDigits(frac) && |whole| + |frac| > 0 then
      Some(DecimalValue(whole, frac))
    else None
  }

  /** An exponent `[+|-]digits`, as it follows `e` or `E`. */
  function ParseExponent(s: string): Option<int> {
    var signed := |s| > 0 && (s[0] == '+' || s[0] == '-');
    var ds := if signed then s[1..] else s;
    if |ds| > 0 && AllDigits(ds) then
      var v: int := DigitsValue(ds);
      Some(if signed && s[0] == '-' then -v else v)
    else None
  }

  /** Where the exponent marker `e` or `E` first occurs, or `|s|`. */
  function ExponentAt(s: string): (e: nat)
    ensures e <= |s|
  {
    var i := IndexOf(s, 'e');
    var j := IndexOf(s, 'E');
    if i < j then i else j
  }

  /** `ExponentAt` finds the first exponent marker. */
  lemma ExponentAtSpec(s: string)
    ensures var e := ExponentAt(s);
      (e < |s| ==> s[e] == 'e' || s[e] == 'E') && 'e' !in s[..e] && 'E' !in s[..e]
  {
    var i := IndexOf(s, 'e');
    var j := IndexOf(s, 'E');
    IndexOfSpec(s, 'e');
    IndexOfSpec(s, 'E');
    if i < j {
      assert s[..i] == s[..j][..i];
    } else {
      assert s[..j] == s[..i][..j];
    }
  }

  lemma NonnegProduct(a: real, b: real)
    requires a >= 0.0 && b > 0.0
    ensures a * b >= 0.0
  {
  }

  /** A number without sign: mantissa, optionally followed by `e`/`E` and an exponent. */
  function ParseUnsigned(s: string): (r: Option<real>)
    ensures r.Some? ==> r.value >= 0.0
  {
    var e := ExponentAt(s);
    var mantissa := ParseMantissa(s[..e]);
    if mantissa.None? then None
    else if e == |s| then mantissa
    else
      match ParseExponent(s[e + 1..])
      case None => None
      case Some(x) =>
        var m := mantissa.value;
        var k := Scale(x);
        NonnegProduct(m, k);
        Some(m * k)
  }

  /** Python's `float(text)` and `Decimal(text)` on finite decimal and scientific
      notation: surrounding whitespace is ignored, a sign may lead, the mantissa
      needs at least one digit. `None` stands for the `ValueError` /
      `InvalidOperation` the constructors raise. */
  function ParseNumber(text: string): (r: Option<real>)
    ensures Strip(text) == [] ==> r == None
  {
    var s := Strip(text);
    if |s| > 0 && (s[0] == '+' || s[0] == '-') then
      match ParseUnsigned(s[1..])
      case None => None
      case Some(v) => Some(if s[0] == '-' then -v else v)
    else ParseUnsigned(s)
  }

  lemma DigitsHaveNo(s: string, c: char)
    requires AllDigits(s) && !IsDigit(c)
    ensures IndexOf(s, c) == |s|
  {
  }

  lemma MantissaOfDigits(s: string)
    requires AllDigits(s) && |s| > 0
    ensures ParseMantissa(s) == Some(DigitsValue(s) as real)
  {
    DigitsHaveNo(s, '.');
    assert s[..|s|] == s;
    assert DecimalValue(s, "") == DigitsValue(s) as real;
  }

  /** Reading back Python's `str(n)` gives `n`: `str` and `float` are inverse on naturals. */
  lemma ParseNatToString(n: nat)
    ensures ParseNumber(NatToString(n)) == Some(n as real)
  {
    var s := NatToString(n);
    NoExponent(s);
    ParsePlainMantissa(s);
    MantissaOfDigits(s);
  }

  lemma NoExponent(s: string)
    requires forall i :: 0 <= i < |s| ==> IsDigit(s[i]) || s[i] == '.'
    ensures ExponentAt(s) == |s|
  {
    IndexOfAbsent(s, 'e');
    IndexOfAbsent(s, 'E');
  }

  /** Without surrounding whitespace or a sign, `float()` reads the text as an unsigned number. */
  lemma ParseUnsignedText(s: string)
    requires |s| > 0 && IsDigit(s[0]) && !IsSpace(s[|s| - 1])
    ensures ParseNumber(s) == ParseUnsigned(s)
  {
    StripFixpoint(s);
  }

  lemma ParseWithoutExponent(s: string)
    requires ExponentAt(s) == |s|
    ensures ParseUnsigned(s) == ParseMantissa(s)
  {
    assert s[..|s|] == s;
  }

  /** A text that starts with a digit and has no exponent marker is read as a bare mantissa. */
  lemma ParsePlainMantissa(s: string)
    requires |s| > 0 && IsDigit(s[0]) && !IsSpace(s[|s| - 1])
    requires ExponentAt(s) == |s|
    ensures ParseNumber(s) == ParseMantissa(s)
  {
    ParseUnsignedText(s);
    ParseWithoutExponent(s);
  }

  lemma MantissaOfDecimal(whole: string, frac: string)
    requires AllDigits(whole) && AllDigits(frac) && |whole| > 0
    ensures ParseMantissa(whole + "." + frac)
         == Some(DecimalValue(whole, frac))
  {
    var s := whole + "." + frac;
    DigitsHaveNo(whole, '.');
    IndexOfAfter(whole, frac, '.');
    assert s[..|whole|] == whole;
    assert s[|whole| + 1..] == frac;
  }

  /** A decimal numeral `whole.frac` with digit strings on both sides denotes
      `whole + frac / 10^|frac|`. */
  lemma ParseDecimal(whole: string, frac: string)
    requires AllDigits(whole) && AllDigits(frac) && |whole| > 0
    ensures ParseNumber(whole + "." + frac)
         == Some(DecimalValue(whole, frac))
  {
    var s := whole + "." + frac;
    assert s[0] == whole[0];
    assert |frac| > 0 ==> s[|s| - 1] == frac[|frac| - 1];
    NoExponent(s);
    ParsePlainMantissa(s);
    MantissaOfDecimal(whole, frac);
  }

  // ---------------------------------------------------------------------------
  // Rounding
  // ---------------------------------------------------------------------------

  /** `Decimal.to_integral_value(rounding=ROUND_HALF_UP)`: the nearest integer,
      ties away from zero. */
  function RoundHalfUp(x: real): (r: int)
    ensures x >= 0.0 ==> x - 0.5 < r as real <= x + 0.5
    ensures x < 0.0 ==> x - 0.5 <= r as real < x + 0.5
  {
    if x >= 0.0 then (x + 0.5).Floor else -((-x + 0.5).Floor)
  }

  /** Python's `round(x, 2)` in hundredths: the nearest integer to `100 * x`,
      ties to the even neighbour. */
  function RoundCents(x: real): (k: int)
    ensures -0.5 <= k as real - 100.0 * x <= 0.5
    ensures k as real - 100.0 * x == 0.5 || k as real - 100.0 * x == -0.5 ==> k % 2 == 0
  {
    var y := 100.0 * x;
    var f := y.Floor;
    var d := y - f as real;
    if d < 0.5 then f
    else if d > 0.5 then f + 1
    else if f % 2 == 0 then f
    else f + 1
  }

  /** Python's `round(x, 2)` on an exact value: the nearest multiple of 0.01. */
  function Round2(x: real): (r: real)
    ensures -0.005 <= r - x <= 0.005
    ensures (100.0 * r).Floor as real == 100.0 * r
  {
    RoundCents(x) as real / 100.0
  }
}
