/** How `var_zval` prints scaled integers, and that the parser reads the text back. */
module ScaledPrinter {
  import opened MachineTypes
  import opened NumericText
  import opened NumericParser
  import opened ParserTheorems

  /** The constant table of divisors. */
  const SCALES: seq<int> := [
    1, 10, 100, 1000, 10000, 100000, 1000000, 10000000, 100000000, 1000000000,
    10000000000, 100000000000, 1000000000000, 10000000000000, 100000000000000,
    1000000000000000, 10000000000000000, 100000000000000000, 1000000000000000000]

  function DigitChar(d: int): (c: Octet)
    requires 0 <= d <= 9
    ensures IsDigit(c) && DigitOf(c) == d
  {
    ('0' as int + d) as char
  }

  /** `%d` of a non-negative number. */
  function DecText(n: nat): (t: PhpString)
    ensures AllDigits(t) && |t| > 0
  {
    if n < 10 then [DigitChar(n)] else DecText(n / 10) + [DigitChar(n % 10)]
  }

  function SignedText(n: int): PhpString {
    if n < 0 then "-" + DecText(-n) else DecText(n)
  }

  /** `%0*d` of a non-negative number. */
  function ZeroPadded(width: nat, n: nat): PhpString {
    var t := DecText(n);
    if |t| < width then Zeros(width - |t|) + t else t
  }

  /** The three sign cases of `var_zval`, for the divisor f = 10^width. */
  function PrintWith(n: int, f: int, width: nat): PhpString
    requires f > 0
  {
    if n >= 0 then SignedText(CDiv(n, f)) + "." + ZeroPadded(width, CRem(n, f))
    else if n <= -f then SignedText(CDiv(n, f)) + "." + ZeroPadded(width, CRem(-n, f))
    else "-0." + ZeroPadded(width, CRem(-n, f))
  }

  /** The smallest 64-bit integer has no negation in C. */
  function PrintScaled(n: Int64, scale: int): PhpString
    requires -18 <= scale <= -1 && n != INT64_MIN
  {
    PrintWith(n, SCALES[-scale], -scale)
  }

  function Numeral(negative: bool, whole: PhpString, fraction: PhpString): PhpString {
    var body := whole + "." + fraction;
    if negative then "-" + body else body
  }

  /** One text per value: no spare zeros in front, exactly `-scale` fraction digits, no minus zero. */
  ghost predicate Canonical(t: PhpString, scale: int)
    requires scale <= 0
  {
    exists negative: bool, whole: PhpString, fraction: PhpString ::
      CanonicalParts(t, scale, negative, whole, fraction)
  }

  ghost predicate CanonicalParts(t: PhpString, scale: int, negative: bool, whole: PhpString, fraction: PhpString)
    requires scale <= 0
  {
    && AllDigits(whole) && AllDigits(fraction)
    && whole != [] && (whole[0] == '0' ==> |whole| == 1)
    && |fraction| == -scale
    && t == Numeral(negative, whole, fraction)
    && (negative ==> Val(whole + fraction) != 0)
  }

  function Abs(n: int): nat {
    if n < 0 then -n else n
  }

  /* ----- Lemmas on digits ----- */

  lemma ScalesArePowers(k: nat)
    requires k <= 18
    ensures SCALES[k] == Pow10(k)
  {
    if k > 0 {
      ScalesArePowers(k - 1);
    }
  }

  lemma {:induction false} DecTextValue(n: nat)
    ensures Val(DecText(n)) == n
    ensures DecText(n)[0] == '0' ==> |DecText(n)| == 1
  {
    if n < 10 {
      assert DecText(n)[..0] == [];
    } else {
      DecTextValue(n / 10);
      assert DecText(n)[..|DecText(n)| - 1] == DecText(n / 10);
      if |DecText(n / 10)| == 1 {
        SingleDigit(DecText(n / 10));
      }
    }
  }

  lemma SingleDigit(t: PhpString)
    requires AllDigits(t) && |t| == 1
    ensures Val(t) > 0 ==> t[0] != '0'
  {
    assert t[..|t| - 1] == [];
    assert Val([]) == 0;
    assert t[0] == '0' ==> DigitOf(t[0]) == 0;
  }

  lemma {:induction false} DecTextWidth(n: nat, w: nat)
    requires n < Pow10(w) && w > 0
    ensures |DecText(n)| <= w
  {
    if n >= 10 {
      DecTextWidth(n / 10, w - 1);
    }
  }

  lemma ZeroPaddedIs(width: nat, n: nat)
    requires width > 0 && n < Pow10(width)
    ensures var t := ZeroPadded(width, n);
            |t| == width && AllDigits(t) && Val(t) == n
  {
    DecTextWidth(n, width);
    DecTextValue(n);
    var z := width - |DecText(n)|;
    ValConcat(Zeros(z), DecText(n));
    ValZeros(z);
  }

  /** A leading nonzero digit makes the value large, so canonical whole parts are determined by value. */
  lemma {:induction false} LeadingDigit(ds: PhpString)
    requires AllDigits(ds) && ds != [] && ds[0] != '0'
    ensures Val(ds) >= Pow10(|ds| - 1)
  {
    if |ds| == 1 {
      assert ds[..0] == [];
    } else {
      LeadingDigit(ds[..|ds| - 1]);
    }
  }

  lemma WholePartUnique(a: PhpString, b: PhpString)
    requires AllDigits(a) && AllDigits(b) && a != [] && b != []
    requires a[0] == '0' ==> |a| == 1
    requires b[0] == '0' ==> |b| == 1
    requires Val(a) == Val(b)
    ensures a == b
  {
    WholePartLength(a, b);
    WholePartLength(b, a);
    ValInjective(a, b);
  }

  lemma WholePartLength(a: PhpString, b: PhpString)
    requires AllDigits(a) && AllDigits(b) && a != [] && b != []
    requires a[0] == '0' ==> |a| == 1
    requires Val(a) == Val(b)
    ensures |a| <= |b|
  {
    hide Pow10, Val;
    if |a| > |b| {
      LeadingDigit(a);
      ValBound(b);
      Pow10Monotone(|b|, |a| - 1);
    }
  }

  lemma {:induction false} MulLe(a: int, b: int, f: nat)
    requires a <= b
    ensures a * f <= b * f
  {
  }

  lemma DivModUnique(q1: int, r1: int, q2: int, r2: int, f: nat)
    requires 0 <= r1 < f && 0 <= r2 < f && q1 * f + r1 == q2 * f + r2
    ensures q1 == q2 && r1 == r2
  {
    if q1 < q2 {
      MulLe(q1 + 1, q2, f);
    } else if q2 < q1 {
      MulLe(q2 + 1, q1, f);
    }
  }

  lemma Divide(m: nat, f: nat) returns (q: nat, r: nat)
    requires f > 0
    ensures r < f && m == q * f + r
  {
    if m < f {
      q, r := 0, m;
    } else {
      q, r := Divide(m - f, f);
      assert (q + 1) * f == q * f + f;
      q := q + 1;
    }
  }

  lemma DivisionOf(m: nat, f: nat, q: nat, r: nat)
    requires r < f && m == q * f + r
    ensures m / f == q && CDiv(m, f) == q && CRem(m, f) == r
    ensures CDiv(0 - m, f) == 0 - q
  {
    assert m == (m / f) * f + m % f;
    DivModUnique(m / f, m % f, q, r, f);
  }

  /* ----- The printed text ----- */

  /** Quotient and remainder of the magnitude. */
  ghost predicate Splits(n: int, scale: int, q: nat, r: nat)
    requires scale <= 0
  {
    r < Pow10(-scale) && Abs(n) == q * Pow10(-scale) + r
  }

  lemma SplitExists(n: int, scale: int) returns (q: nat, r: nat)
    requires scale <= 0
    ensures Splits(n, scale, q, r)
  {
    q, r := Divide(Abs(n), Pow10(-scale));
  }

  /** All three cases print sign, quotient, point and padded remainder of the magnitude. */
  lemma PrintedWith(n: int, f: nat, width: nat, q: nat, r: nat)
    requires r < f && Abs(n) == q * f + r
    ensures PrintWith(n, f, width) == Numeral(n < 0, DecText(q), ZeroPadded(width, r))
  {
    DivisionOf(Abs(n), f, q, r);
    if n >= 0 {
    } else if Abs(n) >= f {
      NonzeroQuotient(Abs(n), f, q, r);
      assert ("-" + DecText(q)) + "." + ZeroPadded(width, r) == Numeral(true, DecText(q), ZeroPadded(width, r));
    } else {
      DivisionOf(Abs(n), f, 0, Abs(n));
      assert DecText(0) == "0";
      assert "-0." + ZeroPadded(width, r) == Numeral(true, DecText(q), ZeroPadded(width, r));
    }
  }

  lemma PrintedText(n: Int64, scale: int, q: nat, r: nat)
    requires -18 <= scale <= -1 && n != INT64_MIN && Splits(n, scale, q, r)
    ensures PrintScaled(n, scale) == Numeral(n < 0, DecText(q), ZeroPadded(-scale, r))
  {
    hide PrintWith, DecText, ZeroPadded;
    ScalesArePowers(-scale);
    PrintedWith(n, Pow10(-scale), -scale, q, r);
  }

  lemma NonzeroQuotient(m: nat, f: nat, q: nat, r: nat)
    requires f <= m == q * f + r && r < f
    ensures q > 0
  {
  }

  lemma PartsValue(n: int, scale: int, q: nat, r: nat)
    requires scale <= -1 && Splits(n, scale, q, r)
    ensures var fraction := ZeroPadded(-scale, r);
            && |fraction| == -scale && AllDigits(fraction) && Val(fraction) == r
            && AllDigits(DecText(q) + fraction)
            && Val(DecText(q)) == q && Val(DecText(q) + fraction) == Abs(n)
  {
    ZeroPaddedIs(-scale, r);
    DecTextValue(q);
    ValConcat(DecText(q), ZeroPadded(-scale, r));
  }

  lemma PrintedParts(n: Int64, scale: int, q: nat, r: nat)
    requires -18 <= scale <= -1 && n != INT64_MIN && Splits(n, scale, q, r)
    ensures CanonicalParts(PrintScaled(n, scale), scale, n < 0, DecText(q), ZeroPadded(-scale, r))
  {
    hide PrintScaled;
    PrintedText(n, scale, q, r);
    PartsValue(n, scale, q, r);
    DecTextValue(q);
  }

  lemma PrintedIsCanonical(n: Int64, scale: int)
    requires -18 <= scale <= -1 && n != INT64_MIN
    ensures Canonical(PrintScaled(n, scale), scale)
  {
    var q, r := SplitExists(n, scale);
    PrintedParts(n, scale, q, r);
  }

  /** Sign and magnitude of a canonical text. */
  lemma CanonicalMeaning(t: PhpString, scale: int, negative: bool, whole: PhpString, fraction: PhpString)
    requires scale <= 0 && CanonicalParts(t, scale, negative, whole, fraction)
    ensures t != [] && SignOf(t) == if negative then -1 else 1
    ensures Body(t) == whole + "." + fraction && WellFormed(Body(t))
    ensures FractionDigits(Body(t)) == -scale && Padding(Body(t), scale) == 0
    ensures Magnitude(t, scale) == Val(whole + fraction)
  {
    hide Val;
    var body := whole + "." + fraction;
    PointedNumeral(whole, fraction);
    if negative {
      assert t[0] == '-' && t[1..] == body;
    } else {
      assert t == body && t[0] == whole[0];
    }
    assert Digits(body) + Zeros(0) == whole + fraction;
  }

  /** Parsing the printed text gives the integer back, with exponent `scale` and no overflow. */
  lemma ParsePrinted(n: Int64, scale: int, max: int)
    requires -18 <= scale <= -1 && n != INT64_MIN
    requires 0 <= max <= INT64_MAX && -max - 1 <= n <= max
    ensures Parse(PrintScaled(n, scale), scale, max) == Parsed(if n < 0 then -1 else 1, scale, Abs(n))
    ensures WellFormed(Body(PrintScaled(n, scale))) && Magnitude(PrintScaled(n, scale), scale) == Abs(n)
  {
    hide PrintScaled, DecText, ZeroPadded, Parse, Bound, Magnitude, Val, Body;
    var t := PrintScaled(n, scale);
    var q, r := SplitExists(n, scale);
    BoundIs(t, max);
    PrintedParts(n, scale, q, r);
    CanonicalMeaning(t, scale, n < 0, DecText(q), ZeroPadded(-scale, r));
    PartsValue(n, scale, q, r);
    InRangeIsExact(t, scale, max);
  }

  /** The printed text denotes n * 10^scale. */
  lemma PrintedDecimal(n: Int64, scale: int)
    requires -18 <= scale <= -1 && n != INT64_MIN
    ensures WellFormed(Body(PrintScaled(n, scale)))
    ensures Decimal(PrintScaled(n, scale)) == Ratio(n, -scale)
  {
    hide PrintScaled, Parse, Magnitude, Ratio;
    ParsePrinted(n, scale, INT64_MAX);
    ParsedValue(PrintScaled(n, scale), scale, INT64_MAX);
    assert (if n < 0 then -1 else 1) * Abs(n) == n;
  }

  /** The canonical text of a value is the one `var_zval` prints. */
  lemma CanonicalIsPrinted(t: PhpString, scale: int, n: Int64)
    requires -18 <= scale <= -1 && n != INT64_MIN
    requires Canonical(t, scale)
    requires WellFormed(Body(t)) && SignOf(t) * Magnitude(t, scale) == n
    ensures t == PrintScaled(n, scale)
  {
    hide PrintScaled, ZeroPadded, DecText, Val, Pow10;
    var negative: bool, whole: PhpString, fraction: PhpString :| CanonicalParts(t, scale, negative, whole, fraction);
    CanonicalMeaning(t, scale, negative, whole, fraction);
    assert Abs(n) == Val(whole + fraction) && negative == (n < 0);
    ValConcat(whole, fraction);
    ValBound(fraction);
    var q, r := Val(whole), Val(fraction);
    PrintedText(n, scale, q, r);
    PartsValue(n, scale, q, r);
    DecTextValue(q);
    WholePartUnique(whole, DecText(q));
    ValInjective(fraction, ZeroPadded(-scale, r));
  }
}
