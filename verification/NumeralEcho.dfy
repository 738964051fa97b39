/** Exactly which decimal strings keep their value through a scaled integer column. */
module NumeralEcho {
  import opened MachineTypes
  import opened NumericText
  import opened NumericParser
  import opened ParserTheorems
  import opened ScaledPrinter
  import opened Messages
  import opened ParameterCodec
  import opened CodecTheorems

  /** The numeral fits the column: in range, not the one integer C cannot negate, and no digit lost. */
  predicate KeepsValue(col: Column, s: PhpString)
    requires col.IsInteger() && WellFormed(Body(s))
  {
    var m := Magnitude(s, col.scale);
    && m <= (if SignOf(s) == -1 then MaxOf(col) + 1 else MaxOf(col))
    && !(SignOf(s) == -1 && m == INT64_MAX + 1)
    && (FractionDigits(Body(s)) <= -col.scale || m == 0)
  }

  /** The decoded text denotes the bound numeral's value. */
  ghost predicate SameValue(v: PhpValue, s: PhpString)
    requires WellFormed(Body(s))
  {
    v.PString? && WellFormed(Body(v.s)) && Decimal(v.s) == Decimal(s)
  }

  /**
   Binding an accepted decimal string to a scaled column and decoding it returns text of the same
   value if and only if `KeepsValue`. The parser's exponent plays no part in what is stored.
   */
  lemma NumeralRoundTrip(col: Column, s: PhpString)
    requires col.IsInteger() && -18 <= col.scale <= -1
    requires WellFormed(Body(s))
    requires StoredInteger(col, PString(s)).Ok?
    ensures SameValue(Echo(col, PString(s), None), s) <==> KeepsValue(col, s)
  {
    if s == [] {
      EmptyNumeral(col);
    } else {
      NumeralRoundTripNonempty(col, s);
    }
  }

  /** The empty string is stored as zero. */
  lemma EmptyNumeral(col: Column)
    requires col.IsInteger() && -18 <= col.scale <= -1
    ensures StoredInteger(col, PString([])) == Ok(0)
    ensures SameValue(Echo(col, PString([]), None), []) && KeepsValue(col, [])
  {
    hide PrintScaled, Ratio, Pow10;
    assert Parse([], col.scale, MaxOf(col)) == Parsed(0, 0, 0);
    EchoText(col, []);
    PrintedDecimal(0, col.scale);
    NumeralValue([], col.scale);
    ValZeros(-col.scale);
    assert ScaledDigits([], col.scale) == Zeros(-col.scale);
  }

  lemma NumeralRoundTripNonempty(col: Column, s: PhpString)
    requires col.IsInteger() && -18 <= col.scale <= -1
    requires s != [] && WellFormed(Body(s))
    requires StoredInteger(col, PString(s)).Ok?
    ensures SameValue(Echo(col, PString(s), None), s) <==> KeepsValue(col, s)
  {
    hide Echo, Converted, PrintScaled, Ratio, Pow10, Magnitude, Signify, ToInt64, ToUint64, Parse, Bound;
    var n := StoredInteger(col, PString(s)).value;
    var m, f, k := Magnitude(s, col.scale), FractionDigits(Body(s)), -col.scale;
    var res := StoredMagnitude(col, s);
    EchoText(col, s);
    NumeralValue(s, col.scale);
    if m < TWO_64 {
      FitsUint64(m);
    }
    SignCancels(SignOf(s), res, m);
    if n != INT64_MIN {
      PrintedDecimal(n, col.scale);
      if f <= k {
        RatioInjective(n, SignOf(s) * m, k);
      } else {
        RatioRescaled(n, SignOf(s) * m, k, f);
        LostDigits(res, m, f - k);
        SignCancels(SignOf(s), res * Pow10(f - k), m);
        assert n * Pow10(f - k) == SignOf(s) * (res * Pow10(f - k));
      }
    }
  }

  /** Without the fraction-digit condition the value is wrong: "1.239" in a NUMERIC(9,2) reads "12.39". */
  lemma TooManyDigits()
    ensures var col, s: PhpString := Column(SqlLong, 4, -2, 0, 4), "1.239";
            && WellFormed(Body(s)) && StoredInteger(col, PString(s)) == Ok(1239)
            && !KeepsValue(col, s) && PrintScaled(1239, -2) == "12.39"
  {
    hide Val, PrintScaled;
    var s: PhpString := "1.239";
    ScaledDigits1239();
    InRangeIsExact(s, -2, INT32_MAX);
    Prints1239();
  }

  lemma ScaledDigits1239()
    ensures var s: PhpString := "1.239";
            && Body(s) == s && WellFormed(s) && FractionDigits(s) == 3
            && Magnitude(s, -2) == 1239
  {
    var whole: PhpString, fraction: PhpString, ds: PhpString := "1", "239", "1239";
    assert "1.239" == whole + "." + fraction && whole + fraction + Zeros(0) == ds;
    PointedNumeral(whole, fraction);
    assert ds[..3][..2] == ds[..2] && ds[..2][..1] == ds[..1] && ds[..1][..0] == [];
    assert Val(ds[..1]) == 1;
    assert Val(ds[..2]) == 12;
    assert Val(ds[..3]) == 123;
  }

  lemma Prints1239()
    ensures PrintScaled(1239, -2) == "12.39"
  {
    assert DecText(12) == "12" && DecText(39) == "39";
    PrintedWith(1239, 100, 2, 12, 39);
  }

  /* ----- The range check of bind ----- */

  /** A decimal string is refused exactly for its range, unless its scaled magnitude reaches 2^64 in a 64-bit column. */
  lemma RangeCheckIsRight(col: Column, s: PhpString)
    requires col.IsInteger() && col.scale != 0
    requires s != [] && WellFormed(Body(s))
    requires col.sqlType.SqlInt64? ==> Magnitude(s, col.scale) < TWO_64
    ensures StoredInteger(col, PString(s)).Ok? <==> Magnitude(s, col.scale) <= Bound(s, MaxOf(col))
  {
    hide Bound, Magnitude, Signify;
    WellFormedOutcome(s, col.scale, MaxOf(col));
    if col.sqlType.SqlInt64? {
      UnwrappedVerdictIsRight(s, col.scale, MaxOf(col));
    } else {
      NarrowVerdictIsRight(s, col.scale, MaxOf(col));
    }
  }

  /** Every 64-bit scaled column accepts 2 * 10^19 and stores something else. */
  lemma OutOfRangeIsStored(col: Column, lead: nat)
    requires col.sqlType.SqlInt64? && -18 <= col.scale <= -1
    ensures var s := EscapingAt(lead, col.scale);
            && WellFormed(Body(s)) && Magnitude(s, col.scale) > Bound(s, MaxOf(col))
            && StoredInteger(col, PString(s)) == Ok(1_553_255_926_290_448_384)
  {
    EscapesDetection(lead, col.scale);
  }

  /* ----- PHP integers ----- */

  /** The number a decoded value denotes. */
  ghost predicate Denotes(v: PhpValue, x: real) {
    match v
    case PLong(n) => x == n as real
    case PString(s) => WellFormed(Body(s)) && x == Decimal(s)
    case _ => false
  }

  /**
   A PHP integer is stored as the scaled integer itself: 5 bound to a column of scale -2 reads "0.05".
   It keeps its value if and only if the column has no fraction digits or the integer is 0.
   */
  lemma IntegerRoundTrip(col: Column, n: Int64)
    requires col.IsInteger() && -18 <= col.scale <= 0
    requires StoredInteger(col, PLong(n)).Ok?
    ensures n != INT64_MIN || col.scale == 0 ==> Denotes(Echo(col, PLong(n), None), Ratio(n, -col.scale))
    ensures Denotes(Echo(col, PLong(n), None), n as real) <==> col.scale == 0 || n == 0
  {
    hide Decimal, PrintScaled;
    if col.scale == 0 {
      assert Pow10(0) == 1;
    } else if n != INT64_MIN {
      PrintedDecimal(n, col.scale);
      RatioRescaled(n, n, 0, -col.scale);
      assert Pow10(0) == 1 && Ratio(n, 0) == n as real;
      assert Pow10(-col.scale) == 10 * Pow10(-col.scale - 1);
      Cancel(n, Pow10(-col.scale));
    }
  }

  lemma Cancel(n: int, p: nat)
    requires p > 1
    ensures n * p == n <==> n == 0
  {
    if n > 0 {
      MulLe(2, p, n);
    } else if n < 0 {
      MulLe(2, p, -n);
    }
  }

  /* ----- Lemmas ----- */

  /** The stored integer is the sign times the magnitude modulo 2^64. */
  lemma StoredMagnitude(col: Column, s: PhpString) returns (res: nat)
    requires col.IsInteger() && s != [] && WellFormed(Body(s)) && col.scale != 0
    requires StoredInteger(col, PString(s)).Ok?
    ensures SignOf(s) * res == StoredInteger(col, PString(s)).value
    ensures res == ToUint64(Magnitude(s, col.scale))
    ensures res <= if SignOf(s) == -1 then MaxOf(col) + 1 else MaxOf(col)
    ensures SignOf(s) == 1 || SignOf(s) == -1
  {
    hide Signify, ToUint64, ToInt64, Val, Bound;
    WellFormedOutcome(s, col.scale, MaxOf(col));
    BoundIs(s, MaxOf(col));
    var ds := ScaledDigits(Body(s), col.scale);
    assert ds[..|ds|] == ds;
    res := ToUint64(Val(ds));
    SignifySmall(SignOf(s), res, Bound(s, MaxOf(col)));
  }

  lemma EchoText(col: Column, s: PhpString)
    requires col.IsInteger() && -18 <= col.scale <= -1
    requires StoredInteger(col, PString(s)).Ok?
    ensures var n := StoredInteger(col, PString(s)).value;
            Echo(col, PString(s), None) == if n == INT64_MIN then PUndefined else PString(PrintScaled(n, col.scale))
  {
  }

  /** The numeral's value over the larger of its own and the column's denominator. */
  lemma NumeralValue(s: PhpString, scale: int)
    requires WellFormed(Body(s)) && scale <= 0
    ensures var f := FractionDigits(Body(s));
            Decimal(s) == Ratio(SignOf(s) * Magnitude(s, scale), if f <= -scale then -scale else f)
  {
    hide Ratio;
    ScalingKeepsValue(SignOf(s), Body(s), scale);
  }

  lemma RatioInjective(a: int, b: int, k: nat)
    ensures Ratio(a, k) == Ratio(b, k) <==> a == b
  {
    var p := Pow10(k) as real;
    assert Ratio(a, k) * p == a as real && Ratio(b, k) * p == b as real;
  }

  lemma RatioRescaled(a: int, b: int, k: nat, j: nat)
    requires k <= j
    ensures Ratio(a, k) == Ratio(b, j) <==> a * Pow10(j - k) == b
  {
    Pow10Add(k, j - k);
    ExpandFraction(1, a, Pow10(k), Pow10(j - k));
    RatioInjective(a * Pow10(j - k), b, j);
  }

  lemma SignCancels(sign: int, a: int, b: int)
    requires sign == 1 || sign == -1
    ensures sign * a == sign * b <==> a == b
  {
  }

  function Pow2(n: nat): (r: nat)
    ensures r > 0
  {
    if n == 0 then 1 else 2 * Pow2(n - 1)
  }

  /** Digits beyond the scale cannot come out right by wrapping: 10^d - 1 is odd. */
  lemma LostDigits(res: nat, m: nat, d: nat)
    requires res == ToUint64(m) && d > 0
    ensures res * Pow10(d) == m <==> m == 0
  {
    if res * Pow10(d) == m {
      var q := m / TWO_64;
      assert m == res + TWO_64 * q;
      assert (Pow10(d) - 1) * res == TWO_64 * q;
      Pow2Of64();
      assert Pow10(d) == 10 * Pow10(d - 1);
      var j := OddCancels(64, Pow10(d) - 1, 5 * Pow10(d - 1) - 1, res, q);
      assert res == TWO_64 * j;
    }
  }

  lemma Pow2Of64()
    ensures Pow2(64) == TWO_64
  {
    assert Pow2(8) == 256;
    assert Pow2(16) == 256 * Pow2(8);
    assert Pow2(24) == 256 * Pow2(16);
    assert Pow2(32) == 256 * Pow2(24);
    assert Pow2(40) == 256 * Pow2(32);
    assert Pow2(48) == 256 * Pow2(40);
    assert Pow2(56) == 256 * Pow2(48);
    assert Pow2(64) == 256 * Pow2(56);
  }

  /** An odd factor a == 2h + 1 cancels from a multiple of 2^k. */
  lemma {:induction false} OddCancels(k: nat, a: int, h: int, b: int, q: int) returns (j: int)
    requires a == 2 * h + 1 && a * b == Pow2(k) * q
    ensures b == Pow2(k) * j
  {
    if k == 0 {
      j := b;
    } else {
      var p := Pow2(k - 1);
      var c := p * q - h * b;
      assert a * b == 2 * (h * b) + b;
      assert Pow2(k) * q == 2 * (p * q);
      assert b == 2 * c;
      assert a * b == 2 * (a * c);
      j := OddCancels(k - 1, a, h, c, q);
      assert 2 * (p * j) == Pow2(k) * j;
    }
  }
}
