/** When bind accepts a decimal string for a scaled column, and how it refuses one, said of the string alone. */
module NumeralVerdicts {
  import opened MachineTypes
  import opened NumericText
  import opened NumericParser
  import opened ParserTheorems
  import opened Messages
  import opened ParameterCodec

  /** A numeral without its sign. */
  function Unsigned(s: PhpString): PhpString {
    if s != [] && (s[0] == '-' || s[0] == '+') then s[1..] else s
  }

  /** The largest magnitude of a column's type, one more below zero. */
  function Limit(col: Column, s: PhpString): int
    requires col.IsInteger()
  {
    var max := match col.sqlType
      case SqlShort => 32767
      case SqlLong => 2147483647
      case _ => 9223372036854775807;
    if s != [] && s[0] == '-' then max + 1 else max
  }

  /** The digits of some beginning of the numeral already pass the limit, modulo 2^64. */
  ghost predicate PassesEarly(body: PhpString, limit: int) {
    exists j :: 0 <= j <= |body| && WellFormed(body[..j]) && Val(Digits(body[..j])) % TWO_64 > limit
  }

  /** Some of the zeros up to the scale take a well-formed numeral past the limit, modulo 2^64. */
  ghost predicate PassesPadded(body: PhpString, scale: int, limit: int)
    requires WellFormed(body)
  {
    exists p: nat :: FractionDigits(body) + p <= -scale && Val(Digits(body)) * Pow10(p) % TWO_64 > limit
  }

  /* ----- Well-formed numerals ----- */

  /** Digits alone, or digits around one point. */
  lemma {:induction false} NumeralShape(body: PhpString)
    ensures WellFormed(body) <==>
            || AllDigits(body)
            || exists k :: 0 <= k < |body| && body[k] == '.' && AllDigits(body[..k]) && AllDigits(body[k + 1..])
  {
    if WellFormed(body) {
      ShapeOf(body);
    }
    if AllDigits(body) {
      PlainNumeral(body);
    }
    if k :| 0 <= k < |body| && body[k] == '.' && AllDigits(body[..k]) && AllDigits(body[k + 1..]) {
      PointedNumeral(body[..k], body[k + 1..]);
      assert body == body[..k] + "." + body[k + 1..];
    }
  }

  lemma {:induction false} ShapeOf(body: PhpString)
    requires WellFormed(body)
    ensures !HasPoint(body) ==> AllDigits(body)
    ensures HasPoint(body) ==>
              exists k :: 0 <= k < |body| && body[k] == '.' && AllDigits(body[..k]) && AllDigits(body[k + 1..])
  {
    if body != [] {
      hide Val, FractionDigits, Digits;
      var n := |body| - 1;
      var init := body[..n];
      ShapeOf(init);
      assert body == init + [body[n]];
      if HasPoint(init) {
        var k :| 0 <= k < |init| && init[k] == '.' && AllDigits(init[..k]) && AllDigits(init[k + 1..]);
        assert body[..k] == init[..k] && body[k + 1..] == init[k + 1..] + [body[n]];
      } else if body[n] == '.' {
        assert body[..n] == init && body[n + 1..] == [];
      }
    }
  }

  /** The number a numeral with a point denotes: its digits over a power of ten, under its sign. */
  lemma DecimalOf(s: PhpString, whole: PhpString, fraction: PhpString)
    requires AllDigits(whole) && AllDigits(fraction)
    requires Unsigned(s) == whole + "." + fraction
    ensures Body(s) == Unsigned(s) && WellFormed(Body(s))
    ensures var m := Val(whole + fraction);
            Decimal(s) == (if s[0] == '-' then 0 - m else m) as real / Pow10(|fraction|) as real
  {
    hide Val, Digits, WellFormed, FractionDigits, HasPoint, Pow10;
    PointedNumeral(whole, fraction);
    SignedDecimal(s, Val(whole + fraction), |fraction|);
  }

  lemma SignedDecimal(s: PhpString, m: nat, k: nat)
    requires s != [] && WellFormed(Body(s)) && Val(Digits(Body(s))) == m && FractionDigits(Body(s)) == k
    ensures Decimal(s) == (if s[0] == '-' then 0 - m else m) as real / Pow10(k) as real
  {
    hide Val, Digits, WellFormed, FractionDigits, HasPoint, Pow10;
    assert SignOf(s) * m == if s[0] == '-' then 0 - m else m;
  }

  /* ----- The three outcomes ----- */

  lemma {:induction false} PrefixOfDigits(body: PhpString, k: nat) returns (j: nat)
    requires WellFormed(body) && k <= |Digits(body)|
    ensures j <= |body| && WellFormed(body[..j]) && Digits(body[..j]) == Digits(body)[..k]
  {
    if k == |Digits(body)| {
      j := |body|;
      assert body[..j] == body;
    } else {
      var init := body[..|body| - 1];
      DigitsOfPrefix(body, |body| - 1);
      j := PrefixOfDigits(init, k);
      assert init[..j] == body[..j];
    }
  }

  lemma EarlyIsOverflow(body: PhpString, limit: int)
    ensures PassesEarly(body, limit) <==> Overflows(Digits(GoodPrefix(body)), limit)
  {
    hide WellFormed, Digits, Val;
    var good := GoodPrefix(body);
    GoodPrefixCovers(body, 0) by {
      PlainNumeral([]);
      assert body[..0] == [];
    }
    if Overflows(Digits(good), limit) {
      var k :| 0 <= k <= |Digits(good)| && ToUint64(Val(Digits(good)[..k])) > limit;
      var j := PrefixOfDigits(good, k);
      Residue(Val(Digits(good)[..k]));
      assert good[..j] == body[..j];
    }
    if PassesEarly(body, limit) {
      var j :| 0 <= j <= |body| && WellFormed(body[..j]) && Val(Digits(body[..j])) % TWO_64 > limit;
      Residue(Val(Digits(body[..j])));
      OverflowIsFinal(body, j, limit);
    }
  }

  lemma PaddedIsOverflow(body: PhpString, scale: int, limit: int)
    requires WellFormed(body)
    ensures Overflows(ScaledDigits(body, scale), limit)
            <==> Overflows(Digits(body), limit) || PassesPadded(body, scale, limit)
  {
    hide Val, WellFormed, Digits, FractionDigits, Pow10;
    var ds, all := Digits(body), ScaledDigits(body, scale);
    forall p: nat | p <= Padding(body, scale)
      ensures all[..|ds| + p] == ds + Zeros(p)
      ensures ToUint64(Val(all[..|ds| + p])) == Val(ds) * Pow10(p) % TWO_64
    {
      assert all[..|ds| + p] == ds + Zeros(p);
      ValConcat(ds, Zeros(p));
      ValZeros(p);
      Residue(Val(ds) * Pow10(p));
    }
    if Overflows(ds, limit) {
      var k :| 0 <= k <= |ds| && ToUint64(Val(ds[..k])) > limit;
      assert all[..k] == ds[..k];
    }
    if PassesPadded(body, scale, limit) {
      var p: nat :| FractionDigits(body) + p <= -scale && Val(ds) * Pow10(p) % TWO_64 > limit;
      assert ToUint64(Val(all[..|ds| + p])) > limit;
    }
    if Overflows(all, limit) {
      var k :| 0 <= k <= |all| && ToUint64(Val(all[..k])) > limit;
      if k <= |ds| {
        assert all[..k] == ds[..k];
      } else {
        var p := k - |ds|;
        assert Val(ds) * Pow10(p) % TWO_64 > limit;
      }
    }
  }

  /**
   What bind does with a decimal string for a scaled column. It is refused for its form exactly if it is
   not a numeral and no beginning of it passes the limit, refused for its range exactly if a beginning or
   the padded numeral passes the limit, and accepted otherwise.
   */
  lemma DecimalVerdict(col: Column, s: PhpString)
    requires col.IsInteger() && col.scale != 0
    ensures var body, limit := Unsigned(s), Limit(col, s);
            var r := StoredInteger(col, PString(s));
            var early := PassesEarly(body, limit);
            && (r == Err(ParseFailed) <==> !WellFormed(body) && !early)
            && (r == Err(OutOfRange) <==> early || (WellFormed(body) && PassesPadded(body, col.scale, limit)))
            && (r.Ok? <==> WellFormed(body) && !early && !PassesPadded(body, col.scale, limit))
  {
    hide Overflows, PassesEarly, PassesPadded, Val, Signify;
    var body, limit := Unsigned(s), Limit(col, s);
    EarlyIsOverflow(body, limit);
    if s == [] {
      EmptyPasses(col.scale, limit);
    } else {
      BoundIs(s, MaxOf(col));
      assert body == Body(s) && limit == Bound(s, MaxOf(col));
      if WellFormed(body) {
        PaddedIsOverflow(body, col.scale, limit);
      }
    }
  }

  lemma EmptyPasses(scale: int, limit: int)
    requires limit >= 0
    ensures WellFormed([]) && !PassesEarly([], limit) && !PassesPadded([], scale, limit)
  {
    forall j | 0 <= j <= 0 ensures Val(Digits([][..j])) == 0 {
    }
  }

  /** Whatever is accepted is a numeral. */
  lemma OnlyNumeralsAccepted(col: Column, s: PhpString)
    requires col.IsInteger() && col.scale != 0 && StoredInteger(col, PString(s)).Ok?
    ensures WellFormed(Unsigned(s))
  {
    DecimalVerdict(col, s);
  }

  /** In 16- and 32-bit columns a beginning passes the limit in true value or not at all. */
  lemma NarrowPasses(body: PhpString, limit: int)
    requires 0 <= limit <= INT32_MAX + 1
    ensures PassesEarly(body, limit)
            <==> exists j :: 0 <= j <= |body| && WellFormed(body[..j]) && Val(Digits(body[..j])) > limit
  {
    hide WellFormed, Digits, Val;
    if j :| 0 <= j <= |body| && WellFormed(body[..j]) && Val(Digits(body[..j])) > limit {
      NarrowOverflow(Digits(body[..j]), limit);
      var ds := Digits(body[..j]);
      var k :| 0 <= k <= |ds| && ToUint64(Val(ds[..k])) > limit;
      var i := PrefixOfDigits(body[..j], k);
      assert body[..j][..i] == body[..i];
      Residue(Val(ds[..k]));
      assert Val(Digits(body[..i])) % TWO_64 > limit;
    }
    if PassesEarly(body, limit) {
      var j :| 0 <= j <= |body| && WellFormed(body[..j]) && Val(Digits(body[..j])) % TWO_64 > limit;
      assert Val(Digits(body[..j])) > limit;
    }
  }
}
