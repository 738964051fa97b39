/** What the parser's verdict and result mean, and exactly when its overflow test can be trusted. */
module ParserTheorems {
  import opened MachineTypes
  import opened NumericText
  import opened NumericParser

  /** The verdict a caller expects on a well-formed numeral: overflow exactly when out of range. */
  ghost predicate VerdictIsRight(s: PhpString, scale: int, max: int)
    requires WellFormed(Body(s))
  {
    Parse(s, scale, max) == Overflow <==> Magnitude(s, scale) > Bound(s, max)
  }

  lemma BoundIs(s: PhpString, max: int)
    requires 0 <= max <= INT64_MAX
    ensures Bound(s, max) == if SignOf(s) == -1 then max + 1 else max
  {
  }

  /** On a well-formed numeral the outcome is decided by the scaled digit string alone. */
  lemma WellFormedOutcome(s: PhpString, scale: int, max: int)
    requires s != [] && WellFormed(Body(s))
    ensures var body := Body(s);
            Parse(s, scale, max) ==
            if Overflows(ScaledDigits(body, scale), Bound(s, max)) then Overflow
            else Parsed(SignOf(s), -(FractionDigits(body) + Padding(body, scale)), ToUint64(Magnitude(s, scale)))
  {
    var ds, all := Digits(Body(s)), ScaledDigits(Body(s), scale);
    if Overflows(ds, Bound(s, max)) {
      var k :| 0 <= k <= |ds| && ToUint64(Val(ds[..k])) > Bound(s, max);
      assert all[..k] == ds[..k];
    }
  }

  /** While no prefix value reaches 2^64, the wrapping test is the test on true values. */
  lemma NoWrapNoSurprise(ds: PhpString, bound: int)
    requires AllDigits(ds) && Val(ds) < TWO_64
    ensures Overflows(ds, bound) <==> Val(ds) > bound
  {
    forall k | 0 <= k <= |ds| ensures ToUint64(Val(ds[..k])) == Val(ds[..k]) <= Val(ds) {
      PrefixValueAtMost(ds, k);
      FitsUint64(Val(ds[..k]));
    }
    assert ds[..|ds|] == ds;
  }

  /** A numeral in range is accepted with its exact magnitude, however many digits it has. */
  lemma InRangeIsExact(s: PhpString, scale: int, max: int)
    requires s != [] && WellFormed(Body(s))
    requires 0 <= max <= INT64_MAX
    requires Magnitude(s, scale) <= Bound(s, max)
    ensures var body := Body(s);
            Parse(s, scale, max) ==
            Parsed(SignOf(s), -(FractionDigits(body) + Padding(body, scale)), Magnitude(s, scale))
  {
    WellFormedOutcome(s, scale, max);
    NoWrapNoSurprise(ScaledDigits(Body(s), scale), Bound(s, max));
  }

  /** For the 16- and 32-bit bounds one more digit cannot wrap, so the verdict is always right. */
  lemma NarrowVerdictIsRight(s: PhpString, scale: int, max: int)
    requires s != [] && WellFormed(Body(s))
    requires 0 <= max <= INT32_MAX
    ensures VerdictIsRight(s, scale, max)
  {
    WellFormedOutcome(s, scale, max);
    NarrowOverflow(ScaledDigits(Body(s), scale), Bound(s, max));
  }

  lemma {:induction false} NarrowOverflow(ds: PhpString, bound: int)
    requires AllDigits(ds) && 0 <= bound <= INT32_MAX + 1
    ensures Overflows(ds, bound) <==> Val(ds) > bound
  {
    if Val(ds) < TWO_64 {
      NoWrapNoSurprise(ds, bound);
    } else {
      var init := ds[..|ds| - 1];
      NarrowOverflow(init, bound);
      var k :| 0 <= k <= |init| && ToUint64(Val(init[..k])) > bound;
      assert ds[..k] == init[..k];
    }
  }

  /** Below 2^64 nothing wraps, so the verdict is right at every bound, however long the numeral is. */
  lemma UnwrappedVerdictIsRight(s: PhpString, scale: int, max: int)
    requires s != [] && WellFormed(Body(s))
    requires Magnitude(s, scale) < TWO_64
    ensures VerdictIsRight(s, scale, max)
  {
    WellFormedOutcome(s, scale, max);
    NoWrapNoSurprise(ScaledDigits(Body(s), scale), Bound(s, max));
  }

  /** With at most 19 digits, padding included, the 64-bit verdict is right. */
  lemma ShortVerdictIsRight(s: PhpString, scale: int, max: int)
    requires s != [] && WellFormed(Body(s))
    requires 0 <= max <= INT64_MAX
    requires |ScaledDigits(Body(s), scale)| <= 19
    ensures VerdictIsRight(s, scale, max)
  {
    var ds := ScaledDigits(Body(s), scale);
    ValBound(ds);
    Pow10Monotone(|ds|, 19);
    Pow10Nineteen();
    UnwrappedVerdictIsRight(s, scale, max);
  }

  /**
   A magnitude whose digits without the last one are in range is compared only once, after wrapping:
   the verdict is right if and only if nothing wrapped or what is left is still too large.
   */
  lemma OnceComparedVerdict(s: PhpString, scale: int, max: int)
    requires s != [] && WellFormed(Body(s))
    requires 0 <= max <= INT64_MAX
    requires Magnitude(s, scale) <= 10 * Bound(s, max) + 9
    ensures var m := Magnitude(s, scale);
            VerdictIsRight(s, scale, max) <==> m < TWO_64 || m % TWO_64 > Bound(s, max)
  {
    hide Bound;
    var ds, bound := ScaledDigits(Body(s), scale), Bound(s, max);
    WellFormedOutcome(s, scale, max);
    BoundIs(s, max);
    assert ds[..|ds|] == ds;
    forall k | 0 <= k < |ds| ensures ToUint64(Val(ds[..k])) <= bound {
      var init := ds[..|ds| - 1];
      assert init[..k] == ds[..k];
      PrefixValueAtMost(init, k);
      FitsUint64(Val(ds[..k]));
    }
  }

  /* ----- The verdict on any numeral ----- */

  /** The value of the digits `ds` written behind the number r. */
  function Behind(r: nat, ds: PhpString): nat
    requires AllDigits(ds)
  {
    r * Pow10(|ds|) + Val(ds)
  }

  /** Behind r, the first k digits of `ds` are the first to take the value above the bound. */
  ghost predicate FirstAbove(r: nat, ds: PhpString, bound: int, k: int)
    requires AllDigits(ds)
  {
    && 0 < k <= |ds| && Behind(r, ds[..k]) > bound
    && forall j :: 0 <= j < k ==> Behind(r, ds[..j]) <= bound
  }

  /**
   The first value above the bound is still above it modulo 2^64; or else what is left of it takes its
   place, and the same holds of the digits that follow.
   */
  ghost predicate Detected(r: nat, ds: PhpString, bound: int)
    requires AllDigits(ds)
    decreases |ds|
  {
    exists k :: FirstAbove(r, ds, bound, k) &&
      var left := Behind(r, ds[..k]) % TWO_64;
      left > bound || Detected(left, ds[k..], bound)
  }

  /** The machine's test, for digits read behind r. */
  ghost predicate OverflowsBehind(r: nat, ds: PhpString, bound: int)
    requires AllDigits(ds)
  {
    exists k :: 0 <= k <= |ds| && ToUint64(Behind(r, ds[..k])) > bound
  }

  /** Reading on behind the whole value or behind what is left of it is the same modulo 2^64. */
  lemma BehindResidue(r: nat, ds: PhpString, k: nat, m: nat)
    requires AllDigits(ds) && k <= m <= |ds|
    ensures ToUint64(Behind(r, ds[..m])) == ToUint64(Behind(Behind(r, ds[..k]) % TWO_64, ds[k..][..m - k]))
  {
    hide ToUint64;
    var head, more := ds[..k], ds[k..][..m - k];
    assert ds[..m] == head + more;
    ValConcat(head, more);
    Pow10Add(|head|, |more|);
    var v, p := Behind(r, head), Pow10(|more|);
    SpreadProduct(r, Pow10(|head|), Val(head), p);
    assert Behind(r, ds[..m]) == v * p + Val(more);
    ResidueProduct(v, p, Val(more));
  }

  lemma SpreadProduct(r: int, a: int, b: int, p: int)
    ensures r * (a * p) + b * p == (r * a + b) * p
  {
  }

  lemma ResidueProduct(v: nat, p: nat, x: nat)
    ensures ToUint64(v * p + x) == ToUint64(v % TWO_64 * p + x)
  {
    var q, left := v / TWO_64, v % TWO_64;
    assert v == left + TWO_64 * q;
    MulResidue(left, q, p);
    DropMultiple(left * p + x, q * p);
  }

  lemma MulResidue(left: nat, q: nat, p: nat)
    ensures (left + TWO_64 * q) * p == left * p + TWO_64 * (q * p)
  {
  }

  lemma BehindNothing(r: nat)
    ensures Behind(r, []) == r
  {
  }

  lemma Residue(n: nat)
    ensures ToUint64(n) == n % TWO_64
  {
  }

  lemma {:induction false} LeastAbove(r: nat, ds: PhpString, bound: int, above: nat) returns (k: nat)
    requires AllDigits(ds) && r <= bound && above <= |ds| && Behind(r, ds[..above]) > bound
    ensures FirstAbove(r, ds, bound, k)
    decreases above
  {
    hide Behind;
    BehindNothing(r);
    assert ds[..0] == [];
    if j: nat :| j < above && Behind(r, ds[..j]) > bound {
      k := LeastAbove(r, ds, bound, j);
    } else {
      k := above;
    }
  }

  lemma FirstDecides(r: nat, ds: PhpString, bound: int, k: nat)
    requires AllDigits(ds) && FirstAbove(r, ds, bound, k)
    ensures var left := Behind(r, ds[..k]) % TWO_64;
            Detected(r, ds, bound) <==> left > bound || Detected(left, ds[k..], bound)
  {
    hide Behind;
    forall m | FirstAbove(r, ds, bound, m) ensures m == k {
    }
  }

  lemma LaterOverflows(r: nat, ds: PhpString, bound: int, k: nat)
    requires AllDigits(ds) && bound < TWO_64 && FirstAbove(r, ds, bound, k)
    requires Behind(r, ds[..k]) % TWO_64 <= bound
    ensures OverflowsBehind(r, ds, bound) <==> OverflowsBehind(Behind(r, ds[..k]) % TWO_64, ds[k..], bound)
  {
    hide Behind, ToUint64;
    var left := Behind(r, ds[..k]) % TWO_64;
    if OverflowsBehind(r, ds, bound) {
      var j :| 0 <= j <= |ds| && ToUint64(Behind(r, ds[..j])) > bound;
      if j < k {
        FitsUint64(Behind(r, ds[..j]));
      } else {
        BehindResidue(r, ds, k, j);
        assert ToUint64(Behind(left, ds[k..][..j - k])) > bound;
      }
    }
    if OverflowsBehind(left, ds[k..], bound) {
      var m :| 0 <= m <= |ds[k..]| && ToUint64(Behind(left, ds[k..][..m])) > bound;
      BehindResidue(r, ds, k, k + m);
      assert ToUint64(Behind(r, ds[..k + m])) > bound;
    }
  }

  /** Replacing a value above the bound by its residue, again and again, finds what the machine finds. */
  lemma {:induction false} DetectedExactly(r: nat, ds: PhpString, bound: int)
    requires AllDigits(ds) && r <= bound < TWO_64
    ensures OverflowsBehind(r, ds, bound) <==> Detected(r, ds, bound)
    decreases |ds|
  {
    hide Behind, ToUint64;
    if above: nat :| above <= |ds| && Behind(r, ds[..above]) > bound {
      var k := LeastAbove(r, ds, bound, above);
      var left := Behind(r, ds[..k]) % TWO_64;
      FirstDecides(r, ds, bound, k);
      Residue(Behind(r, ds[..k]));
      if left <= bound {
        DetectedExactly(left, ds[k..], bound);
        LaterOverflows(r, ds, bound, k);
      }
    } else {
      forall k | 0 <= k <= |ds| ensures ToUint64(Behind(r, ds[..k])) <= bound {
        FitsUint64(Behind(r, ds[..k]));
      }
    }
  }

  /**
   On any numeral the verdict is right if and only if it is in range, or its value, taken modulo 2^64 each
   time it passes the bound, is at some time still above the bound.
   */
  lemma VerdictExactly(s: PhpString, scale: int, max: int)
    requires s != [] && WellFormed(Body(s))
    requires 0 <= max <= INT64_MAX
    ensures VerdictIsRight(s, scale, max)
            <==> Magnitude(s, scale) <= Bound(s, max) || Detected(0, ScaledDigits(Body(s), scale), Bound(s, max))
  {
    hide Detected, Bound;
    var ds, bound := ScaledDigits(Body(s), scale), Bound(s, max);
    BoundIs(s, max);
    WellFormedOutcome(s, scale, max);
    if Magnitude(s, scale) <= bound {
      InRangeIsExact(s, scale, max);
    }
    forall k | 0 <= k <= |ds| ensures Behind(0, ds[..k]) == Val(ds[..k]) {
    }
    DetectedExactly(0, ds, bound);
    assert Overflows(ds, bound) <==> OverflowsBehind(0, ds, bound);
  }

  lemma {:induction false} Pow10Monotone(a: nat, b: nat)
    requires a <= b
    ensures Pow10(a) <= Pow10(b)
  {
    if a < b {
      Pow10Monotone(a, b - 1);
    }
  }

  lemma Pow10Nineteen()
    ensures Pow10(19) == 10_000_000_000_000_000_000
    ensures Pow10(18) == 1_000_000_000_000_000_000
  {
    assert Pow10(6) == 1_000_000;
    Pow10Add(6, 6);
    Pow10Add(12, 6);
  }

  /** "2" and nineteen zeros, behind any number of leading zeros. */
  function Escaping(lead: nat): PhpString {
    Zeros(lead) + "2" + Zeros(19)
  }

  /** The numeral whose digits and padding at `scale` are those of `Escaping`. */
  function EscapingAt(lead: nat, scale: int): PhpString
    requires -19 <= scale <= 0
  {
    Zeros(lead) + "2" + Zeros(19 + scale)
  }

  /** The 64-bit test misses 2 * 10^19 at every scale: modulo 2^64 no prefix exceeds the bound. */
  lemma EscapesDetection(lead: nat, scale: int)
    requires -18 <= scale <= -1
    ensures var s := EscapingAt(lead, scale);
            && WellFormed(Body(s)) && s != []
            && |ScaledDigits(Body(s), scale)| == lead + 20
            && Magnitude(s, scale) == 20_000_000_000_000_000_000 > Bound(s, INT64_MAX)
            && Parse(s, scale, INT64_MAX) == Parsed(1, scale, 1_553_255_926_290_448_384)
  {
    hide Val, Overflows, Parse, EscapingAt, Escaping, WellFormed, Digits, FractionDigits, HasPoint;
    EscapingNumeral(lead, scale);
    EscapingNeverOverflows(lead);
    BoundIs(EscapingAt(lead, scale), INT64_MAX);
    WellFormedOutcome(EscapingAt(lead, scale), scale, INT64_MAX);
  }

  lemma EscapingNumeral(lead: nat, scale: int)
    requires -18 <= scale <= -1
    ensures var s := EscapingAt(lead, scale);
            && s != [] && SignOf(s) == 1 && Body(s) == s && WellFormed(s)
            && FractionDigits(s) == 0 && Padding(s, scale) == -scale
            && ScaledDigits(s, scale) == Escaping(lead)
  {
    hide WellFormed, Digits, FractionDigits, HasPoint;
    var s := EscapingAt(lead, scale);
    assert s[0] == if lead == 0 then '2' else '0';
    assert AllDigits(s);
    PlainNumeral(s);
    assert s + Zeros(-scale) == Escaping(lead);
  }

  lemma EscapingNeverOverflows(lead: nat)
    ensures var s := Escaping(lead);
            && AllDigits(s) && |s| == lead + 20
            && Val(s) == 20_000_000_000_000_000_000
            && !Overflows(s, INT64_MAX)
  {
    var s := Escaping(lead);
    assert s[..lead + 20] == s;
    forall k | 0 <= k <= lead + 20
      ensures AllDigits(s[..k]) && ToUint64(Val(s[..k])) <= INT64_MAX
      ensures k == lead + 20 ==> Val(s[..k]) == 20_000_000_000_000_000_000
    {
      Pow10Nineteen();
      if k <= lead {
        assert s[..k] == Zeros(k);
        ValZeros(k);
      } else {
        EscapingPrefix(lead, k - lead - 1);
        if k < lead + 20 {
          Pow10Monotone(k - lead - 1, 18);
        }
      }
    }
  }

  lemma EscapingPrefix(lead: nat, j: nat)
    requires j <= 19
    ensures AllDigits(Escaping(lead)[..lead + 1 + j])
    ensures Val(Escaping(lead)[..lead + 1 + j]) == 2 * Pow10(j)
  {
    var head: PhpString := "2";
    assert Escaping(lead)[..lead + 1 + j] == Zeros(lead) + head + Zeros(j);
    ValZeros(lead);
    ValZeros(j);
    assert head[..0] == [] && Val(head) == 2;
    ValConcat(Zeros(lead), head);
    ValConcat(Zeros(lead) + head, Zeros(j));
  }

  /**
   The digit budget of the 64-bit overflow test at each scale the parser is called for: it is right
   on every numeral of `n` digits (padding included) if and only if `n` is at most 19.
   */
  lemma DigitBudget(scale: int, n: nat)
    requires -18 <= scale <= -1
    ensures (forall s: PhpString ::
               s != [] && WellFormed(Body(s)) && |ScaledDigits(Body(s), scale)| == n
               ==> VerdictIsRight(s, scale, INT64_MAX))
            <==> n <= 19
  {
    if n <= 19 {
      forall s: PhpString | s != [] && WellFormed(Body(s)) && |ScaledDigits(Body(s), scale)| == n
        ensures VerdictIsRight(s, scale, INT64_MAX)
      {
        ShortVerdictIsRight(s, scale, INT64_MAX);
      }
    } else {
      EscapesDetection(n - 20, scale);
      assert !VerdictIsRight(EscapingAt(n - 20, scale), scale, INT64_MAX);
    }
  }

  /** An accepted numeral denotes sign * res * 10^exp, unless its magnitude does not fit 64 bits. */
  lemma ParsedValue(s: PhpString, scale: int, max: int)
    requires WellFormed(Body(s)) && 0 <= max < TWO_64
    requires Parse(s, scale, max).Parsed? && Magnitude(s, scale) < TWO_64
    ensures var Parsed(sign, exp, res) := Parse(s, scale, max);
            && exp <= 0
            && Decimal(s) == Scientific(sign, res, exp)
            && (s != [] && FractionDigits(Body(s)) <= -scale ==> exp == scale)
  {
    hide ToUint64, Ratio, Val, Overflows;
    if s != [] {
      var body, m := Body(s), Magnitude(s, scale);
      WellFormedOutcome(s, scale, max);
      FitsUint64(m);
      var e := FractionDigits(body) + Padding(body, scale);
      assert Parse(s, scale, max) == Parsed(SignOf(s), -e, m);
      ScalingKeepsValue(SignOf(s), body, scale);
      assert Scientific(SignOf(s), m, -e) == Ratio(SignOf(s) * m, e);
    }
  }

  lemma FitsUint64(n: int)
    requires 0 <= n < TWO_64
    ensures ToUint64(n) == n
  {
  }

  /** Padding multiplies numerator and denominator alike. */
  lemma ScalingKeepsValue(sign: int, body: PhpString, scale: int)
    requires WellFormed(body)
    ensures var f, p := FractionDigits(body), Padding(body, scale);
            Ratio(sign * Val(Digits(body)), f) == Ratio(sign * Val(ScaledDigits(body, scale)), f + p)
  {
    var f, p, v := FractionDigits(body), Padding(body, scale), Val(Digits(body));
    ValConcat(Digits(body), Zeros(p));
    ValZeros(p);
    Pow10Add(f, p);
    ExpandFraction(sign, v, Pow10(f), Pow10(p));
  }

  lemma ExpandFraction(sign: int, v: int, b: int, c: int)
    requires b > 0 && c > 0
    ensures b * c > 0
    ensures (sign * v) as real / b as real == (sign * (v * c)) as real / (b * c) as real
  {
    var a := sign * v;
    assert sign * (v * c) == a * c;
    CrossMultiply(a as real, b as real, c as real);
    assert (a * c) as real == a as real * c as real;
    assert (b * c) as real == b as real * c as real;
  }

  lemma CrossMultiply(x: real, y: real, z: real)
    requires y > 0.0 && z > 0.0
    ensures y * z > 0.0
    ensures x / y == (x * z) / (y * z)
  {
    var q := x / y;
    assert x * z == q * (y * z);
  }
}
