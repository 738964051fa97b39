/** Text of NUMERIC and DECIMAL columns: the digit string a numeral denotes and the parser's specification. */
module NumericText {
  import opened MachineTypes

  /* ----- Digit strings ----- */

  predicate IsDigit(c: Octet) {
    '0' <= c <= '9'
  }

  predicate AllDigits(ds: PhpString) {
    forall i :: 0 <= i < |ds| ==> IsDigit(ds[i])
  }

  function DigitOf(c: Octet): (d: int)
    requires IsDigit(c)
    ensures 0 <= d <= 9
  {
    c as int - '0' as int
  }

  /** The number a digit string denotes. */
  function Val(ds: PhpString): nat
    requires AllDigits(ds)
  {
    if |ds| == 0 then 0 else Val(ds[..|ds| - 1]) * 10 + DigitOf(ds[|ds| - 1])
  }

  function Pow10(n: nat): (r: nat)
    ensures r > 0
  {
    if n == 0 then 1 else 10 * Pow10(n - 1)
  }

  function Zeros(n: nat): (z: PhpString)
    ensures |z| == n && AllDigits(z)
    ensures forall i :: 0 <= i < n ==> z[i] == '0'
  {
    seq(n, _ => '0')
  }

  lemma {:induction false} Pow10Add(a: nat, b: nat)
    ensures Pow10(a + b) == Pow10(a) * Pow10(b)
  {
    if a != 0 {
      Pow10Add(a - 1, b);
    }
  }

  lemma Regroup(x: int, p: int)
    ensures x * (10 * p) == x * p * 10
  {
  }

  lemma {:induction false} ValConcat(a: PhpString, b: PhpString)
    requires AllDigits(a) && AllDigits(b)
    ensures AllDigits(a + b)
    ensures Val(a + b) == Val(a) * Pow10(|b|) + Val(b)
  {
    if b == [] {
      assert a + b == a;
    } else {
      var n := |b| - 1;
      assert (a + b)[..|a + b| - 1] == a + b[..n];
      ValConcat(a, b[..n]);
      assert Val(a + b) == Val(a + b[..n]) * 10 + DigitOf(b[n]);
      assert Val(b) == Val(b[..n]) * 10 + DigitOf(b[n]);
      Regroup(Val(a), Pow10(n));
    }
  }

  lemma {:induction false} ValZeros(n: nat)
    ensures Val(Zeros(n)) == 0
  {
    if n != 0 {
      assert Zeros(n)[..n - 1] == Zeros(n - 1);
      ValZeros(n - 1);
    }
  }

  lemma {:induction false} ValBound(ds: PhpString)
    requires AllDigits(ds)
    ensures Val(ds) < Pow10(|ds|)
  {
    if ds != [] {
      ValBound(ds[..|ds| - 1]);
    }
  }

  lemma {:induction false} PrefixValueAtMost(ds: PhpString, k: nat)
    requires AllDigits(ds) && k <= |ds|
    ensures Val(ds[..k]) <= Val(ds)
  {
    if k < |ds| {
      PrefixValueAtMost(ds[..|ds| - 1], k);
      assert ds[..|ds| - 1][..k] == ds[..k];
    } else {
      assert ds[..k] == ds;
    }
  }

  /** Equal-length digit strings with the same value are the same string. */
  lemma {:induction false} ValInjective(a: PhpString, b: PhpString)
    requires AllDigits(a) && AllDigits(b)
    requires |a| == |b| && Val(a) == Val(b)
    ensures a == b
  {
    if a != [] {
      var n := |a| - 1;
      ValInjective(a[..n], b[..n]);
      assert a == a[..n] + [a[n]] && b == b[..n] + [b[n]];
    }
  }

  /* ----- Numerals: optional sign, digits, at most one point ----- */

  /** The parser's sign: 0 for the empty string, otherwise -1 or 1. */
  function SignOf(s: PhpString): int {
    if s == [] then 0 else if s[0] == '-' then -1 else 1
  }

  function Body(s: PhpString): PhpString {
    if s != [] && (s[0] == '-' || s[0] == '+') then s[1..] else s
  }

  predicate HasPoint(body: PhpString) {
    body != [] && (body[|body| - 1] == '.' || HasPoint(body[..|body| - 1]))
  }

  predicate WellFormed(body: PhpString) {
    body == []
    || var last := body[|body| - 1];
       var init := body[..|body| - 1];
       WellFormed(init) && (IsDigit(last) || (last == '.' && !HasPoint(init)))
  }

  /** The digits of a well-formed body, the point removed. */
  function Digits(body: PhpString): (ds: PhpString)
    requires WellFormed(body)
    ensures AllDigits(ds)
  {
    if body == [] then []
    else
      var last := body[|body| - 1];
      Digits(body[..|body| - 1]) + if last == '.' then [] else [last]
  }

  /** How many digits stand after the point. */
  function FractionDigits(body: PhpString): nat
    requires WellFormed(body)
  {
    if body == [] then 0
    else
      var init := body[..|body| - 1];
      FractionDigits(init) + if HasPoint(init) then 1 else 0
  }

  /** Zeros the parser must append to reach `scale`. */
  function Padding(body: PhpString, scale: int): nat
    requires WellFormed(body)
  {
    var missing := -(scale + FractionDigits(body));
    if missing > 0 then missing else 0
  }

  /** The digit string whose value the parser computes: the written digits, then the padding. */
  function ScaledDigits(body: PhpString, scale: int): (ds: PhpString)
    requires WellFormed(body)
    ensures AllDigits(ds)
  {
    Digits(body) + Zeros(Padding(body, scale))
  }

  /** The magnitude scaled to an integer, without any machine bound. */
  function Magnitude(s: PhpString, scale: int): nat
    requires WellFormed(Body(s))
  {
    Val(ScaledDigits(Body(s), scale))
  }

  /** a / 10^k */
  function Ratio(a: int, k: nat): real {
    a as real / Pow10(k) as real
  }

  /** The rational number a numeral denotes. */
  function Decimal(s: PhpString): real
    requires WellFormed(Body(s))
  {
    Ratio(SignOf(s) * Val(Digits(Body(s))), FractionDigits(Body(s)))
  }

  /** sign * res * 10^exp for an exponent that is not positive. */
  function Scientific(sign: int, res: nat, exp: int): real
    requires exp <= 0
  {
    Ratio(sign * res, -exp)
  }

  lemma {:induction false} PrefixWellFormed(body: PhpString, k: nat)
    requires WellFormed(body) && k <= |body|
    ensures WellFormed(body[..k])
  {
    if k < |body| {
      PrefixWellFormed(body[..|body| - 1], k);
      assert body[..|body| - 1][..k] == body[..k];
    } else {
      assert body[..k] == body;
    }
  }

  /** Digits and fraction count of a numeral written as whole part, point, fraction. */
  lemma {:induction false} PointedNumeral(whole: PhpString, fraction: PhpString)
    requires AllDigits(whole) && AllDigits(fraction)
    ensures WellFormed(whole + "." + fraction)
    ensures Digits(whole + "." + fraction) == whole + fraction
    ensures FractionDigits(whole + "." + fraction) == |fraction|
    ensures HasPoint(whole + "." + fraction)
  {
    var t := whole + "." + fraction;
    if fraction == [] {
      assert t[..|t| - 1] == whole;
      PlainNumeral(whole);
      assert whole + fraction == whole;
    } else {
      var f := fraction[..|fraction| - 1];
      assert t[..|t| - 1] == whole + "." + f;
      PointedNumeral(whole, f);
      assert whole + fraction == (whole + f) + [fraction[|fraction| - 1]];
    }
  }

  lemma {:induction false} PlainNumeral(whole: PhpString)
    requires AllDigits(whole)
    ensures WellFormed(whole) && Digits(whole) == whole && FractionDigits(whole) == 0
    ensures !HasPoint(whole)
  {
    if whole != [] {
      var init, last := whole[..|whole| - 1], whole[|whole| - 1];
      PlainNumeral(init);
      assert whole == init + [last];
      assert IsDigit(last);
    }
  }
}
