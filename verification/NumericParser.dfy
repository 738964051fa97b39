/**
 `fbu_string_to_numeric`: decimal text to a scaled 64-bit magnitude, with its overflow test
 in wrapping `uint64_t` arithmetic.
 */
module NumericParser {
  import opened MachineTypes
  import opened NumericText

  datatype ParseStatus = ParseOk | ParseError | ParseOverflow

  datatype ParseOutcome = Parsed(sign: int, exp: int, res: nat) | Malformed | Overflow

  /* ----- Specification ----- */

  /** The largest magnitude accepted: `max`, or one more for a negative numeral. */
  function Bound(s: PhpString, max: int): int {
    if SignOf(s) == -1 then ToUint64(max + 1) else max
  }

  /** Some prefix of the digits, reduced modulo 2^64, is above the bound. */
  ghost predicate Overflows(ds: PhpString, bound: int)
    requires AllDigits(ds)
  {
    exists k :: 0 <= k <= |ds| && ToUint64(Val(ds[..k])) > bound
  }

  /** The longest well-formed prefix. */
  function GoodPrefix(body: PhpString): (good: PhpString)
    ensures WellFormed(good) && |good| <= |body|
    ensures WellFormed(body) ==> good == body
  {
    if WellFormed(body) then body else GoodPrefix(body[..|body| - 1])
  }

  ghost function Parse(s: PhpString, scale: int, max: int): ParseOutcome {
    var body, bound := Body(s), Bound(s, max);
    var good := GoodPrefix(body);
    if s == [] then Parsed(0, 0, 0)
    else if Overflows(Digits(good), bound) then Overflow
    else if !WellFormed(body) then Malformed
    else if Overflows(ScaledDigits(body, scale), bound) then Overflow
    else Parsed(SignOf(s), -(FractionDigits(body) + Padding(body, scale)), ToUint64(Magnitude(s, scale)))
  }

  ghost predicate Reports(o: ParseOutcome, status: ParseStatus, sign: int, exp: int, res: int) {
    match o
    case Overflow => status == ParseOverflow
    case Malformed => status == ParseError
    case Parsed(s, e, r) => status == ParseOk && sign == s && exp == e && res == r
  }

  /* ----- The parser ----- */

  method StringToNumeric(s: PhpString, scale: int, max: int)
    returns (status: ParseStatus, sign: int, exp: int, res: int)
    requires 0 <= max < TWO_64
    ensures Reports(Parse(s, scale, max), status, sign, exp, res)
  {
    status, sign, exp, res := ParseOk, 0, 0, 0;
    if |s| == 0 {
      return;
    }
    var p := 0;
    if s[p] == '-' {
      sign := -1;
      p := p + 1;
    } else if s[p] == '+' {
      sign := 1;
      p := p + 1;
    } else {
      sign := 1;
    }
    var max := if sign == -1 then ToUint64(max + 1) else max;

    var rest;
    status, rest, exp, res := ReadDigits(s[p..], scale, max);
    if status != ParseOk {
      return;
    }
    status, exp, res := PadZeros(s[p..], scale, rest, exp, res, max);
  }

  /** The first loop, over the characters after the sign. */
  method ReadDigits(body: PhpString, scale0: int, max: int)
    returns (status: ParseStatus, scale: int, exp: int, res: int)
    requires 0 <= max
    ensures match status
            case ParseOverflow => Overflows(Digits(GoodPrefix(body)), max)
            case ParseError => !WellFormed(body) && !Overflows(Digits(GoodPrefix(body)), max)
            case ParseOk => ReadSoFar(body, scale0, HasPoint(body), scale, exp) && Tracks(Digits(body), max, res)
  {
    hide ToUint64, Overflows, GoodPrefix, Val, Digits;
    scale, exp, res := scale0, 0, 0;
    var p, fraction := 0, false;
    NothingRead(max);
    assert body[..0] == [];
    while p < |body|
      invariant p <= |body|
      invariant ReadSoFar(body[..p], scale0, fraction, scale, exp)
      invariant Tracks(Digits(body[..p]), max, res)
    {
      if '0' <= body[p] <= '9' {
        ExtendByDigit(body, p);
        PushDigit(Digits(body[..p]), body[p], max, res);
        res := ToUint64(res * 10 + DigitOf(body[p]));
        p := p + 1;
        if fraction {
          scale := scale + 1;
          exp := exp - 1;
        }
      } else if body[p] == '.' {
        ReadPoint(body, p, scale0, fraction, scale, exp);
        if fraction {
          return ParseError, scale, exp, res;
        }
        fraction := true;
        p := p + 1;
        continue;
      } else {
        ReadOther(body, p);
        return ParseError, scale, exp, res;
      }
      if res > max {
        OverflowIsFinal(body, p, max);
        return ParseOverflow, scale, exp, res;
      }
    }
    assert body[..p] == body;
    status := ParseOk;
  }

  /** The second loop: zeros up to the column's scale. */
  method PadZeros(body: PhpString, ghost scale0: int, rest: int, exp0: int, res0: int, max: int)
    returns (status: ParseStatus, exp: int, res: int)
    requires ReadSoFar(body, scale0, HasPoint(body), rest, exp0) && Tracks(Digits(body), max, res0)
    ensures if Overflows(ScaledDigits(body, scale0), max) then status == ParseOverflow
            else && status == ParseOk
                 && exp == -(FractionDigits(body) + Padding(body, scale0))
                 && res == ToUint64(Val(ScaledDigits(body, scale0)))
  {
    var scale := rest;
    exp, res := exp0, res0;
    ghost var pad := 0;
    assert Digits(body) + Zeros(0) == Digits(body);
    while scale < 0
      invariant Padded(body, scale0, max, pad, scale, exp, res)
      decreases -scale
    {
      AppendZero(body, scale0, max, pad, scale, exp, res);
      res := ToUint64(res * 10);
      if res > max {
        return ParseOverflow, exp, res;
      }
      scale := scale + 1;
      exp := exp - 1;
      pad := pad + 1;
    }
    status := ParseOk;
  }

  /* ----- What the loops keep ----- */

  /** `res` holds the value of `ds` modulo 2^64, and no overflow was seen on the way. */
  ghost predicate Tracks(ds: PhpString, max: int, res: int)
    requires AllDigits(ds)
  {
    res == ToUint64(Val(ds)) && !Overflows(ds, max)
  }

  /** The reading loop's variables after the characters `seen`. */
  ghost predicate ReadSoFar(seen: PhpString, scale0: int, fraction: bool, scale: int, exp: int) {
    && WellFormed(seen)
    && fraction == HasPoint(seen)
    && scale == scale0 + FractionDigits(seen)
    && exp + FractionDigits(seen) == 0
  }

  /** The padding loop's variables after `pad` zeros. */
  ghost predicate Padded(body: PhpString, scale0: int, max: int, pad: nat, scale: int, exp: int, res: int) {
    && WellFormed(body)
    && pad <= Padding(body, scale0)
    && scale == scale0 + FractionDigits(body) + pad
    && exp + FractionDigits(body) + pad == 0
    && Tracks(Digits(body) + Zeros(pad), max, res)
  }

  lemma NothingRead(max: int)
    requires 0 <= max
    ensures Digits([]) == [] && Tracks([], max, 0)
  {
  }

  lemma PushDigit(ds: PhpString, c: Octet, max: int, res: int)
    requires AllDigits(ds) && IsDigit(c) && Tracks(ds, max, res)
    ensures var r := ToUint64(res * 10 + DigitOf(c));
            if r > max then ToUint64(Val(ds + [c])) > max else Tracks(ds + [c], max, r)
  {
    StepDigit(ds, c, res);
    if ToUint64(Val(ds + [c])) <= max {
      StepNoOverflow(ds, c, max);
    }
  }

  lemma ExtendByDigit(body: PhpString, k: nat)
    requires k < |body| && IsDigit(body[k]) && WellFormed(body[..k])
    ensures var seen, next := body[..k], body[..k + 1];
            && WellFormed(next)
            && Digits(next) == Digits(seen) + [body[k]]
            && FractionDigits(next) == FractionDigits(seen) + (if HasPoint(seen) then 1 else 0)
            && (HasPoint(next) <==> HasPoint(seen))
  {
    var next := body[..k + 1];
    assert next == body[..k] + [body[k]];
    assert next[..|next| - 1] == body[..k];
  }

  lemma ReadPoint(body: PhpString, k: nat, scale0: int, fraction: bool, scale: int, exp: int)
    requires k < |body| && body[k] == '.'
    requires ReadSoFar(body[..k], scale0, fraction, scale, exp)
    ensures if fraction then !WellFormed(body) && GoodPrefix(body) == body[..k]
            else ReadSoFar(body[..k + 1], scale0, true, scale, exp) && Digits(body[..k + 1]) == Digits(body[..k])
  {
    var next := body[..k + 1];
    assert next[..|next| - 1] == body[..k];
    if fraction {
      RejectedPrefix(body, k + 1);
    }
  }

  lemma ReadOther(body: PhpString, k: nat)
    requires k < |body| && !IsDigit(body[k]) && body[k] != '.'
    requires WellFormed(body[..k])
    ensures !WellFormed(body) && GoodPrefix(body) == body[..k]
  {
    var next := body[..k + 1];
    assert next[..|next| - 1] == body[..k];
    RejectedPrefix(body, k + 1);
  }

  lemma AppendZero(body: PhpString, scale0: int, max: int, pad: nat, scale: int, exp: int, res: int)
    requires Padded(body, scale0, max, pad, scale, exp, res) && scale < 0
    ensures var r := ToUint64(res * 10);
            if r > max then Overflows(ScaledDigits(body, scale0), max)
            else Padded(body, scale0, max, pad + 1, scale + 1, exp - 1, r)
  {
    var before := Digits(body) + Zeros(pad);
    assert Digits(body) + Zeros(pad + 1) == before + ['0'];
    PushDigit(before, '0', max, res);
    assert ScaledDigits(body, scale0)[..|before| + 1] == before + ['0'];
  }

  /* ----- Lemmas of the loop ----- */

  /** Appending a digit commutes with reduction modulo 2^64. */
  lemma StepDigit(ds: PhpString, c: Octet, res: int)
    requires AllDigits(ds) && IsDigit(c)
    requires res == ToUint64(Val(ds))
    ensures Val(ds + [c]) == Val(ds) * 10 + DigitOf(c)
    ensures ToUint64(res * 10 + DigitOf(c)) == ToUint64(Val(ds + [c]))
  {
    assert (ds + [c])[..|ds + [c]| - 1] == ds;
    var q := Val(ds) / TWO_64;
    assert Val(ds) == res + TWO_64 * q;
    DropMultiple(res * 10 + DigitOf(c), 10 * q);
  }

  lemma DropMultiple(x: int, q: int)
    ensures ToUint64(x + TWO_64 * q) == ToUint64(x)
  {
    var r := x / TWO_64;
    assert x == ToUint64(x) + TWO_64 * r;
    assert x + TWO_64 * q == ToUint64(x) + TWO_64 * (r + q);
  }

  lemma StepNoOverflow(ds: PhpString, c: Octet, bound: int)
    requires AllDigits(ds) && IsDigit(c)
    requires !Overflows(ds, bound)
    requires ToUint64(Val(ds + [c])) <= bound
    ensures !Overflows(ds + [c], bound)
  {
    forall k | 0 <= k <= |ds| + 1 ensures ToUint64(Val((ds + [c])[..k])) <= bound {
      if k <= |ds| {
        assert (ds + [c])[..k] == ds[..k];
      } else {
        assert (ds + [c])[..k] == ds + [c];
      }
    }
  }

  lemma {:induction false} DigitsOfPrefix(body: PhpString, k: nat)
    requires WellFormed(body) && k <= |body| && WellFormed(body[..k])
    ensures Digits(body[..k]) <= Digits(body)
  {
    if k < |body| {
      var init := body[..|body| - 1];
      assert init[..k] == body[..k];
      DigitsOfPrefix(init, k);
    } else {
      assert body[..k] == body;
    }
  }

  lemma {:induction false} GoodPrefixCovers(body: PhpString, k: nat)
    requires k <= |body| && WellFormed(body[..k])
    ensures k <= |GoodPrefix(body)| && GoodPrefix(body) <= body
  {
    assert body[..|body|] == body;
    if !WellFormed(body) {
      assert body[..|body| - 1][..k] == body[..k];
      GoodPrefixCovers(body[..|body| - 1], k);
    }
  }

  /** An overflow among the digits read so far is the outcome, whatever follows. */
  lemma OverflowIsFinal(body: PhpString, k: nat, bound: int)
    requires k <= |body| && WellFormed(body[..k])
    requires ToUint64(Val(Digits(body[..k]))) > bound
    ensures Overflows(Digits(GoodPrefix(body)), bound)
  {
    GoodPrefixCovers(body, k);
    var good := GoodPrefix(body);
    assert good[..k] == body[..k];
    DigitsOfPrefix(good, k);
    var n := |Digits(body[..k])|;
    assert Digits(good)[..n] == Digits(body[..k]);
  }

  /** A character that breaks the numeral ends the longest well-formed prefix just before it. */
  lemma {:induction false} RejectedPrefix(body: PhpString, k: nat)
    requires 0 < k <= |body| && WellFormed(body[..k - 1]) && !WellFormed(body[..k])
    ensures !WellFormed(body) && GoodPrefix(body) == body[..k - 1]
  {
    if WellFormed(body) {
      PrefixWellFormed(body, k);
    }
    var init := body[..|body| - 1];
    if k == |body| {
      assert body[..k] == body && init == body[..k - 1];
    } else {
      assert init[..k] == body[..k] && init[..k - 1] == body[..k - 1];
      RejectedPrefix(init, k);
    }
  }
}
