/** The text form of blob identifiers. */
module BlobIdText {
  import opened MachineTypes

  /** ISC_QUAD: a signed high word stored before an unsigned low word. */
  datatype Quad = Quad(high: int, low: int) {
    predicate Valid() {
      -INT32_MAX - 1 <= high <= INT32_MAX && 0 <= low < TWO_32
    }
  }

  /** The quad's eight bytes read as one little-endian integer: the low word is the upper half. */
  function Direct(q: Quad): (r: int)
    requires q.Valid()
    ensures 0 <= r < TWO_64
  {
    q.high % TWO_32 + q.low * TWO_32
  }

  function FromDirect(n: int): (q: Quad)
    requires 0 <= n < TWO_64
    ensures q.Valid()
  {
    Quad(ToInt32(n), n / TWO_32)
  }

  /** The other branch: high word shifted up, low word or-ed in. */
  function Split(q: Quad): (r: int)
    requires q.Valid()
    ensures 0 <= r < TWO_64
  {
    q.high % TWO_32 * TWO_32 + q.low
  }

  function FromSplit(n: int): (q: Quad)
    requires 0 <= n < TWO_64
    ensures q.Valid()
  {
    Quad(ToInt32(n / TWO_32), n % TWO_32)
  }

  /* ----- Hexadecimal ----- */

  function HexChar(d: int): (c: Octet)
    requires 0 <= d < 16
  {
    if d < 10 then ('0' as int + d) as char else ('a' as int + d - 10) as char
  }

  function HexValue(c: Octet): (d: int)
    ensures -1 <= d < 16
  {
    if '0' <= c <= '9' then c as int - '0' as int
    else if 'a' <= c <= 'f' then c as int - 'a' as int + 10
    else if 'A' <= c <= 'F' then c as int - 'A' as int + 10
    else -1
  }

  /** `width` hexadecimal digits of `n`, zero-padded. */
  function Hex(width: nat, n: nat): (t: PhpString)
    ensures |t| == width
    ensures forall i :: 0 <= i < width ==> HexValue(t[i]) >= 0
  {
    if width == 0 then [] else Hex(width - 1, n / 16) + [HexChar(n % 16)]
  }

  /** The longest run of hexadecimal digits at the front. */
  function HexRun(s: PhpString): (k: nat)
    ensures k <= |s|
    ensures forall i :: 0 <= i < k ==> HexValue(s[i]) >= 0
    ensures k < |s| ==> HexValue(s[k]) < 0
  {
    if s == [] || HexValue(s[0]) < 0 then 0 else 1 + HexRun(s[1..])
  }

  function HexNumber(ds: PhpString): nat
    requires forall i :: 0 <= i < |ds| ==> HexValue(ds[i]) >= 0
  {
    if ds == [] then 0 else 16 * HexNumber(ds[..|ds| - 1]) + HexValue(ds[|ds| - 1])
  }

  /** `sscanf` with "0x%llx": the value is capped at the largest 64-bit integer. */
  function Scan(s: PhpString): (r: Option<int>)
    ensures r.Some? ==> 0 <= r.value < TWO_64
  {
    if |s| < 2 || s[0] != '0' || s[1] != 'x' then None
    else
      var k := HexRun(s[2..]);
      if k == 0 then None
      else
        var n := HexNumber(s[2..2 + k]);
        Some(if n < TWO_64 then n else TWO_64 - 1)
  }

  /** `slprintf` with "0x%016llx". */
  function Print(n: int): PhpString
    requires 0 <= n < TWO_64
  {
    "0x" + Hex(16, n)
  }

  function ToText(q: Quad): PhpString
    requires q.Valid()
  {
    Print(Direct(q))
  }

  function ToQuad(s: PhpString): Option<Quad> {
    match Scan(s)
    case None => None
    case Some(n) => Some(FromDirect(n))
  }

  /* ----- Round trips ----- */

  function Pow16(n: nat): (r: nat)
    ensures r > 0
  {
    if n == 0 then 1 else 16 * Pow16(n - 1)
  }

  lemma {:induction false} HexNumberOfHex(width: nat, n: nat)
    requires n < Pow16(width)
    ensures HexNumber(Hex(width, n)) == n
  {
    if width != 0 {
      HexNumberOfHex(width - 1, n / 16);
      assert Hex(width, n)[..width - 1] == Hex(width - 1, n / 16);
    }
  }

  lemma Pow16Of16()
    ensures Pow16(16) == TWO_64
  {
    assert Pow16(4) == 0x1_0000;
    assert Pow16(8) == 0x1_0000 * Pow16(4);
    assert Pow16(12) == 0x1_0000 * Pow16(8);
    assert Pow16(16) == 0x1_0000 * Pow16(12);
  }

  lemma {:induction false} HexRunOf(ds: PhpString, rest: PhpString)
    requires forall i :: 0 <= i < |ds| ==> HexValue(ds[i]) >= 0
    requires rest != [] ==> HexValue(rest[0]) < 0
    ensures HexRun(ds + rest) == |ds|
  {
    if ds == [] {
      assert ds + rest == rest;
    } else {
      assert (ds + rest)[1..] == ds[1..] + rest;
      HexRunOf(ds[1..], rest);
    }
  }

  /** Every 64-bit number prints as 18 characters that scan back to it, whatever follows the digits. */
  lemma ScanPrinted(n: int, rest: PhpString)
    requires 0 <= n < TWO_64
    requires rest != [] ==> HexValue(rest[0]) < 0
    ensures |Print(n)| == 18 && Scan(Print(n) + rest) == Some(n)
  {
    Pow16Of16();
    HexNumberOfHex(16, n);
    HexRunOf(Hex(16, n), rest);
    var s := Print(n) + rest;
    assert s[2..] == Hex(16, n) + rest;
    assert s[2..18] == Hex(16, n);
  }

  /** The hexadecimal digits in both cases, and nothing else. */
  lemma HexDigits(c: Octet, d: nat)
    requires d < 16
    ensures HexValue(c) == d <==> c == "0123456789abcdef"[d] || c == "0123456789ABCDEF"[d]
  {
  }

  /** A text names an identifier exactly if it begins with "0x" and a hexadecimal digit. */
  lemma ScanAccepts(s: PhpString)
    ensures Scan(s).Some? <==> |s| >= 3 && s[0] == '0' && s[1] == 'x' && HexValue(s[2]) >= 0
  {
    assert |s| >= 3 ==> s[2..][0] == s[2];
  }

  /** All digits after "0x" count, up to the largest 64-bit number. */
  lemma ScanReads(ds: PhpString, rest: PhpString)
    requires ds != [] && forall i :: 0 <= i < |ds| ==> HexValue(ds[i]) >= 0
    requires rest != [] ==> HexValue(rest[0]) < 0
    ensures var n := HexNumber(ds);
            Scan("0x" + ds + rest) == Some(if n <= 0xFFFF_FFFF_FFFF_FFFF then n else 0xFFFF_FFFF_FFFF_FFFF)
  {
    hide HexNumber, HexValue, HexRun, Scan;
    HexRunOf(ds, rest);
    var s := "0x" + ds + rest;
    assert s[0] == '0' && s[1] == 'x' && s[2..] == ds + rest;
    assert s[2..2 + |ds|] == ds;
    ScanOfRun(s);
  }

  lemma ScanOfRun(s: PhpString)
    requires |s| >= 2 && s[0] == '0' && s[1] == 'x' && HexRun(s[2..]) > 0
    ensures var n := HexNumber(s[2..2 + HexRun(s[2..])]);
            Scan(s) == Some(if n <= 0xFFFF_FFFF_FFFF_FFFF then n else 0xFFFF_FFFF_FFFF_FFFF)
  {
    hide HexNumber, HexValue, HexRun;
  }

  lemma WordsOfDirect(q: Quad)
    requires q.Valid()
    ensures FromDirect(Direct(q)) == q
  {
    var h := q.high % 0x1_0000_0000;
    assert h + q.low * 0x1_0000_0000 == Direct(q);
    assert Direct(q) / 0x1_0000_0000 == q.low && Direct(q) % 0x1_0000_0000 == h;
  }

  lemma WordsOfSplit(q: Quad)
    requires q.Valid()
    ensures FromSplit(Split(q)) == q
  {
    var h := q.high % 0x1_0000_0000;
    assert h * 0x1_0000_0000 + q.low == Split(q);
    assert Split(q) / 0x1_0000_0000 == h && Split(q) % 0x1_0000_0000 == q.low;
  }

  /** Both branches print an identifier they read back. */
  lemma IdentifierRoundTrip(q: Quad)
    requires q.Valid()
    ensures |ToText(q)| == 18 && ToQuad(ToText(q)) == Some(q)
    ensures var n := Split(q);
            |Print(n)| == 18 && Scan(Print(n)) == Some(n) && FromSplit(n) == q
  {
    var d, n := Direct(q), Split(q);
    assert Print(d) + [] == Print(d) && Print(n) + [] == Print(n);
    ScanPrinted(d, []);
    ScanPrinted(n, []);
    WordsOfDirect(q);
    WordsOfSplit(q);
  }

  /** The branches swap the two words, so their texts agree only on symmetric identifiers. */
  lemma BranchesAgree(q: Quad)
    requires q.Valid()
    ensures ToText(q) == Print(Split(q)) <==> q.high % TWO_32 == q.low
  {
    if ToText(q) == Print(Split(q)) {
      ScanPrinted(Direct(q), []);
      ScanPrinted(Split(q), []);
      assert ToText(q) + [] == ToText(q) && Print(Split(q)) + [] == Print(Split(q));
    }
  }

  /** Equal texts name equal identifiers. */
  lemma TextIsInjective(a: Quad, b: Quad)
    requires a.Valid() && b.Valid() && ToText(a) == ToText(b)
    ensures a == b
  {
    IdentifierRoundTrip(a);
    IdentifierRoundTrip(b);
  }
}
