/** Little-endian two's-complement integers of any width, as stored in messages and info replies. */
module LittleEndian {
  import opened MachineTypes

  function Pow256(n: nat): (r: nat)
    ensures r > 0
  {
    if n == 0 then 1 else 256 * Pow256(n - 1)
  }

  /** Arithmetic shift right by `i` bytes. */
  function Shift(i: nat, v: int): int {
    if i == 0 then v else Shift(i - 1, v / 256)
  }

  /** The low `width` bytes of `v`, least significant first. */
  function LeBytes(width: nat, v: int): (bs: seq<byte>)
    ensures |bs| == width
  {
    if width == 0 then [] else [v % 256] + LeBytes(width - 1, v / 256)
  }

  /** The bytes read as an unsigned integer. */
  function Unsigned(bs: seq<byte>): (r: nat)
    ensures r < Pow256(|bs|)
  {
    if bs == [] then 0 else bs[0] + 256 * Unsigned(bs[1..])
  }

  /** The bytes read as a two's-complement integer. */
  function Signed(bs: seq<byte>): int {
    var u, p := Unsigned(bs), Pow256(|bs|);
    if 2 * u < p then u else u - p
  }

  lemma {:induction false} UnsignedOfBytes(width: nat, v: int)
    ensures v == Unsigned(LeBytes(width, v)) + Pow256(width) * Shift(width, v)
  {
    if width != 0 {
      UnsignedOfBytes(width - 1, v / 256);
      assert LeBytes(width, v)[1..] == LeBytes(width - 1, v / 256);
      var p, s := Pow256(width - 1), Shift(width, v);
      assert 256 * (p * s) == Pow256(width) * s;
    }
  }

  lemma SignedRoundTrip(width: nat, v: int)
    requires width > 0 && 0 <= 2 * v + Pow256(width) < 2 * Pow256(width)
    ensures Signed(LeBytes(width, v)) == v
  {
    UnsignedOfBytes(width, v);
    SmallMultiple(Pow256(width), Shift(width, v));
  }

  lemma UnsignedRoundTrip(width: nat, v: int)
    requires 0 <= v < Pow256(width)
    ensures Unsigned(LeBytes(width, v)) == v
  {
    UnsignedOfBytes(width, v);
    SmallMultiple(Pow256(width), Shift(width, v));
  }

  lemma SmallMultiple(p: nat, k: int)
    ensures k > 0 ==> p * k >= p
    ensures k < 0 ==> p * k <= 0 - p
    ensures k < -1 ==> p * k <= 0 - 2 * p
  {
    if k > 0 {
      assert p * k == p + p * (k - 1);
    } else if k < -1 {
      assert p * k == p * (k + 2) - 2 * p;
    }
  }

  lemma Widths()
    ensures Pow256(1) == 0x100 && Pow256(2) == 0x1_0000
    ensures Pow256(4) == TWO_32 && Pow256(8) == TWO_64
  {
    assert Pow256(3) == 0x100_0000;
    assert Pow256(5) == 0x100 * Pow256(4);
    assert Pow256(6) == 0x1_0000 * Pow256(4);
    assert Pow256(7) == 0x100_0000 * Pow256(4);
  }

  lemma {:induction false} ByteAt(width: nat, v: int, i: nat)
    requires i < width
    ensures LeBytes(width, v)[i] == Shift(i, v) % 256
  {
    if i != 0 {
      ByteAt(width - 1, v / 256, i - 1);
    }
  }

  /* ----- Bytes determined by the integer they hold ----- */

  lemma {:induction false} BytesOfUnsigned(bs: seq<byte>, k: int)
    ensures LeBytes(|bs|, Unsigned(bs) + Pow256(|bs|) * k) == bs
  {
    if bs != [] {
      var p := Pow256(|bs| - 1);
      var v := Unsigned(bs) + Pow256(|bs|) * k;
      assert Pow256(|bs|) * k == 256 * (p * k) by {
        Scaled(p, k);
      }
      assert v == bs[0] + 256 * (Unsigned(bs[1..]) + p * k);
      assert v % 256 == bs[0] && v / 256 == Unsigned(bs[1..]) + p * k;
      BytesOfUnsigned(bs[1..], k);
      assert bs == [bs[0]] + bs[1..];
    }
  }

  lemma Scaled(p: int, k: int)
    ensures 256 * p * k == 256 * (p * k)
  {
  }

  lemma BytesOfSigned(bs: seq<byte>)
    ensures LeBytes(|bs|, Signed(bs)) == bs
  {
    hide LeBytes, Unsigned, Pow256;
    BytesOfUnsigned(bs, 0);
    BytesOfUnsigned(bs, -1);
    assert Pow256(|bs|) * 0 == 0 && Pow256(|bs|) * -1 == 0 - Pow256(|bs|);
  }

  /** `fbp_store_portable_integer`. */
  method StorePortableInteger(buffer: array<byte>, at: nat, value: int, length: nat)
    requires at + length <= buffer.Length
    modifies buffer
    ensures buffer[..] == old(buffer[..at]) + LeBytes(length, value) + old(buffer[at + length..])
  {
    for i := 0 to length
      invariant buffer[..at] == old(buffer[..at])
      invariant buffer[at + i..] == old(buffer[at + i..])
      invariant forall j :: 0 <= j < i ==> buffer[at + j] == LeBytes(length, value)[j]
    {
      ByteAt(length, value, i);
      buffer[at + i] := Shift(i, value) % 256;
      assert buffer[at + i + 1..] == old(buffer[at + i + 1..]);
    }
    assert buffer[at..at + length] == LeBytes(length, value);
    assert buffer[..] == buffer[..at] + buffer[at..at + length] + buffer[at + length..];
  }
}
