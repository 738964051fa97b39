/** Message buffers: columns addressed by offset, and what writing one column does to the others. */
module Messages {
  import opened MachineTypes
  import opened LittleEndian

  datatype SqlType = SqlShort | SqlLong | SqlInt64 | SqlBoolean | SqlText | SqlVarying | SqlBlob

  /** The part of `firebird_var` that bind and decode read. */
  datatype Column = Column(sqlType: SqlType, length: nat, scale: int, offset: nat, nullOffset: nat) {
    /** Bytes the column's data occupies. */
    function Size(): nat {
      match sqlType
      case SqlShort => 2
      case SqlLong => 4
      case SqlInt64 => 8
      case SqlBoolean => 1
      case SqlText => length
      case SqlVarying => length + 2
      case SqlBlob => 8
    }

    predicate IsInteger() {
      sqlType.SqlShort? || sqlType.SqlLong? || sqlType.SqlInt64?
    }

    /** Byte k belongs to the column's data or to its null flag. */
    predicate Owns(k: int) {
      offset <= k < offset + Size() || nullOffset <= k < nullOffset + 2
    }

    predicate Fits(bufferSize: nat) {
      && offset + Size() <= bufferSize && nullOffset + 2 <= bufferSize
      && (offset + Size() <= nullOffset || nullOffset + 2 <= offset)
      && (IsInteger() ==> -18 <= scale <= 0)
      && (sqlType.SqlVarying? ==> length < 0x1_0000)
    }
  }

  /** Message metadata: every column in bounds, no byte owned twice. */
  ghost predicate Layout(cols: seq<Column>, bufferSize: nat) {
    && (forall i :: 0 <= i < |cols| ==> cols[i].Fits(bufferSize))
    && (forall i, j, k :: 0 <= i < j < |cols| && cols[i].Owns(k) ==> !cols[j].Owns(k))
  }

  /** `s` with the bytes `bs` written at `off`. */
  function Splice(s: seq<byte>, off: nat, bs: seq<byte>): (r: seq<byte>)
    requires off + |bs| <= |s|
    ensures |r| == |s|
    ensures forall k :: 0 <= k < |s| ==> r[k] == if off <= k < off + |bs| then bs[k - off] else s[k]
  {
    s[..off] + bs + s[off + |bs|..]
  }

  /** One store of a value's bytes, or a memcpy. */
  method Store(buffer: array<byte>, off: nat, bs: seq<byte>)
    requires off + |bs| <= buffer.Length
    modifies buffer
    ensures buffer[..] == Splice(old(buffer[..]), off, bs)
  {
    forall i | 0 <= i < |bs| {
      buffer[off + i] := bs[i];
    }
  }

  function Octets(bs: seq<byte>): (s: PhpString)
    ensures |s| == |bs|
  {
    seq(|bs|, i requires 0 <= i < |bs| => bs[i] as char)
  }

  function Bytes(s: PhpString): (bs: seq<byte>)
    ensures |bs| == |s| && Octets(bs) == s
  {
    seq(|s|, i requires 0 <= i < |s| => s[i] as int)
  }

  /** The buffer after one column: `None` writes only a null flag of -1. */
  function Write(buf: seq<byte>, col: Column, data: Option<seq<byte>>): (r: seq<byte>)
    requires col.Fits(|buf|)
    requires data.Some? ==> |data.value| <= col.Size()
    ensures |r| == |buf|
  {
    match data
    case None => Splice(buf, col.nullOffset, LeBytes(2, -1))
    case Some(bs) => Splice(Splice(buf, col.nullOffset, LeBytes(2, 0)), col.offset, bs)
  }

  /** The column reads back as written. */
  predicate Holds(buf: seq<byte>, col: Column, data: Option<seq<byte>>)
    requires col.Fits(|buf|)
  {
    match data
    case None => buf[col.nullOffset..col.nullOffset + 2] == LeBytes(2, -1)
    case Some(bs) =>
      && |bs| <= col.Size()
      && buf[col.nullOffset..col.nullOffset + 2] == LeBytes(2, 0)
      && buf[col.offset..col.offset + |bs|] == bs
  }

  /** Byte k belongs to one of the first n columns. */
  ghost predicate Owned(cols: seq<Column>, n: nat, k: int)
    requires n <= |cols|
  {
    exists i :: 0 <= i < n && cols[i].Owns(k)
  }

  lemma WriteHolds(buf: seq<byte>, col: Column, data: Option<seq<byte>>)
    requires col.Fits(|buf|)
    requires data.Some? ==> |data.value| <= col.Size()
    ensures Holds(Write(buf, col, data), col, data)
    ensures forall k :: 0 <= k < |buf| && !col.Owns(k) ==> Write(buf, col, data)[k] == buf[k]
  {
  }

  /** Agreement on a column's own bytes is agreement on what it holds. */
  lemma HoldsIsLocal(a: seq<byte>, b: seq<byte>, col: Column, data: Option<seq<byte>>)
    requires |a| == |b| && col.Fits(|a|)
    requires forall k :: 0 <= k < |a| && col.Owns(k) ==> a[k] == b[k]
    requires Holds(a, col, data)
    ensures Holds(b, col, data)
  {
    var n := col.nullOffset;
    assert forall k :: n <= k < n + 2 ==> col.Owns(k);
    assert a[n..n + 2] == b[n..n + 2];
    if data.Some? {
      var off, len := col.offset, |data.value|;
      assert forall k :: off <= k < off + len ==> col.Owns(k);
      assert a[off..off + len] == b[off..off + len];
    }
  }

  /** Column after column. */
  ghost function WriteAll(buf: seq<byte>, cols: seq<Column>, data: seq<Option<seq<byte>>>): (r: seq<byte>)
    requires |data| <= |cols|
    requires forall i :: 0 <= i < |cols| ==> cols[i].Fits(|buf|)
    requires Sized(cols, data)
    ensures |r| == |buf|
  {
    if data == [] then buf
    else
      var n := |data| - 1;
      Write(WriteAll(buf, cols, data[..n]), cols[n], data[n])
  }

  /** Writing one column keeps what another column holds. */
  lemma WriteKeeps(buf: seq<byte>, col: Column, data: Option<seq<byte>>, other: Column, held: Option<seq<byte>>)
    requires col.Fits(|buf|) && other.Fits(|buf|)
    requires data.Some? ==> |data.value| <= col.Size()
    requires forall k :: other.Owns(k) ==> !col.Owns(k)
    requires Holds(buf, other, held)
    ensures Holds(Write(buf, col, data), other, held)
  {
    WriteHolds(buf, col, data);
    HoldsIsLocal(buf, Write(buf, col, data), other, held);
  }

  ghost predicate Sized(cols: seq<Column>, data: seq<Option<seq<byte>>>) {
    |data| <= |cols| && forall i :: 0 <= i < |data| ==> data[i].Some? ==> |data[i].value| <= cols[i].Size()
  }

  /** Writing a message: every column holds its data. */
  lemma {:induction false} WriteAllHolds(buf: seq<byte>, cols: seq<Column>, data: seq<Option<seq<byte>>>, i: nat)
    requires Layout(cols, |buf|) && Sized(cols, data) && i < |data|
    ensures Holds(WriteAll(buf, cols, data), cols[i], data[i])
  {
    var n := |data| - 1;
    var before := WriteAll(buf, cols, data[..n]);
    if i == n {
      WriteHolds(before, cols[n], data[n]);
    } else {
      WriteAllHolds(buf, cols, data[..n], i);
      WriteKeeps(before, cols[n], data[n], cols[i], data[i]);
    }
  }

  /** Writing a message changes no byte outside the columns written. */
  lemma {:induction false} WriteAllFrame(buf: seq<byte>, cols: seq<Column>, data: seq<Option<seq<byte>>>, k: nat)
    requires Layout(cols, |buf|) && Sized(cols, data) && k < |buf|
    requires !Owned(cols, |data|, k)
    ensures WriteAll(buf, cols, data)[k] == buf[k]
  {
    hide Write;
    if data != [] {
      var n := |data| - 1;
      var before := WriteAll(buf, cols, data[..n]);
      WriteAllFrame(buf, cols, data[..n], k);
      WriteKeepsByte(before, cols[n], data[n], k);
    }
  }

  lemma WriteKeepsByte(buf: seq<byte>, col: Column, data: Option<seq<byte>>, k: nat)
    requires col.Fits(|buf|) && k < |buf| && !col.Owns(k)
    requires data.Some? ==> |data.value| <= col.Size()
    ensures Write(buf, col, data)[k] == buf[k]
  {
    WriteHolds(buf, col, data);
  }
}
