/** Bind followed by decode: what comes back, and exactly when it is the value that was bound. */
module CodecTheorems {
  import opened MachineTypes
  import opened LittleEndian
  import opened NumericText
  import opened NumericParser
  import opened ParserTheorems
  import opened BlobStream
  import opened Messages
  import opened ParameterCodec

  /** Spaces at the end, up to the column's length. */
  function Padded(t: PhpString, length: nat): PhpString
    requires |t| <= length
  {
    t + seq(length - |t|, _ => ' ')
  }

  /** What an accepted argument reads back as. */
  ghost function Echo(col: Column, arg: PhpValue, newId: Option<BlobId>): PhpValue
    requires col.IsInteger() ==> -18 <= col.scale <= 0
    requires Converted(col, arg, newId).Ok?
  {
    if arg.PNull? then PNull
    else
      match col.sqlType
      case SqlBoolean => arg
      case SqlText => PString(Padded(ToText(arg), col.length))
      case SqlVarying => PString(ToText(arg))
      case SqlBlob => if arg.PBlobId? then arg else PBlobId(newId.value)
      case _ => IntegerValue(StoredInteger(col, arg).value, col.scale)
  }

  /* ----- One column ----- */

  /** The two's-complement range of each integer column holds what is stored, so narrowing loses nothing. */
  lemma StoredInRange(col: Column, arg: PhpValue)
    requires col.IsInteger() && StoredInteger(col, arg).Ok?
    ensures -MaxOf(col) - 1 <= StoredInteger(col, arg).value <= MaxOf(col)
  {
    hide ToUint64, ToInt64, Val, Signify, Bound;
    if col.scale != 0 && arg.PString? {
      SignifySmall(0, 0, 0);
    }
    if col.scale != 0 && arg.PString? && arg.s != [] {
      var bound := Bound(arg.s, MaxOf(col));
      BoundIs(arg.s, MaxOf(col));
      var ds := ScaledDigits(Body(arg.s), col.scale);
      assert ds[..|ds|] == ds;
      SignifySmall(SignOf(arg.s), ToUint64(Val(ds)), bound);
    }
  }

  /** Negating an unsigned magnitude and casting gives the signed value. */
  lemma SignifySmall(sign: int, res: nat, bound: int)
    requires res <= bound <= INT64_MAX || (sign < 0 && res <= bound <= INT64_MAX + 1)
    ensures Signify(sign, res) == if sign < 0 then 0 - res else res
  {
  }

  lemma IntegerBytes(col: Column, n: int)
    requires col.IsInteger() && -MaxOf(col) - 1 <= n <= MaxOf(col)
    ensures Signed(LeBytes(col.Size(), n)) == n
  {
    Widths();
    SignedRoundTrip(col.Size(), n);
  }

  /** A column that holds the bytes of an accepted argument decodes to its echo. */
  lemma DecodeHeld(buf: seq<byte>, col: Column, arg: PhpValue, newId: Option<BlobId>)
    requires col.Fits(|buf|)
    requires Converted(col, arg, newId).Ok?
    requires Holds(buf, col, Converted(col, arg, newId).value)
    ensures VarValue(buf, col) == Echo(col, arg, newId)
  {
    hide LeBytes, Unsigned, Signed, ToText, Pow256, StoredInteger, IntegerValue;
    Widths();
    SignedRoundTrip(2, -1);
    SignedRoundTrip(2, 0);
    if !arg.PNull? {
      if col.IsInteger() {
        StoredInRange(col, arg);
        IntegerBytes(col, StoredInteger(col, arg).value);
      } else {
        match col.sqlType {
          case SqlBoolean => assert buf[col.offset..col.offset + 1][0] == buf[col.offset];
          case SqlText => DecodeText(buf, col, ToText(arg));
          case SqlVarying => DecodeVarying(buf, col, ToText(arg));
          case SqlBlob => DecodeBlob(buf, col, if arg.PBlobId? then arg.id else newId.value);
        }
      }
    }
  }

  lemma DecodeText(buf: seq<byte>, col: Column, t: PhpString)
    requires col.Fits(|buf|) && col.sqlType.SqlText? && |t| <= col.length
    requires Holds(buf, col, Some(Bytes(t) + Blanks(col.length - |t|)))
    ensures VarValue(buf, col) == PString(Padded(t, col.length))
  {
    hide VarValue, Holds, Signed;
    var bs := Bytes(t) + Blanks(col.length - |t|);
    HeldBytes(buf, col, bs);
    NotNull(buf, col);
    assert Octets(bs) == Padded(t, col.length);
  }

  lemma DecodeVarying(buf: seq<byte>, col: Column, t: PhpString)
    requires col.Fits(|buf|) && col.sqlType.SqlVarying? && |t| <= col.length
    requires Holds(buf, col, Some(LeBytes(2, |t|) + Bytes(t)))
    ensures VarValue(buf, col) == PString(t)
  {
    hide *;
    HeldBytes(buf, col, LeBytes(2, |t|) + Bytes(t));
    NotNull(buf, col);
    VaryingSlices(buf, col, t);
    DecodeVaryingAt(buf, col.offset, t);
  }

  /** Length and text of a held string, where decoding looks for them. */
  lemma VaryingSlices(buf: seq<byte>, col: Column, t: PhpString)
    requires col.Fits(|buf|) && col.sqlType.SqlVarying? && |t| <= col.length
    requires buf[col.offset..col.offset + |LeBytes(2, |t|) + Bytes(t)|] == LeBytes(2, |t|) + Bytes(t)
    ensures |t| < 0x1_0000 && col.offset + 2 + |t| <= |buf|
    ensures buf[col.offset..col.offset + 2] == LeBytes(2, |t|)
    ensures buf[col.offset + 2..col.offset + 2 + |t|] == Bytes(t)
  {
    hide LeBytes, Bytes;
    SplitSlice(buf, col.offset, LeBytes(2, |t|), Bytes(t));
  }

  /** What decoding reads behind a null flag of 0. */
  lemma NotNull(buf: seq<byte>, col: Column)
    requires col.Fits(|buf|) && Signed(buf[col.nullOffset..col.nullOffset + 2]) == 0
    ensures col.sqlType.SqlVarying? ==> VarValue(buf, col) == VaryingValue(buf, col.offset)
    ensures col.sqlType.SqlText? ==> VarValue(buf, col) == PString(Octets(buf[col.offset..col.offset + col.length]))
    ensures col.sqlType.SqlBlob? ==>
              var bs := buf[col.offset..col.offset + 8];
              Unsigned(bs) < TWO_64 && VarValue(buf, col) == PBlobId(Unsigned(bs))
  {
    hide Signed, Unsigned, Octets, VaryingValue, IntegerValue;
    Widths();
  }

  lemma HeldBytes(buf: seq<byte>, col: Column, bs: seq<byte>)
    requires col.Fits(|buf|) && Holds(buf, col, Some(bs))
    ensures |bs| <= col.Size() && buf[col.offset..col.offset + |bs|] == bs
    ensures Signed(buf[col.nullOffset..col.nullOffset + 2]) == 0
  {
    SignedRoundTrip(2, 0);
  }

  lemma DecodeVaryingAt(buf: seq<byte>, at: nat, t: PhpString)
    requires |t| < 0x1_0000 && at + 2 + |t| <= |buf|
    requires buf[at..at + 2] == LeBytes(2, |t|) && buf[at + 2..at + 2 + |t|] == Bytes(t)
    ensures VaryingValue(buf, at) == PString(t)
  {
    hide LeBytes, Unsigned, Octets, Bytes;
    Widths();
    UnsignedRoundTrip(2, |t|);
  }

  lemma SplitSlice(buf: seq<byte>, at: nat, x: seq<byte>, y: seq<byte>)
    requires at + |x| + |y| <= |buf| && buf[at..at + |x + y|] == x + y
    ensures buf[at..at + |x|] == x && buf[at + |x|..at + |x| + |y|] == y
  {
    var s := buf[at..at + |x + y|];
    assert buf[at..at + |x|] == s[..|x|];
    assert buf[at + |x|..at + |x| + |y|] == s[|x|..];
  }

  lemma DecodeBlob(buf: seq<byte>, col: Column, id: BlobId)
    requires col.Fits(|buf|) && col.sqlType.SqlBlob?
    requires Holds(buf, col, Some(LeBytes(8, id)))
    ensures VarValue(buf, col) == PBlobId(id)
  {
    hide VarValue, Holds, LeBytes, Unsigned, Signed;
    Widths();
    HeldBytes(buf, col, LeBytes(8, id));
    NotNull(buf, col);
    UnsignedRoundTrip(8, id);
  }

  /* ----- A whole message ----- */

  /** Every column of a message accepted by bind decodes to the echo of its own argument. */
  lemma BindThenDecode(buf: seq<byte>, cols: seq<Column>, args: seq<PhpValue>, ids: seq<Option<BlobId>>, i: nat)
    requires Layout(cols, |buf|) && |args| == |cols| && i < |cols|
    requires AcceptedTo(cols, args, ids, |cols|)
    ensures VarValue(MessageAfter(buf, cols, args, ids, |cols|), cols[i]) == Echo(cols[i], args[i], ids[i])
  {
    var data := Data(cols, args, ids, |cols|);
    WriteAllHolds(buf, cols, data, i);
    DecodeHeld(WriteAll(buf, cols, data), cols[i], args[i], ids[i]);
  }

  /** Bytes that no column owns are never written. */
  lemma BindFrame(buf: seq<byte>, cols: seq<Column>, args: seq<PhpValue>, ids: seq<Option<BlobId>>, n: nat, k: nat)
    requires Layout(cols, |buf|) && AcceptedTo(cols, args, ids, n)
    requires k < |buf| && !Owned(cols, |cols|, k)
    ensures MessageAfter(buf, cols, args, ids, n)[k] == buf[k]
  {
    WriteAllFrame(buf, cols, Data(cols, args, ids, n), k);
    if n < |cols| {
      assert !cols[n].Owns(k);
    }
  }

  /**
   A bind refused at argument n has bound the arguments before it; the columns after it keep their
   bytes; column n keeps its data behind a cleared null flag.
   */
  lemma RefusedBindBefore(buf: seq<byte>, cols: seq<Column>, args: seq<PhpValue>, ids: seq<Option<BlobId>>,
                          n: nat, i: nat)
    requires Layout(cols, |buf|) && AcceptedTo(cols, args, ids, n)
    requires i < n < |cols|
    ensures VarValue(MessageAfter(buf, cols, args, ids, n), cols[i]) == Echo(cols[i], args[i], ids[i])
  {
    hide Write, Converted, Holds, LeBytes, VarValue, Echo;
    var data := Data(cols, args, ids, n);
    WriteAllHolds(buf, cols, data, i);
    HoldsIsLocal(WriteAll(buf, cols, data), MessageAfter(buf, cols, args, ids, n), cols[i], data[i]);
    DecodeHeld(MessageAfter(buf, cols, args, ids, n), cols[i], args[i], ids[i]);
  }

  lemma RefusedBindFrom(buf: seq<byte>, cols: seq<Column>, args: seq<PhpValue>, ids: seq<Option<BlobId>>,
                        n: nat, i: nat, k: nat)
    requires Layout(cols, |buf|) && AcceptedTo(cols, args, ids, n)
    requires n <= i < |cols| && n < |cols| && cols[i].Owns(k)
    ensures var r, flag := MessageAfter(buf, cols, args, ids, n), cols[n].nullOffset;
            r[k] == if i == n && flag <= k < flag + 2 then LeBytes(2, 0)[k - flag] else buf[k]
  {
    hide Write, WriteAll, Converted, LeBytes;
    WriteAllFrame(buf, cols, Data(cols, args, ids, n), k);
    assert i > n ==> !cols[n].Owns(k);
  }

  /* ----- Runs of binds ----- */

  /** One earlier call: it accepted the arguments before `stop` and was refused there, or accepted all. */
  datatype BindCall = BindCall(args: seq<PhpValue>, ids: seq<Option<BlobId>>, stop: nat)

  ghost function AfterCalls(buf: seq<byte>, cols: seq<Column>, calls: seq<BindCall>): (r: seq<byte>)
    requires Layout(cols, |buf|)
    requires forall c :: c in calls ==> AcceptedTo(cols, c.args, c.ids, c.stop)
    ensures |r| == |buf|
  {
    if calls == [] then buf
    else
      var c := calls[|calls| - 1];
      MessageAfter(AfterCalls(buf, cols, calls[..|calls| - 1]), cols, c.args, c.ids, c.stop)
  }

  /** Whatever was bound, or refused, before, an accepted bind alone decides what every column decodes to. */
  lemma RebindForgets(buf: seq<byte>, cols: seq<Column>, calls: seq<BindCall>, i: nat)
    requires Layout(cols, |buf|) && i < |cols|
    requires forall c :: c in calls ==> AcceptedTo(cols, c.args, c.ids, c.stop)
    requires calls != [] && var last := calls[|calls| - 1]; last.stop == |cols| == |last.args|
    ensures var last := calls[|calls| - 1];
            VarValue(AfterCalls(buf, cols, calls), cols[i]) == Echo(cols[i], last.args[i], last.ids[i])
  {
    hide VarValue, Echo, MessageAfter;
    var last := calls[|calls| - 1];
    BindThenDecode(AfterCalls(buf, cols, calls[..|calls| - 1]), cols, last.args, last.ids, i);
  }

  /* ----- Strings bound to blob columns ----- */

  /** The server's blob under the identifier that was bound holds the argument's text. */
  lemma {:induction false} BoundBlob(stored: map<BlobId, PhpString>, cols: seq<Column>, args: seq<PhpValue>,
                                     ids: seq<Option<BlobId>>, n: nat, i: nat)
    requires i < n <= |cols| && n <= |args| && n <= |ids|
    requires forall j, k :: 0 <= j < k < |ids| && ids[j].Some? ==> ids[j] != ids[k]
    requires CreatesBlob(cols[i], args[i]) && ids[i].Some?
    ensures ids[i].value in Stored(stored, cols, args, ids, n)
    ensures Stored(stored, cols, args, ids, n)[ids[i].value] == StoredText(ToText(args[i]))
  {
    if i < n - 1 {
      BoundBlob(stored, cols, args, ids, n - 1, i);
    }
  }

  /** A string bound to a blob column is fetched back as text exactly when it is below 2^31 bytes. */
  lemma BlobTextRoundTrip(buf: seq<byte>, stored: map<BlobId, PhpString>, cols: seq<Column>, args: seq<PhpValue>,
                          ids: seq<Option<BlobId>>, i: nat)
    requires Layout(cols, |buf|) && |args| == |cols| && i < |cols|
    requires AcceptedTo(cols, args, ids, |cols|)
    requires forall j, k :: 0 <= j < k < |ids| && ids[j].Some? ==> ids[j] != ids[k]
    requires CreatesBlob(cols[i], args[i])
    ensures var v := VarValue(MessageAfter(buf, cols, args, ids, |cols|), cols[i]);
            var blobs := Stored(stored, cols, args, ids, |cols|);
            && v.PBlobId? && v.id in blobs
            && (FetchedText(blobs[v.id]) == Ok(ToText(args[i])) <==> |ToText(args[i])| < 0x8000_0000)
  {
    hide VarValue, MessageAfter, ToText, StoredText, FetchedText;
    BindThenDecode(buf, cols, args, ids, i);
    assert ids[i].Some?;
    BoundBlob(stored, cols, args, ids, |cols|, i);
    StringRoundTrip(ToText(args[i]));
  }
}
