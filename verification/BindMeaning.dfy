/** What arrives in a message, argument by argument, and which arguments are accepted, said of the values alone. */
module BindMeaning {
  import opened MachineTypes
  import opened LittleEndian
  import opened NumericText
  import opened ScaledPrinter
  import opened BlobStream
  import opened Messages
  import opened ParameterCodec
  import opened CodecTheorems

  /* ----- Values as text ----- */

  /** Decimal digits without a spare zero, behind a minus sign for negative numbers only. */
  ghost predicate IsIntegerText(t: PhpString, n: int) {
    var digits := if n < 0 && t != [] then t[1..] else t;
    && t != [] && (n < 0 ==> t[0] == '-')
    && AllDigits(digits) && digits != [] && (digits[0] == '0' ==> |digits| == 1)
    && n == if n < 0 then 0 - Val(digits) else Val(digits)
  }

  /** PHP's text of a value. */
  ghost predicate IsTextOf(t: PhpString, arg: PhpValue) {
    match arg
    case PString(s) => t == s
    case PBool(b) => t == if b then "1" else ""
    case PLong(n) => IsIntegerText(t, n)
    case PDouble(text) => t == text
    case PBlobId(id) => |t| == 18 && BlobIdText.Scan(t) == Some(id)
    case _ => t == ""
  }

  lemma IntegerHasText(n: int)
    ensures IsIntegerText(SignedText(n), n)
  {
    hide Val;
    if n < 0 {
      DecTextValue(-n);
      assert SignedText(n)[1..] == DecText(-n);
    } else {
      DecTextValue(n);
    }
  }

  /** An integer's text denotes it, as any numeral does. */
  lemma IntegerTextDenotes(t: PhpString, n: int)
    requires IsIntegerText(t, n)
    ensures WellFormed(Body(t)) && Decimal(t) == n as real
  {
    hide Val, WellFormed;
    var digits := if n < 0 then t[1..] else t;
    assert Body(t) == digits;
    PlainNumeral(digits);
    assert Pow10(0) == 1;
  }

  lemma OneIntegerText(t: PhpString, u: PhpString, n: int)
    requires IsIntegerText(t, n) && IsIntegerText(u, n)
    ensures t == u
  {
    hide Val;
    if n < 0 {
      WholePartUnique(t[1..], u[1..]);
      assert t == ['-'] + t[1..] && u == ['-'] + u[1..];
    } else {
      WholePartUnique(t, u);
    }
  }

  lemma HasText(arg: PhpValue)
    ensures IsTextOf(ToText(arg), arg)
  {
    hide BlobIdText.Scan, BlobIdText.Print, IsIntegerText, SignedText;
    match arg {
      case PLong(n) => IntegerHasText(n);
      case PBlobId(id) =>
        BlobIdText.ScanPrinted(id, []);
        assert BlobIdText.Print(id) + [] == BlobIdText.Print(id);
      case _ =>
    }
  }

  /** All texts of a value have the same length. */
  lemma TextLength(t: PhpString, arg: PhpValue)
    requires IsTextOf(t, arg)
    ensures |t| == |ToText(arg)|
  {
    hide BlobIdText.Scan, BlobIdText.Print, IsIntegerText, SignedText;
    HasText(arg);
    if arg.PLong? {
      OneIntegerText(t, ToText(arg), arg.n);
    }
  }

  /* ----- What arrives ----- */

  /** The message of an accepted bind. */
  ghost function BoundMessage(buf: seq<byte>, cols: seq<Column>, args: seq<PhpValue>, ids: seq<Option<BlobId>>)
    : seq<byte>
    requires Layout(cols, |buf|) && |args| == |cols| && AcceptedTo(cols, args, ids, |cols|)
  {
    MessageAfter(buf, cols, args, ids, |cols|)
  }

  /** Strings: the same bytes from VARCHAR, padded with blanks from CHAR. */
  lemma StringArrives(buf: seq<byte>, cols: seq<Column>, args: seq<PhpValue>, ids: seq<Option<BlobId>>,
                      i: nat, s: PhpString)
    requires Layout(cols, |buf|) && |args| == |cols| && AcceptedTo(cols, args, ids, |cols|)
    requires i < |cols| && args[i] == PString(s)
    ensures var v := VarValue(BoundMessage(buf, cols, args, ids), cols[i]);
            && (cols[i].sqlType.SqlVarying? ==> v == PString(s))
            && (cols[i].sqlType.SqlText? ==>
                  && v.PString? && |s| <= |v.s| == cols[i].length && v.s[..|s|] == s
                  && forall k :: |s| <= k < |v.s| ==> v.s[k] == ' ')
  {
    hide VarValue, MessageAfter;
    BindThenDecode(buf, cols, args, ids, i);
  }

  /** Any value bound to a text column arrives as its PHP text; null arrives as null. */
  lemma TextArrives(buf: seq<byte>, cols: seq<Column>, args: seq<PhpValue>, ids: seq<Option<BlobId>>, i: nat)
    requires Layout(cols, |buf|) && |args| == |cols| && AcceptedTo(cols, args, ids, |cols|)
    requires i < |cols|
    ensures var v := VarValue(BoundMessage(buf, cols, args, ids), cols[i]);
            && (args[i].PNull? ==> v == PNull)
            && (!args[i].PNull? && cols[i].sqlType.SqlVarying? ==> v.PString? && IsTextOf(v.s, args[i]))
            && (!args[i].PNull? && cols[i].sqlType.SqlText? ==>
                  && v.PString? && |v.s| == cols[i].length
                  && exists n :: 0 <= n <= |v.s| && IsTextOf(v.s[..n], args[i])
                                 && forall k :: n <= k < |v.s| ==> v.s[k] == ' ')
  {
    hide VarValue, MessageAfter, ToText, IsTextOf;
    BindThenDecode(buf, cols, args, ids, i);
    HasText(args[i]);
    if !args[i].PNull? && cols[i].sqlType.SqlText? {
      var t := ToText(args[i]);
      assert Padded(t, cols[i].length)[..|t|] == t;
    }
  }

  /** Booleans, blob identifiers and unscaled integers arrive as they are. */
  lemma ValueArrives(buf: seq<byte>, cols: seq<Column>, args: seq<PhpValue>, ids: seq<Option<BlobId>>, i: nat)
    requires Layout(cols, |buf|) && |args| == |cols| && AcceptedTo(cols, args, ids, |cols|)
    requires i < |cols| && !args[i].PNull?
    ensures var v := VarValue(BoundMessage(buf, cols, args, ids), cols[i]);
            && (cols[i].sqlType.SqlBoolean? ==>
                  && v.PBool? && v == args[i]
                  && BoundMessage(buf, cols, args, ids)[cols[i].offset] == if v.b then 1 else 0)
            && (cols[i].sqlType.SqlBlob? && args[i].PBlobId? ==> v == args[i])
            && (cols[i].IsInteger() && cols[i].scale == 0 ==> v.PLong? && v == args[i])
  {
    hide VarValue, MessageAfter;
    BindThenDecode(buf, cols, args, ids, i);
    if cols[i].sqlType.SqlBoolean? {
      BooleanByte(buf, cols, args, ids, i);
    }
  }

  /**
   The blob that arrived holds the value's text, cut to its length in 32 bits, and is fetched as that text
   if and only if it is shorter than 2^31 bytes.
   */
  ghost predicate StoredAs(v: PhpValue, blobs: map<BlobId, PhpString>, arg: PhpValue) {
    && v.PBlobId? && v.id in blobs
    && exists t :: IsTextOf(t, arg) && blobs[v.id] == t[..|t| % 0x1_0000_0000]
                   && (BlobText(blobs, v.id, true) == Ok(t) <==> |t| < 0x8000_0000)
  }

  lemma BooleanByte(buf: seq<byte>, cols: seq<Column>, args: seq<PhpValue>, ids: seq<Option<BlobId>>, i: nat)
    requires Layout(cols, |buf|) && |args| == |cols| && AcceptedTo(cols, args, ids, |cols|)
    requires i < |cols| && args[i].PBool? && cols[i].sqlType.SqlBoolean?
    ensures BoundMessage(buf, cols, args, ids)[cols[i].offset] == if args[i].b then 1 else 0
  {
    hide WriteAll;
    WriteAllHolds(buf, cols, Data(cols, args, ids, |cols|), i);
    var r, at := BoundMessage(buf, cols, args, ids), cols[i].offset;
    assert r[at..at + 1][0] == r[at];
  }

  /** Text bound to a blob column is what the server stores under the identifier that arrives. */
  lemma BlobTextArrives(buf: seq<byte>, stored: map<BlobId, PhpString>, cols: seq<Column>, args: seq<PhpValue>,
                        ids: seq<Option<BlobId>>, i: nat)
    requires Layout(cols, |buf|) && |args| == |cols| && AcceptedTo(cols, args, ids, |cols|)
    requires forall j, k :: 0 <= j < k < |ids| && ids[j].Some? ==> ids[j] != ids[k]
    requires i < |cols| && cols[i].sqlType.SqlBlob? && !args[i].PNull? && !args[i].PBlobId?
    ensures var v := VarValue(BoundMessage(buf, cols, args, ids), cols[i]);
            var blobs := Stored(stored, cols, args, ids, |cols|);
            StoredAs(v, blobs, args[i])
  {
    hide VarValue, MessageAfter, ToText, IsTextOf, FetchedText, Stored;
    BindThenDecode(buf, cols, args, ids, i);
    assert ids[i].Some?;
    BoundBlob(stored, cols, args, ids, |cols|, i);
    StringRoundTrip(ToText(args[i]));
    HasText(args[i]);
  }

  /** A string below 2^31 bytes bound to a blob column is fetched back as it was. */
  lemma BlobStringArrives(buf: seq<byte>, stored: map<BlobId, PhpString>, cols: seq<Column>, args: seq<PhpValue>,
                          ids: seq<Option<BlobId>>, i: nat, s: PhpString)
    requires Layout(cols, |buf|) && |args| == |cols| && AcceptedTo(cols, args, ids, |cols|)
    requires forall j, k :: 0 <= j < k < |ids| && ids[j].Some? ==> ids[j] != ids[k]
    requires i < |cols| && cols[i].sqlType.SqlBlob? && args[i] == PString(s)
    ensures var v := VarValue(BoundMessage(buf, cols, args, ids), cols[i]);
            var blobs := Stored(stored, cols, args, ids, |cols|);
            && v.PBlobId? && v.id in blobs
            && (BlobText(blobs, v.id, true) == Ok(s) <==> |s| < 0x8000_0000)
            && (|s| < 0x1_0000_0000 ==> blobs[v.id] == s)
  {
    hide VarValue, MessageAfter, FetchedText, Stored;
    BlobTextArrives(buf, stored, cols, args, ids, i);
    assert s[..|s|] == s;
  }

  /* ----- Any message, bound or fetched ----- */

  /** The characters of a text are bytes of the message. */
  predicate ReadsBytes(t: PhpString, buf: seq<byte>, at: nat) {
    at + |t| <= |buf| && forall k :: 0 <= k < |t| ==> t[k] as int == buf[at + k]
  }

  /** Null flags and booleans of any message. */
  lemma DecodesFlag(buf: seq<byte>, col: Column)
    requires col.Fits(|buf|)
    ensures var v, flag := VarValue(buf, col), col.nullOffset;
            && (v == PNull <==> buf[flag] != 0 || buf[flag + 1] != 0)
            && (v != PNull && col.sqlType.SqlBoolean? ==> v == PBool(buf[col.offset] != 0))
  {
    hide Signed, Unsigned, LeBytes, PrintScaled, VaryingValue, Octets;
    var flag := buf[col.nullOffset..col.nullOffset + 2];
    TwoBytes(flag);
    assert flag[0] == buf[col.nullOffset] && flag[1] == buf[col.nullOffset + 1];
    if col.sqlType.SqlVarying? {
      NeverNull(buf, col.offset);
    }
  }

  lemma NeverNull(buf: seq<byte>, at: nat)
    requires at + 2 <= |buf|
    ensures VaryingValue(buf, at) != PNull
  {
    hide Unsigned, Octets;
  }

  /** Texts and blob identifiers of any message, byte by byte. */
  lemma DecodesBytes(buf: seq<byte>, col: Column)
    requires col.Fits(|buf|) && VarValue(buf, col) != PNull
    ensures var v, at := VarValue(buf, col), col.offset;
            && (col.sqlType.SqlText? ==> v.PString? && |v.s| == col.length && ReadsBytes(v.s, buf, at))
            && (col.sqlType.SqlVarying? ==>
                  var n := buf[at] as int + 256 * (buf[at + 1] as int);
                  at + 2 + n <= |buf| ==> v.PString? && |v.s| == n && ReadsBytes(v.s, buf, at + 2))
            && (col.sqlType.SqlBlob? ==> v.PBlobId? && LeBytes(8, v.id) == buf[at..at + 8])
  {
    hide VarValue, LeBytes, Unsigned, Signed;
    var at, flag := col.offset, buf[col.nullOffset..col.nullOffset + 2];
    DecodesFlag(buf, col);
    TwoBytes(flag);
    assert flag[0] == buf[col.nullOffset] && flag[1] == buf[col.nullOffset + 1];
    NotNull(buf, col);
    match col.sqlType {
      case SqlVarying =>
        var length := buf[at..at + 2];
        TwoBytes(length);
        assert length[0] == buf[at] && length[1] == buf[at + 1];
      case SqlBlob => BytesOfUnsigned(buf[col.offset..col.offset + 8], 0);
      case _ =>
    }
  }

  lemma TwoBytes(bs: seq<byte>)
    requires |bs| == 2
    ensures Unsigned(bs) == bs[0] as int + 256 * (bs[1] as int)
    ensures Signed(bs) == 0 <==> bs[0] == 0 && bs[1] == 0
  {
    Widths();
    assert bs[1..][0] == bs[1] && bs[1..][1..] == [];
  }

  /** The bytes of a column: its value's, by type, and two for its null flag. */
  lemma ColumnBytes(col: Column, k: int)
    ensures var width := match col.sqlType
              case SqlBoolean => 1
              case SqlShort => 2
              case SqlLong => 4
              case SqlInt64 => 8
              case SqlBlob => 8
              case SqlText => col.length
              case SqlVarying => 2 + col.length;
            col.Owns(k) <==>
            col.offset <= k < col.offset + width || k == col.nullOffset || k == col.nullOffset + 1
  {
  }

  /** Integers of any message: the number whose bytes stand there, or its numeral scaled by the column. */
  lemma DecodesInteger(buf: seq<byte>, col: Column, n: int)
    requires col.Fits(|buf|) && col.IsInteger() && InRange(col, n)
    requires VarValue(buf, col) != PNull
    requires var width := if col.sqlType.SqlShort? then 2 else if col.sqlType.SqlLong? then 4 else 8;
             col.offset + width <= |buf| && buf[col.offset..col.offset + width] == LeBytes(width, n)
    ensures var v := VarValue(buf, col);
            && (col.scale == 0 ==> v == PLong(n))
            && (col.scale < 0 && n != -9223372036854775808 ==>
                  && v.PString? && Canonical(v.s, col.scale) && WellFormed(Body(v.s))
                  && Decimal(v.s) == n as real / Pow10(-col.scale) as real)
  {
    hide LeBytes, Signed, Decimal, PrintScaled, Canonical;
    Widths();
    SignedRoundTrip(col.Size(), n);
    if col.scale < 0 && n != -9223372036854775808 {
      PrintedIsCanonical(n, col.scale);
      PrintedDecimal(n, col.scale);
    }
  }

  /* ----- What is accepted ----- */

  /** The integers of a column's type. */
  predicate InRange(col: Column, n: int)
    requires col.IsInteger()
  {
    match col.sqlType
    case SqlShort => -32768 <= n <= 32767
    case SqlLong => -2147483648 <= n <= 2147483647
    case _ => -9223372036854775808 <= n <= 9223372036854775807
  }

  /**
   Which arguments a column accepts, and how it refuses the others. What a scaled column does with a
   decimal string is said by the numeral.
   */
  lemma AcceptedExactly(col: Column, arg: PhpValue, newId: Option<BlobId>)
    requires !arg.PNull?
    ensures var r := Converted(col, arg, newId);
            match col.sqlType
            case SqlBoolean => (r.Ok? <==> arg.PBool?) && (r.Err? ==> r == Err(WrongType))
            case SqlBlob => (r.Ok? <==> arg.PBlobId? || newId.Some?) && (r.Err? ==> r == Err(BlobFailed))
            case SqlText =>
              (r.Ok? <==> exists t :: IsTextOf(t, arg) && |t| <= col.length) && (r.Err? ==> r == Err(TooLong))
            case SqlVarying =>
              (r.Ok? <==> exists t :: IsTextOf(t, arg) && |t| <= col.length) && (r.Err? ==> r == Err(TooLong))
            case _ =>
              && (arg.PLong? ==> (r.Ok? <==> InRange(col, arg.n)) && (r.Err? ==> r == Err(OutOfRange)))
              && (!arg.PLong? && !(arg.PString? && col.scale != 0) ==> r == Err(WrongType))
  {
    hide IsTextOf, ToText;
    if col.sqlType.SqlText? || col.sqlType.SqlVarying? {
      HasText(arg);
      forall t | IsTextOf(t, arg) ensures |t| == |ToText(arg)| {
        TextLength(t, arg);
      }
    }
  }

  /** A null is accepted by every column. */
  lemma NullAccepted(col: Column, newId: Option<BlobId>)
    ensures Converted(col, PNull, newId) == Ok(None)
  {
  }
}
