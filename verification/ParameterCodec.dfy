/** Binding PHP arguments into a statement's message and decoding a message back. */
module ParameterCodec {
  import opened MachineTypes
  import opened LittleEndian
  import opened NumericParser
  import opened ScaledPrinter
  import opened BlobStream
  import opened Messages
  import BlobIdText

  /**
   PHP values that reach a message. A double carries the text PHP converts it to; a blob
   identifier its eight bytes read as one integer. `PUndefined` marks a value C leaves undefined.
   */
  datatype PhpValue =
    | PNull
    | PBool(b: bool)
    | PLong(n: Int64)
    | PDouble(text: PhpString)
    | PString(s: PhpString)
    | PBlobId(id: BlobId)
    | PUndefined

  datatype BindError = WrongType | OutOfRange | ParseFailed | TooLong | BlobFailed

  datatype BindFailure = ArgumentCount | Argument(index: nat, error: BindError)

  /* ----- One argument ----- */

  /** `convert_to_string`. */
  function ToText(v: PhpValue): PhpString {
    match v
    case PNull => ""
    case PBool(b) => if b then "1" else ""
    case PLong(n) => SignedText(n)
    case PDouble(text) => text
    case PString(s) => s
    case PBlobId(id) => BlobIdText.Print(id)
    case PUndefined => ""
  }

  function MaxOf(col: Column): int
    requires col.IsInteger()
  {
    match col.sqlType
    case SqlShort => INT16_MAX
    case SqlLong => INT32_MAX
    case _ => INT64_MAX
  }

  /** `static_cast<zend_long>(sign < 0 ? -res : res)` on an unsigned `res`. */
  function Signify(sign: int, res: nat): Int64 {
    ToInt64(ToUint64(if sign < 0 then 0 - res else res))
  }

  /** The integer an argument is stored as. */
  ghost function StoredInteger(col: Column, arg: PhpValue): Result<Int64, BindError>
    requires col.IsInteger()
  {
    if col.scale != 0 && arg.PString? then
      match Parse(arg.s, col.scale, MaxOf(col))
      case Overflow => Err(OutOfRange)
      case Malformed => Err(ParseFailed)
      case Parsed(sign, _, res) => Ok(Signify(sign, res))
    else if arg.PLong? then
      if -MaxOf(col) - 1 <= arg.n <= MaxOf(col) then Ok(arg.n) else Err(OutOfRange)
    else Err(WrongType)
  }

  function Blanks(n: nat): (bs: seq<byte>)
    ensures |bs| == n
  {
    seq(n, _ => 32)
  }

  /** The bytes an argument puts at its column's offset; `None` stands for a null flag. */
  ghost function Converted(col: Column, arg: PhpValue, newId: Option<BlobId>): (r: Result<Option<seq<byte>>, BindError>)
    ensures r.Ok? && r.value.Some? ==> |r.value.value| <= col.Size()
  {
    if arg.PNull? then Ok(None)
    else
      match col.sqlType
      case SqlBoolean => if arg.PBool? then Ok(Some([if arg.b then 1 else 0])) else Err(WrongType)
      case SqlText =>
        var t := ToText(arg);
        if |t| > col.length then Err(TooLong) else Ok(Some(Bytes(t) + Blanks(col.length - |t|)))
      case SqlVarying =>
        var t := ToText(arg);
        if |t| > col.length then Err(TooLong) else Ok(Some(LeBytes(2, |t|) + Bytes(t)))
      case SqlBlob =>
        if arg.PBlobId? then Ok(Some(LeBytes(8, arg.id)))
        else if newId.Some? then Ok(Some(LeBytes(8, newId.value)))
        else Err(BlobFailed)
      case _ =>
        match StoredInteger(col, arg)
        case Err(e) => Err(e)
        case Ok(n) => Ok(Some(LeBytes(col.Size(), n)))
  }

  /** The argument makes the server create a blob. */
  predicate CreatesBlob(col: Column, arg: PhpValue) {
    col.sqlType.SqlBlob? && !arg.PNull? && !arg.PBlobId?
  }

  /* ----- All arguments ----- */

  /** Arguments before `n` are accepted. */
  ghost predicate AcceptedTo(cols: seq<Column>, args: seq<PhpValue>, ids: seq<Option<BlobId>>, n: nat) {
    n <= |cols| && n <= |args| && n <= |ids| && forall i :: 0 <= i < n ==> Converted(cols[i], args[i], ids[i]).Ok?
  }

  ghost function Data(cols: seq<Column>, args: seq<PhpValue>, ids: seq<Option<BlobId>>, n: nat)
    : (d: seq<Option<seq<byte>>>)
    requires AcceptedTo(cols, args, ids, n)
    ensures |d| == n && Sized(cols, d)
    ensures forall i :: 0 <= i < n ==> d[i] == Converted(cols[i], args[i], ids[i]).value
  {
    seq(n, i requires 0 <= i < n => Converted(cols[i], args[i], ids[i]).value)
  }

  /** The server's blobs after the first n arguments. */
  function Stored(stored: map<BlobId, PhpString>, cols: seq<Column>, args: seq<PhpValue>,
                  ids: seq<Option<BlobId>>, n: nat)
    : map<BlobId, PhpString>
    requires n <= |cols| && n <= |args| && n <= |ids|
  {
    if n == 0 then stored
    else
      var before := Stored(stored, cols, args, ids, n - 1);
      if CreatesBlob(cols[n - 1], args[n - 1]) && ids[n - 1].Some?
      then before[ids[n - 1].value := StoredText(ToText(args[n - 1]))]
      else before
  }

  /** The message after a bind that stopped at argument `n`, or accepted all of them. */
  ghost function MessageAfter(buf: seq<byte>, cols: seq<Column>, args: seq<PhpValue>, ids: seq<Option<BlobId>>, n: nat)
    : (r: seq<byte>)
    requires Layout(cols, |buf|) && AcceptedTo(cols, args, ids, n)
    ensures |r| == |buf|
  {
    var written := WriteAll(buf, cols, Data(cols, args, ids, n));
    if n == |cols| then written else Splice(written, cols[n].nullOffset, LeBytes(2, 0))
  }

  class Statement {
    const inVars: seq<Column>
    const inBuffer: array<byte>

    constructor (inVars: seq<Column>, messageLength: nat)
      requires Layout(inVars, messageLength)
      ensures this.inVars == inVars && fresh(inBuffer) && Valid()
      ensures inBuffer[..] == seq(messageLength, _ => 0)
    {
      this.inVars := inVars;
      inBuffer := new byte[messageLength](_ => 0);
    }

    ghost predicate Valid() {
      Layout(inVars, inBuffer.Length)
    }

    /** `ids[i]` is the identifier the server picks if argument i needs a blob, or `None` if it fails. */
    method Bind(args: seq<PhpValue>, server: BlobServer, ids: seq<Option<BlobId>>) returns (r: Result<(), BindFailure>)
      requires Valid() && |ids| == |args|
      requires forall i :: 0 <= i < |ids| && ids[i].Some? ==> ids[i].value !in server.stored
      requires forall i, j :: 0 <= i < j < |ids| && ids[i].Some? ==> ids[i] != ids[j]
      modifies inBuffer, server
      ensures |args| != |inVars| ==>
                r == Err(ArgumentCount) && unchanged(inBuffer) && unchanged(server)
      ensures |args| == |inVars| ==>
                var n := if r.Ok? then |args| else if r.error.Argument? then r.error.index else 0;
                && AcceptedTo(inVars, args, ids, n)
                && inBuffer[..] == MessageAfter(old(inBuffer[..]), inVars, args, ids, n)
                && server.stored == Stored(old(server.stored), inVars, args, ids, n)
                && (r.Err? ==> r.error.Argument? && n < |args|
                               && Converted(inVars[n], args[n], ids[n]) == Err(r.error.error))
    {
      hide Converted, Write, StoredText, ToText, CreatesBlob;
      if |args| != |inVars| {
        return Err(ArgumentCount);
      }
      var i := 0;
      assert inBuffer[..] == old(inBuffer[..]);
      while i < |inVars|
        invariant i <= |inVars|
        invariant AcceptedTo(inVars, args, ids, i)
        invariant inBuffer[..] == WriteAll(old(inBuffer[..]), inVars, Data(inVars, args, ids, i))
        invariant server.stored == Stored(old(server.stored), inVars, args, ids, i)
        invariant forall j :: i <= j < |ids| && ids[j].Some? ==> ids[j].value !in server.stored
      {
        ghost var before := inBuffer[..];
        var one := BindColumn(inVars[i], args[i], server, ids[i]);
        if one.Err? {
          return Err(Argument(i, one.error));
        }
        ghost var data := Data(inVars, args, ids, i + 1);
        assert data[..i] == Data(inVars, args, ids, i);
        i := i + 1;
      }
      r := Ok(());
    }

    method BindColumn(col: Column, arg: PhpValue, server: BlobServer, newId: Option<BlobId>)
      returns (r: Result<(), BindError>)
      requires col.Fits(inBuffer.Length)
      requires newId.Some? ==> newId.value !in server.stored
      modifies inBuffer, server
      ensures var c := Converted(col, arg, newId);
              match c
              case Ok(data) => r == Ok(()) && inBuffer[..] == Write(old(inBuffer[..]), col, data)
              case Err(e) => r == Err(e) && inBuffer[..] == Splice(old(inBuffer[..]), col.nullOffset, LeBytes(2, 0))
      ensures server.stored == if CreatesBlob(col, arg) && newId.Some?
                               then old(server.stored)[newId.value := StoredText(ToText(arg))]
                               else old(server.stored)
      ensures r.Err? ==> server.stored == old(server.stored)
    {
      hide StoredInteger, LeBytes, Bytes, Splice, ToText, Blanks;
      if arg.PNull? {
        Store(inBuffer, col.nullOffset, LeBytes(2, -1));
        return Ok(());
      }
      Store(inBuffer, col.nullOffset, LeBytes(2, 0));
      match col.sqlType {
        case SqlBoolean =>
          if !arg.PBool? {
            return Err(WrongType);
          }
          Store(inBuffer, col.offset, [if arg.b then 1 else 0]);
        case SqlText =>
          var t := ToText(arg);
          if |t| > col.length {
            return Err(TooLong);
          }
          Store(inBuffer, col.offset, Bytes(t) + Blanks(col.length - |t|));
        case SqlVarying =>
          var t := ToText(arg);
          if |t| > col.length {
            return Err(TooLong);
          }
          Store(inBuffer, col.offset, LeBytes(2, |t|) + Bytes(t));
        case SqlBlob =>
          var id;
          if arg.PBlobId? {
            id := arg.id;
          } else {
            var created := CreateBlobFromString(server, ToText(arg), newId);
            if created.Err? {
              return Err(BlobFailed);
            }
            id := created.value;
          }
          Store(inBuffer, col.offset, LeBytes(8, id));
        case _ =>
          var n := ConvertInteger(col, arg);
          if n.Err? {
            return Err(n.error);
          }
          Store(inBuffer, col.offset, LeBytes(col.Size(), n.value));
      }
      r := Ok(());
    }
  }

  method ConvertInteger(col: Column, arg: PhpValue) returns (r: Result<Int64, BindError>)
    requires col.IsInteger()
    ensures r == StoredInteger(col, arg)
  {
    var longMin, longMax := -MaxOf(col) - 1, MaxOf(col);
    if col.scale != 0 && arg.PString? {
      var status, sign, exp, res := StringToNumeric(arg.s, col.scale, longMax);
      match status {
        case ParseOverflow => return Err(OutOfRange);
        case ParseError => return Err(ParseFailed);
        case ParseOk => return Ok(Signify(sign, res));
      }
    } else if arg.PLong? {
      if arg.n < longMin || arg.n > longMax {
        return Err(OutOfRange);
      }
      return Ok(arg.n);
    } else {
      return Err(WrongType);
    }
  }

  /* ----- Decoding ----- */

  /** The text or number `var_zval` makes of a stored integer. */
  function IntegerValue(n: Int64, scale: int): PhpValue
    requires -18 <= scale <= 0
  {
    if scale == 0 then PLong(n)
    else if n == INT64_MIN then PUndefined
    else PString(PrintScaled(n, scale))
  }

  /** A string behind its 16-bit length. Reading past the message is undefined. */
  function VaryingValue(buf: seq<byte>, at: nat): PhpValue
    requires at + 2 <= |buf|
  {
    var len := Unsigned(buf[at..at + 2]);
    if at + 2 + len <= |buf| then PString(Octets(buf[at + 2..at + 2 + len])) else PUndefined
  }

  /** `var_zval`, blobs as identifiers. */
  function VarValue(buf: seq<byte>, col: Column): PhpValue
    requires col.Fits(|buf|)
  {
    var at := col.offset;
    if Signed(buf[col.nullOffset..col.nullOffset + 2]) != 0 then PNull
    else
      match col.sqlType
      case SqlVarying => VaryingValue(buf, at)
      case SqlText => PString(Octets(buf[at..at + col.length]))
      case SqlBoolean => PBool(buf[at] != 0)
      case SqlBlob => Widths(); PBlobId(Unsigned(buf[at..at + 8]))
      case _ =>
        SignedRange(buf[at..at + col.Size()]);
        IntegerValue(Signed(buf[at..at + col.Size()]), col.scale)
  }

  lemma SignedRange(bs: seq<byte>)
    requires |bs| == 2 || |bs| == 4 || |bs| == 8
    ensures INT64_MIN <= Signed(bs) <= INT64_MAX
  {
    Widths();
  }
}
