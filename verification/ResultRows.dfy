/** Result rows: unique column keys made from aliases, and rows filled through the table's internal pointer. */
module ResultRows {
  import opened MachineTypes
  import opened NumericText
  import opened ScaledPrinter
  import opened Messages
  import opened ParameterCodec
  import opened BlobStream

  /* ----- Candidate keys of one alias ----- */

  /** `snprintf` with "%s_%02d". */
  function Suffixed(base: PhpString, i: nat): (s: PhpString)
    ensures |s| >= |base| + 3
  {
    base + "_" + ZeroPadded(2, i)
  }

  /** The i-th key tried. The length used is always the alias's length plus three, so an empty alias yields "FIE". */
  function Candidate(alias: PhpString, i: nat): PhpString {
    if alias == [] then Suffixed("FIELD", i)[..3]
    else if i == 0 then alias
    else Suffixed(alias, i)[..|alias| + 3]
  }

  /** A string the symbol table treats as an integer key. */
  predicate IsIndexText(s: PhpString) {
    var digits := if s != [] && s[0] == '-' then s[1..] else s;
    && digits != [] && AllDigits(digits)
    && (digits[0] == '0' ==> s == "0")
    && Val(digits) <= (if s[0] == '-' then INT64_MAX + 1 else INT64_MAX)
  }

  /** The symbol-table lookup: integer-like names are looked up by index, where nothing is ever stored. */
  predicate Found(keys: seq<PhpString>, key: PhpString) {
    !IsIndexText(key) && key in keys
  }

  ghost predicate Insertable(keys: seq<PhpString>, alias: PhpString) {
    exists i :: 0 <= i < 100 && !Found(keys, Candidate(alias, i))
  }

  /** The first candidate not found, counting from `i`. */
  ghost function LeastFree(keys: seq<PhpString>, alias: PhpString, i: nat): (k: nat)
    requires exists j :: i <= j < 100 && !Found(keys, Candidate(alias, j))
    ensures i <= k < 100 && !Found(keys, Candidate(alias, k))
    ensures forall m :: i <= m < k ==> Found(keys, Candidate(alias, m))
    decreases 100 - i
  {
    if !Found(keys, Candidate(alias, i)) then i else LeastFree(keys, alias, i + 1)
  }

  ghost function KeyFor(keys: seq<PhpString>, alias: PhpString): PhpString
    requires Insertable(keys, alias)
  {
    Candidate(alias, LeastFree(keys, alias, 0))
  }

  /** The keys made for a list of aliases, or `None` if inserting one of them never ends. */
  ghost function Keys(aliases: seq<PhpString>): Option<seq<PhpString>> {
    if aliases == [] then Some([])
    else
      var n := |aliases| - 1;
      match Keys(aliases[..n])
      case None => None
      case Some(keys) => if Insertable(keys, aliases[n]) then Some(keys + [KeyFor(keys, aliases[n])]) else None
  }

  /* ----- The statement's output side ----- */

  datatype Key = Name(s: PhpString) | Index(i: int)

  datatype FetchError = NoFetchMethod | BlobUnread(error: BlobError)

  type Row = seq<(Key, PhpValue)>

  const FETCH_BLOB_TEXT := 1
  const FETCH_INDEXED := 16
  const FETCH_HASHED := 32

  predicate HasFlag(flags: nat, flag: nat)
    requires flag > 0
  {
    flags / flag % 2 == 1
  }

  /** How blobs are read: as text or not, what the server stores, and which columns it answers for. */
  datatype BlobReads = BlobReads(asText: bool, stored: map<BlobId, PhpString>, answers: seq<bool>)

  /** The value of one column: with the text flag, a blob's text in place of its identifier. */
  function CellValue(buf: seq<byte>, cols: seq<Column>, blobs: BlobReads, j: nat): (r: Result<PhpValue, FetchError>)
    requires j < |cols| && cols[j].Fits(|buf|) && j < |blobs.answers|
    ensures r.Err? ==> r.error.BlobUnread?
  {
    var v := VarValue(buf, cols[j]);
    if !v.PBlobId? || !blobs.asText then Ok(v)
    else match BlobText(blobs.stored, v.id, blobs.answers[j])
      case Ok(text) => Ok(PString(text))
      case Err(e) => Err(BlobUnread(e))
  }

  predicate Decodable(buf: seq<byte>, cols: seq<Column>, blobs: BlobReads) {
    (forall i :: 0 <= i < |cols| ==> cols[i].Fits(|buf|)) && |cols| == |blobs.answers|
  }

  /** The first n column values in order, or the error of the first column that has none. */
  function Values(buf: seq<byte>, cols: seq<Column>, blobs: BlobReads, n: nat): (r: Result<seq<PhpValue>, FetchError>)
    requires Decodable(buf, cols, blobs) && n <= |cols|
    ensures r.Ok? ==> |r.value| == n
    ensures r.Err? ==> r.error.BlobUnread?
  {
    if n == 0 then Ok([])
    else match Values(buf, cols, blobs, n - 1)
      case Err(e) => Err(e)
      case Ok(vs) =>
        match CellValue(buf, cols, blobs, n - 1)
        case Err(e) => Err(e)
        case Ok(v) => Ok(vs + [v])
  }

  function Paired(keys: seq<Key>, values: seq<PhpValue>): Row
    requires |keys| == |values|
  {
    seq(|keys|, i requires 0 <= i < |keys| => (keys[i], values[i]))
  }

  function Assembled(keys: seq<Key>, values: Result<seq<PhpValue>, FetchError>): Result<Row, FetchError>
    requires values.Ok? ==> |values.value| == |keys|
  {
    match values
    case Err(e) => Err(e)
    case Ok(vs) => Ok(Paired(keys, vs))
  }

  function Names(keys: seq<PhpString>): seq<Key> {
    seq(|keys|, i requires 0 <= i < |keys| => Name(keys[i]))
  }

  function Indices(n: nat): seq<Key> {
    seq(n, i requires 0 <= i < n => Index(i))
  }

  class OutputStatement {
    const outVars: seq<Column>
    const aliases: seq<PhpString>
    const outBuffer: array<byte>
    var htAliases: Option<seq<PhpString>>
    var htInd: Option<nat>

    constructor (outVars: seq<Column>, aliases: seq<PhpString>, messageLength: nat)
      requires |aliases| == |outVars| && Layout(outVars, messageLength)
      ensures this.outVars == outVars && this.aliases == aliases && Valid() && htAliases == None && htInd == None
      ensures fresh(outBuffer) && outBuffer[..] == seq(messageLength, _ => 0)
    {
      this.outVars, this.aliases := outVars, aliases;
      outBuffer := new byte[messageLength](_ => 0);
      htAliases, htInd := None, None;
    }

    /** A cached table is the one the aliases give. */
    ghost predicate Valid()
      reads this
    {
      && |aliases| == |outVars|
      && (forall i :: 0 <= i < |outVars| ==> outVars[i].Fits(outBuffer.Length))
      && (htAliases.Some? ==> Keys(aliases) == htAliases && |htAliases.value| == |aliases|)
      && (htInd.Some? ==> htInd.value == |outVars|)
    }

    method InsertAlias(alias: PhpString)
      requires htAliases.Some? && Insertable(htAliases.value, alias)
      modifies this`htAliases
      ensures htAliases == Some(old(htAliases.value) + [KeyFor(old(htAliases.value), alias)])
    {
      hide Suffixed, Found;
      var table := htAliases.value;
      var i, base := 0, "FIELD";
      var key := alias;
      if alias != [] {
        i := 1;
        base := alias;
      } else {
        key := Suffixed(base, i)[..|alias| + 3];
        i := i + 1;
      }
      ghost var least := LeastFree(table, alias, 0);
      while Found(table, key)
        invariant 1 <= i <= least + 1
        invariant key == Candidate(alias, i - 1)
        invariant base == if alias == [] then "FIELD" else alias
        decreases least + 1 - i
      {
        key := Suffixed(base, i)[..|alias| + 3];
        i := i + 1;
      }
      htAliases := Some(table + [key]);
    }

    method AllocHtAliases()
      requires Valid() && htAliases == None && Keys(aliases).Some?
      modifies this`htAliases
      ensures Valid() && htAliases == Keys(aliases)
    {
      hide KeyFor, Insertable, Candidate, Found;
      htAliases := Some([]);
      var index := 0;
      while index < |aliases|
        invariant index <= |aliases|
        invariant htAliases.Some? && Keys(aliases[..index]) == htAliases && |htAliases.value| == index
      {
        assert aliases[..index + 1][..index] == aliases[..index];
        KeysOfPrefix(aliases, index + 1);
        InsertAlias(aliases[index]);
        index := index + 1;
      }
      assert aliases[..index] == aliases;
    }

    /**
     Rows are written through the table's internal pointer, which moves once a column. A blob whose text
     cannot be fetched ends the row. `answers[j]` says whether the server answers for column j.
     */
    method OutputBufferToArray(flags: nat, server: BlobServer, answers: seq<bool>) returns (r: Result<Row, FetchError>)
      requires Valid() && |answers| == |outVars|
      requires HasFlag(flags, FETCH_HASHED) ==> Keys(aliases).Some?
      modifies this`htAliases, this`htInd
      ensures Valid()
      ensures var blobs := BlobReads(HasFlag(flags, FETCH_BLOB_TEXT), server.stored, answers);
              r == if HasFlag(flags, FETCH_HASHED) then HashedRow(outBuffer[..], outVars, aliases, blobs)
                   else if HasFlag(flags, FETCH_INDEXED) then IndexedRow(outBuffer[..], outVars, blobs)
                   else Err(NoFetchMethod)
      ensures r == Err(NoFetchMethod) <==> flags / 16 % 2 == 0 && flags / 32 % 2 == 0
      ensures r.Ok? ==>
                var blobs := BlobReads(flags % 2 == 1, server.stored, answers);
                && |r.value| == |outVars|
                && forall j :: 0 <= j < |outVars| ==>
                     && HoldsColumn(r.value, j, outBuffer[..], outVars, blobs)
                     && (flags / 32 % 2 == 0 ==> r.value[j].0 == Index(j))
                     && (flags / 32 % 2 == 1 ==>
                           |Keys(aliases).value| == |outVars| && r.value[j].0 == Name(Keys(aliases).value[j]))
    {
      hide VarValue, Values, HoldsColumn;
      var keys: seq<Key> := [];
      if HasFlag(flags, FETCH_HASHED) {
        if htAliases == None {
          AllocHtAliases();
        }
        keys := Names(htAliases.value);
      } else if HasFlag(flags, FETCH_INDEXED) {
        if htInd == None {
          htInd := Some(|outVars|);
        }
        keys := Indices(htInd.value);
      } else {
        return Err(NoFetchMethod);
      }

      r := FillRow(keys, HasFlag(flags, FETCH_BLOB_TEXT), server, answers);
      ghost var blobs := BlobReads(flags % 2 == 1, server.stored, answers);
      forall j | 0 <= j < |outVars| && r.Ok?
        ensures |r.value| == |outVars| && HoldsColumn(r.value, j, outBuffer[..], outVars, blobs)
        ensures flags / 32 % 2 == 1 ==>
                  |Keys(aliases).value| == |outVars| && r.value[j].0 == Name(Keys(aliases).value[j])
      {
        RowHoldsColumns(outBuffer[..], outVars, aliases, blobs, j);
      }
    }

    /** The loop over the columns of a copy of the key table. */
    method FillRow(keys: seq<Key>, asText: bool, server: BlobServer, answers: seq<bool>)
      returns (r: Result<Row, FetchError>)
      requires Valid() && |answers| == |keys| == |outVars|
      ensures r == Assembled(keys, Values(outBuffer[..], outVars, BlobReads(asText, server.stored, answers), |outVars|))
    {
      hide VarValue, CellValue, HashedRow, IndexedRow;
      ghost var buf, blobs := outBuffer[..], BlobReads(asText, server.stored, answers);
      ghost var values: seq<PhpValue> := [];
      var hash: Row := Paired(keys, seq(|keys|, _ => PNull));
      var pointer := 0;
      for index := 0 to |outVars|
        invariant pointer == index == |values| && |hash| == |outVars|
        invariant Values(buf, outVars, blobs, index) == Ok(values)
        invariant forall j :: 0 <= j < |hash| ==> hash[j].0 == keys[j]
        invariant forall j :: 0 <= j < index ==> hash[j].1 == values[j]
      {
        var value := VarZval(index, asText, server, answers);
        if value.Err? {
          ValuesStop(buf, outVars, blobs, index);
          return Err(value.error);
        }
        values := values + [value.value];
        hash := hash[pointer := (hash[pointer].0, value.value)];
        pointer := pointer + 1;
      }
      assert hash == Paired(keys, values);
      r := Ok(hash);
    }

    /** `var_zval` with its flags. */
    method VarZval(index: nat, asText: bool, server: BlobServer, answers: seq<bool>)
      returns (r: Result<PhpValue, FetchError>)
      requires Valid() && |answers| == |outVars| && index < |outVars|
      ensures r == CellValue(outBuffer[..], outVars, BlobReads(asText, server.stored, answers), index)
    {
      var v := VarValue(outBuffer[..], outVars[index]);
      if !v.PBlobId? || !asText {
        return Ok(v);
      }
      var text := GetBlobContents(server, v.id, answers[index]);
      r := if text.Ok? then Ok(PString(text.value)) else Err(BlobUnread(text.error));
    }
  }

  /** The row of `fetch_array`. */
  ghost function HashedRow(buf: seq<byte>, cols: seq<Column>, aliases: seq<PhpString>, blobs: BlobReads)
    : Result<Row, FetchError>
    requires Decodable(buf, cols, blobs)
    requires Keys(aliases).Some? && |aliases| == |cols|
  {
    KeysLength(aliases);
    Assembled(Names(Keys(aliases).value), Values(buf, cols, blobs, |cols|))
  }

  /** The row of `fetch_row`. */
  function IndexedRow(buf: seq<byte>, cols: seq<Column>, blobs: BlobReads): Result<Row, FetchError>
    requires Decodable(buf, cols, blobs)
  {
    Assembled(Indices(|cols|), Values(buf, cols, blobs, |cols|))
  }

  /** A column without a value decides the whole row. */
  lemma {:induction false} ValuesStop(buf: seq<byte>, cols: seq<Column>, blobs: BlobReads, j: nat)
    requires Decodable(buf, cols, blobs) && j < |cols|
    requires Values(buf, cols, blobs, j).Ok? && CellValue(buf, cols, blobs, j).Err?
    ensures Values(buf, cols, blobs, |cols|) == Err(CellValue(buf, cols, blobs, j).error)
  {
    ValuesStopAt(buf, cols, blobs, j, |cols|);
  }

  lemma {:induction false} ValuesStopAt(buf: seq<byte>, cols: seq<Column>, blobs: BlobReads, j: nat, n: nat)
    requires Decodable(buf, cols, blobs) && j < n <= |cols|
    requires Values(buf, cols, blobs, j).Ok? && CellValue(buf, cols, blobs, j).Err?
    ensures Values(buf, cols, blobs, n) == Err(CellValue(buf, cols, blobs, j).error)
    decreases n
  {
    if j < n - 1 {
      ValuesStopAt(buf, cols, blobs, j, n - 1);
    }
  }

  lemma {:induction false} ValuesAt(buf: seq<byte>, cols: seq<Column>, blobs: BlobReads, n: nat)
    requires Decodable(buf, cols, blobs) && n <= |cols|
    ensures Values(buf, cols, blobs, n).Ok? <==> forall j :: 0 <= j < n ==> CellValue(buf, cols, blobs, j).Ok?
    ensures Values(buf, cols, blobs, n).Ok? ==>
              forall j :: 0 <= j < n ==> CellValue(buf, cols, blobs, j) == Ok(Values(buf, cols, blobs, n).value[j])
  {
    hide CellValue;
    if n > 0 {
      ValuesAt(buf, cols, blobs, n - 1);
    }
  }

  /**
   Row entry j holds the value decoded from column j, except that a blob wanted as text is replaced by
   the text stored under its identifier, cut to its length in 32 bits.
   */
  ghost predicate HoldsColumn(row: Row, j: nat, buf: seq<byte>, cols: seq<Column>, blobs: BlobReads)
    requires j < |row| && j < |cols| && cols[j].Fits(|buf|)
  {
    var v, cell := VarValue(buf, cols[j]), row[j].1;
    if v.PBlobId? && blobs.asText then
      && v.id in blobs.stored
      && var text := blobs.stored[v.id];
         var n := |text| % 0x1_0000_0000;
         n < 0x8000_0000 && cell == PString(text[..n]) && (|text| < 0x8000_0000 ==> cell == PString(text))
    else cell == v
  }

  /** Every entry of a complete row, hashed or indexed, holds its own column. */
  lemma RowHoldsColumns(buf: seq<byte>, cols: seq<Column>, aliases: seq<PhpString>, blobs: BlobReads, j: nat)
    requires Decodable(buf, cols, blobs) && |aliases| == |cols| && j < |cols|
    ensures var indexed := IndexedRow(buf, cols, blobs);
            indexed.Ok? ==> |indexed.value| == |cols| && HoldsColumn(indexed.value, j, buf, cols, blobs)
                            && indexed.value[j].0 == Index(j)
    ensures Keys(aliases).Some? ==>
              var hashed := HashedRow(buf, cols, aliases, blobs);
              hashed.Ok? ==> |hashed.value| == |cols| && HoldsColumn(hashed.value, j, buf, cols, blobs)
                             && |Keys(aliases).value| == |cols| && hashed.value[j].0 == Name(Keys(aliases).value[j])
  {
    hide VarValue, Keys;
    ValuesAt(buf, cols, blobs, |cols|);
    if Values(buf, cols, blobs, |cols|).Ok? {
      CellHoldsColumn(buf, cols, blobs, j);
    }
    if Keys(aliases).Some? {
      KeysLength(aliases);
    }
  }

  lemma CellHoldsColumn(buf: seq<byte>, cols: seq<Column>, blobs: BlobReads, j: nat)
    requires Decodable(buf, cols, blobs) && j < |cols| && CellValue(buf, cols, blobs, j).Ok?
    ensures var v, cell := VarValue(buf, cols[j]), CellValue(buf, cols, blobs, j).value;
            if v.PBlobId? && blobs.asText then
              && v.id in blobs.stored
              && var text := blobs.stored[v.id];
                 var n := |text| % 0x1_0000_0000;
                 n < 0x8000_0000 && cell == PString(text[..n]) && (|text| < 0x8000_0000 ==> cell == PString(text))
            else cell == v
  {
    hide VarValue;
    var v := VarValue(buf, cols[j]);
    if v.PBlobId? && blobs.asText {
      var text := blobs.stored[v.id];
      assert |text| < 0x8000_0000 ==> text[..|text|] == text;
    }
  }

  /** A fetched row is complete if and only if every blob asked for as text is stored, short enough and answered for. */
  lemma RowIsComplete(buf: seq<byte>, cols: seq<Column>, blobs: BlobReads)
    requires Decodable(buf, cols, blobs)
    ensures IndexedRow(buf, cols, blobs).Ok?
            <==> forall j :: 0 <= j < |cols| && blobs.asText && VarValue(buf, cols[j]).PBlobId? ==>
                   var id := VarValue(buf, cols[j]).id;
                   blobs.answers[j] && id in blobs.stored && |blobs.stored[id]| % 0x1_0000_0000 < 0x8000_0000
  {
    hide VarValue;
    ValuesAt(buf, cols, blobs, |cols|);
    if IndexedRow(buf, cols, blobs).Ok? {
      forall j | 0 <= j < |cols| && blobs.asText && VarValue(buf, cols[j]).PBlobId?
        ensures var id := VarValue(buf, cols[j]).id;
                blobs.answers[j] && id in blobs.stored && |blobs.stored[id]| % 0x1_0000_0000 < 0x8000_0000
      {
        assert CellValue(buf, cols, blobs, j).Ok?;
      }
    }
  }

  lemma {:induction false} KeysOfPrefix(aliases: seq<PhpString>, n: nat)
    requires Keys(aliases).Some? && n <= |aliases|
    ensures Keys(aliases[..n]).Some?
  {
    if n < |aliases| {
      assert aliases[..|aliases| - 1][..n] == aliases[..n];
      KeysOfPrefix(aliases[..|aliases| - 1], n);
    } else {
      assert aliases[..n] == aliases;
    }
  }

  lemma {:induction false} KeysLength(aliases: seq<PhpString>)
    requires Keys(aliases).Some?
    ensures |Keys(aliases).value| == |aliases|
  {
    if aliases != [] {
      KeysLength(aliases[..|aliases| - 1]);
    }
  }
}
