# Verified model of the Firebird extension's data and state handling

The extension sits between PHP programs and the Firebird client library. Most of it forwards calls. This
project models the parts that compute or remember something: how PHP arguments become bytes of a message and
how messages become PHP values again, how rows are shaped and fetched, how handles, objects and transactions
live and die, and a handful of small codecs. `dafny verify dfyconfig.toml` checks all of it.

| module | what it holds |
|---|---|
| `MachineTypes`, `LittleEndian` | C integer conversions, truncating division, two's-complement bytes of any width |
| `NumericText`, `NumericParser`, `ParserTheorems` | the decimal parser with its 64-bit wrap-around, what its verdict means |
| `ScaledPrinter`, `NumeralEcho` | the scaled-integer printer, and which strings keep their value through a column |
| `NumeralVerdicts` | which decimal strings a scaled column accepts, and how it refuses the others |
| `Messages`, `ParameterCodec`, `CodecTheorems` | message layouts, `bind`, `var_zval`, round trips and framing |
| `BindMeaning` | what arrives for each kind of argument, and which arguments are accepted |
| `BlobStream`, `BlobIdText` | blob position bookkeeping, whole-string helpers, text form of identifiers |
| `ResultRows`, `AliasTheorems` | unique column keys, hashed and indexed rows |
| `FetchProtocol`, `FetchOutcomes`, `DeliveredRows` | the PHP-side flags over the C++ cursor pointer, what each call returns, which rows arrive |
| `TransactionLifecycle`, `TransactionRuns` | one transaction wrapper, and runs over many of them |
| `ShownNumbers` | the number a transaction object shows, against the transaction it holds |
| `HandleTables`, `RegistryRuns` | the two-level handle registry, and runs of calls on it |
| `Ownership`, `OwnershipProof`, `SlotLeaks` | the objects that own handles, and slots that no object will release |
| `InfoReplies`, `ReplyConverse` | user lists and record counters, and that nothing but encodings is accepted |
| `TransactionBuilder` | transaction parameter buffers |

Code that changes state is a class or a method with loops, proved against a function that says what it
computes; the lemmas are about those functions. A statement of the source appears as four classes, one for each
group of fields that change together: `ParameterCodec.Statement` (input message), `ResultRows.OutputStatement`
(output message and key tables), `FetchProtocol.Statement` (flags and cursor), `InfoReplies.StatementInfo`
(counters).

What the model takes from outside:

- The server is a parameter. Any call may fail. Executing SQL on a transaction returns the same handle, none if
  the SQL ended the transaction, or a fresh one only when none was passed. A failing execute or fetch leaves the
  output message alone. A blob read returns as much as there is, seeks are clamped to the data, a blob is either
  read or written, and a created blob gets an identifier that no stored blob has. A transaction is reconnected
  only if it is prepared and no wrapper holds it.
- Message metadata puts every column in bounds with no byte owned twice, scales between -18 and 0, and VARCHAR
  lengths below 65536.
- Integers of a message are little-endian, PHP integers have 64 bits, PHP strings are byte strings.
- A PHP object is destroyed when nothing holds it: its `free_obj` runs first, then its properties are let go.

## What the proofs found in the code

The code is modelled as it is. Where a natural promise fails, the model shows an input and states exactly when
the promise holds.

- The overflow test of the decimal parser compares after wrapping to 64 bits. "2000000000000000000" bound to a
  64-bit column of scale -1 is stored as 1553255926290448384; every scale from -18 to -1 has such numerals
  (`EscapesDetection`, `OutOfRangeIsStored`). At each of these scales the verdict is right for every numeral of n
  digits, padding included, if and only if n <= 19 (`DigitBudget`). A single numeral is judged right whenever its
  scaled magnitude is below 2^64 (`UnwrappedVerdictIsRight`), and up to ten times the bound if and only if it is
  below 2^64 or still too large after wrapping (`OnceComparedVerdict`). In general it is right if and only if the
  numeral is in range, or its value, reduced modulo 2^64 each time it passes the bound, is at some time still above
  the bound (`VerdictExactly`). For 16- and 32-bit columns the verdict is always right.
- `bind` ignores the exponent the parser returns. "1.239" bound to a scale -2 column reads "12.39"
  (`TooManyDigits`). An accepted numeral keeps its value if and only if its scaled magnitude is in range (so
  nothing wrapped), it is zero or has no more fraction digits than the column, and the stored integer is not the
  smallest 64-bit one (`NumeralRoundTrip`).
- The parser asks for no digit: a lone sign, a lone point and the empty string are numerals with the value 0
  (`NumeralShape`, `DecimalVerdict`).
- A PHP integer bound to a scaled column is stored as the scaled integer itself, so 5 bound to a scale -2 column
  reads "0.05" while the string "5" reads "5.00" (`IntegerRoundTrip`).
- The printer negates its argument, which C does not define for the smallest 64-bit integer. The model decodes
  that one integer to `PUndefined`.
- The comment in `insert_alias` names the key `FIELD` for an empty alias, but its length is computed from the
  alias, so the key is "FIE". A second empty alias, and a 101st copy of one alias, make the loop run forever
  (`EmptyAlias`, `AliasBudget`). A repeated integer-like alias is not noticed at all (`KeysDistinct`).
- A row of `fetch_array` stores every alias as text, while PHP looks an integer-like name up as an integer. Such a
  column is never found by its name; every other column is, whatever the aliases (`LookupByName`).
- Executing a SELECT again while its cursor is open goes on delivering the old rows (`ExecutionIsDelivered`).
- A fetch after `close_cursor` reads through a null pointer, even when the statement was executed again in
  between (`CrashExactly`).
- A fetch whose row cannot be converted, because the text of a blob cannot be read, has already moved on: the row
  is lost. Rows are delivered completely if and only if no conversion failed (`FetchesConserve`, `RunDelivers`).
- A bound statement without a cursor returns one row even if it was never executed. If the information calls
  after an execute fail, the execute fails but its row is there for the next fetch, and a row already fetched is
  not offered again (`SimulatedFetch`).
- Preparing a transaction object that holds no transaction reads through a null pointer, and nothing else on these
  objects does (`PrepareCrashesExactly`).
- The prepared flag of a transaction object is never cleared. An object that prepared and committed one
  transaction leaves its next one active when it is destroyed (`StalePreparedFlag`).
- A transaction object often shows the wrong number. A reconnected object reads the number of the wrapper its
  constructor made, so it shows 0 (`ReconnectedShowsNothing`). After `commit()` or `rollback()` an object goes on
  showing the ended transaction (`CommittedShowsOldNumber`); SQL text that ends it clears the number. A start whose
  information call failed leaves the earlier number. `ShownNumberExactly` says in which cases the number is right.
- A reconnect whose information call fails loses the wrapper that holds the transaction: no object and no destructor
  will end it (the stray wrappers of `TransactionRuns`).
- Two things leave a live transaction slot without an object to release it: reconnecting, which makes two slots
  and keeps one, and destroying an object whose prepared flag is set. Nothing else does, and only the release of
  the database ends it (`LeakedExactly`).
- A blob object keeps its position when it opens or creates another blob, so reads stop early by that much. A
  created blob whose information call failed is open but not writable (`Blob.Open`, `Blob.Create`), and a created
  blob that is never closed is kept when the object goes (`Blob.Destruct`).
- A string of 2^31 bytes or more does not survive being stored as a blob and read back (`StringRoundTrip`).
- The two branches that print a blob identifier put its words in opposite order (`BranchesAgree`). ISC_QUAD has
  eight bytes on every platform, so the second branch never runs.
- A snapshot number above 2147483647 is truncated on its way to the server (`BuilderIsFaithful`).

## Model

| member | source | states |
|---|---|---|
| NumericParser.StringToNumeric | firebird_utils.cpp:274-326 | The parser reports, for every string, scale and bound: overflow when some prefix of the digits (padding included) exceeds the bound modulo 2^64 before any bad character, error for a string that is no numeral, else sign, exponent and the magnitude modulo 2^64; the empty string is zero with sign 0 |
| NumericParser.ReadDigits | firebird_utils.cpp:296-316 | The reading loop ends early exactly for an overflow within the longest well-formed prefix or for a character that breaks the numeral; otherwise its variables hold the value, the fraction count and the scale still to be padded |
| NumericParser.PadZeros | firebird_utils.cpp:318-323 | The padding loop multiplies by ten up to the column's scale and finds every overflow of the padded digit string |
| NumeralVerdicts.NumeralShape | firebird_utils.cpp:296-313 | A numeral without its sign is digits alone or digits around one point, either side possibly empty, and nothing else |
| NumeralVerdicts.DecimalOf | firebird_utils.cpp:273-326 | A signed numeral with a point denotes its digits over ten to the number of digits after the point, under its sign |
| NumeralVerdicts.DecimalVerdict | fbp/statement.cpp:203-229 | Bind refuses a decimal string for its form if and only if it is no numeral and no beginning of it passes the limit modulo 2^64, for its range if and only if a beginning or the padded numeral passes it, and accepts it otherwise |
| NumeralVerdicts.OnlyNumeralsAccepted | fbp/statement.cpp:213-227 | Every string a scaled column accepts is a numeral |
| NumeralVerdicts.NarrowPasses | firebird_utils.cpp:294-315 | In 16- and 32-bit columns a beginning passes the limit modulo 2^64 if and only if it passes it in true value |
| ParserTheorems.InRangeIsExact | firebird_utils.cpp:294-325 | Every well-formed numeral whose scaled magnitude is within the bound is accepted with that exact magnitude, at all three bounds, however many leading zeros it has |
| ParserTheorems.NarrowVerdictIsRight | firebird_utils.cpp:294-323 | For the 16- and 32-bit bounds overflow is reported if and only if the scaled magnitude is out of range |
| ParserTheorems.UnwrappedVerdictIsRight | firebird_utils.cpp:294-323 | At any bound the verdict is right for every numeral whose scaled magnitude is below 2^64, however many digits it has |
| ParserTheorems.ShortVerdictIsRight | firebird_utils.cpp:294-323 | For the 64-bit bound the same holds for numerals of at most 19 digits, padding included |
| ParserTheorems.OnceComparedVerdict | firebird_utils.cpp:294-323 | For magnitudes up to ten times the bound plus nine, the verdict is right if and only if the magnitude is below 2^64 or still above the bound modulo 2^64 |
| ParserTheorems.VerdictExactly | firebird_utils.cpp:294-323 | On any well-formed numeral, at any scale and signed bound, the verdict is right if and only if the magnitude is in range or some value on the way, reduced modulo 2^64 whenever it passes the bound, is still above the bound |
| ParserTheorems.EscapesDetection | fbp/statement.cpp:203-211 | At every scale from -18 to -1 a family of numerals, behind any number of leading zeros, that the 64-bit test accepts although they are out of range |
| ParserTheorems.DigitBudget | fbp/statement.cpp:203-211 | At every scale from -18 to -1 the 64-bit verdict is right for all numerals of n scaled digits if and only if n is at most 19 |
| ParserTheorems.ParsedValue | firebird_utils.cpp:273-326 | An accepted numeral denotes sign times result times ten to the exponent, and the exponent is the column's scale when there are at most that many fraction digits |
| ScaledPrinter.PrintedText | fbp/statement.cpp:684-697 | All three sign cases print sign, quotient, point and zero-padded remainder of the magnitude |
| ScaledPrinter.PrintedIsCanonical | fbp/statement.cpp:684-697 | The printed text is canonical: no spare leading zero, no minus zero, exactly as many fraction digits as the scale asks |
| ScaledPrinter.ParsePrinted | fbp/statement.cpp:684-697 | Parsing printed text gives the integer back, with the column's scale as exponent and no overflow, for every integer within the bound |
| ScaledPrinter.PrintedDecimal | fbp/statement.cpp:503-519 | The printed text denotes the integer times ten to the scale, whatever entry of the divisor table is used |
| ScaledPrinter.CanonicalIsPrinted | fbp/statement.cpp:684-697 | Printing what a canonical text parses to gives that text back, so each value has one text |
| LittleEndian.StorePortableInteger | firebird_php.cpp:535-540 | The writer stores the low bytes of the value, least significant first, and touches no other byte |
| LittleEndian.SignedRoundTrip | fbp/statement.cpp:328-336 | A value in two's-complement range of the width is read back from its bytes |
| LittleEndian.UnsignedRoundTrip | firebird_php.cpp:535-540 | A value below 256 to the width is read back from its bytes |
| LittleEndian.BytesOfSigned | firebird_php.cpp:535-540 | Storing the integer read from bytes gives these bytes back, so bytes and integers of a width correspond one to one |
| BlobIdText.ScanPrinted | blob.cpp:366-391 | Every 64-bit number prints as 18 characters that scan back to it, whatever follows the digits |
| BlobIdText.ScanAccepts | blob.cpp:377-391 | A text names an identifier if and only if it begins with "0x" and a hexadecimal digit |
| BlobIdText.ScanReads | blob.cpp:377-391 | All hexadecimal digits after "0x" count, up to the largest 64-bit number, whatever follows them |
| BlobIdText.HexDigits | blob.cpp:377-391 | The hexadecimal digits are 0 to 9 and a to f in both cases, and nothing else |
| BlobIdText.IdentifierRoundTrip | blob.cpp:366-391 | Every identifier survives text and back, in the branch in use and in the other one |
| BlobIdText.BranchesAgree | blob.cpp:366-391 | The two branches print the same text if and only if both words of the identifier are equal |
| BlobIdText.TextIsInjective | blob.cpp:366-375 | Equal texts name equal identifiers |
| BlobStream.Blob.Create | fbp/blob.cpp:41-49 | A created blob is empty, writable and known by the server's identifier; its bookkeeping agrees with the stream exactly if the object's position was zero. A failing information call leaves the blob open and its identifier known, but not writable |
| BlobStream.Blob.Open | fbp/blob.cpp:51-59 | Opening works exactly for stored blobs with a working information call, and puts client and server at the same place if and only if the object's position was zero; a failing information call leaves the blob open under the old bookkeeping |
| BlobStream.Blob.GetContents | fbp/blob.cpp:61-89 | When each outcome occurs, for any state of the object. A get returns a string of the length asked for, or of the length it believes remains, which begins with what the server has at its place; after an open from position zero that is exactly the next slice, and both sides move past it |
| BlobStream.Blob.Get | blob.cpp:88-113 | A get by a PHP program, whose length is cut to 32 bits, returns the slice from the current place and moves both sides past it |
| BlobStream.Blob.PutContents | fbp/blob.cpp:91-100 | A put appends the bytes given, in any state; position and length both grow by their number in 32 bits, and keep counting all bytes put if they did before |
| BlobStream.Blob.Close | fbp/blob.cpp:148-153 | Closing a written blob makes its text readable under its identifier, closing a read one changes nothing on the server, a failed close changes nothing |
| BlobStream.Blob.Cancel | fbp/blob.cpp:155-160 | Cancelling drops the blob and leaves no trace on the server |
| BlobStream.Blob.Destruct | fbp/blob.cpp:19-35 | Destroying an object closes what is open, so an unclosed created blob is kept if the server accepts |
| BlobStream.Blob.Seek | fbp/blob.cpp:162-166 | A seek moves client and server to the same clamped place and keeps them in agreement |
| BlobStream.CreateBlobFromString | fbp/transaction.cpp:196-206 | The server ends up with the string, cut to its length modulo 2^32, under the identifier returned; on failure nothing is stored |
| BlobStream.GetBlobContents | fbp/transaction.cpp:184-194 | The stored text, if its length fits a signed 32-bit integer; what happens otherwise |
| BlobStream.StringRoundTrip | fbp/transaction.cpp:184-206 | A string comes back from create and fetch if and only if it is shorter than 2^31 bytes |
| BlobStream.StoreAndFetch | fbp/transaction.cpp:184-206 | Creating a blob from a string and getting its contents returns the string if and only if it is shorter than 2^31 bytes |
| BlobStream.GetsJoin | fbp/blob.cpp:61-89 | The results of any number of gets of any sizes join to exactly the slice between the first and the last place |
| BlobStream.RewindReadsAll | fbp/blob.cpp:61-166 | After any run of gets and seeks, rewinding and one get return the whole blob, if the length asked for is, in 32 bits, unlimited or large enough |
| Messages.WriteAllHolds | fbp/statement.cpp:103-119 | After a message is written column by column, every column still holds its own data or null flag |
| Messages.WriteAllFrame | fbp/statement.cpp:103-119 | No byte outside the written columns changes |
| Messages.WriteKeeps | fbp/statement.cpp:322-388 | Writing one column never disturbs what another column holds |
| ParameterCodec.Statement.Bind | fbp/statement.cpp:85-448 | A bind refuses a wrong argument count without any write; otherwise it converts arguments in order and stops at the first one that cannot be converted, leaving exactly the message and the blobs of the arguments before it, plus that column's cleared null flag |
| ParameterCodec.Statement.BindColumn | fbp/statement.cpp:106-388 | One argument: its column's bytes and null flag become those of the converted value, no other byte changes, a blob is stored only for text bound to a blob column |
| ParameterCodec.ConvertInteger | fbp/statement.cpp:195-246 | Text goes through the parser only for scaled columns, PHP integers are taken raw and range-checked, anything else is a type error |
| CodecTheorems.StoredInRange | fbp/statement.cpp:229-246 | An accepted integer is within the column's two's-complement range, so the narrowing stores lose nothing |
| CodecTheorems.DecodeHeld | fbp/statement.cpp:498-702 | A column that holds an accepted argument's bytes decodes to null for null, the same integer at scale 0, the printed scaled integer otherwise, the blank-padded text for CHAR, the same text for VARCHAR, the same boolean or identifier |
| BindMeaning.StringArrives | fbp/statement.cpp:253-260 | A string bound to a VARCHAR column arrives as the same string, to a CHAR column as the string and blanks up to its length |
| BindMeaning.TextArrives | fbp/statement.cpp:253-260 | Null arrives as null; any other value bound to a text column arrives as its PHP text: "1" or "" for booleans, for an integer the digits that denote it without a spare zero, for a blob identifier 18 characters that name it |
| BindMeaning.ValueArrives | fbp/statement.cpp:322-371 | Booleans, blob identifiers and unscaled integers arrive as they were bound |
| BindMeaning.BlobTextArrives | fbp/statement.cpp:347-358 | Any value bound to a blob column as text arrives as an identifier under which its PHP text is stored, and is fetched if and only if shorter than 2^31 bytes |
| BindMeaning.BlobStringArrives | fbp/statement.cpp:347-358 | A string bound to a blob column arrives as an identifier under which exactly that string is fetched, if and only if it is shorter than 2^31 bytes |
| BindMeaning.AcceptedExactly | fbp/statement.cpp:127-260 | Which arguments a column accepts: booleans for BOOLEAN, integers in the type's range, texts no longer than the column, identifiers or storable texts for blobs; and with which error it refuses the others |
| BindMeaning.IntegerTextDenotes | fbp/statement.cpp:253 | The text of an integer is a numeral that denotes it |
| BindMeaning.OneIntegerText | fbp/statement.cpp:253 | An integer has one text |
| BindMeaning.ColumnBytes | fbp/statement.cpp:106-119 | Which bytes belong to a column, by its type |
| BindMeaning.DecodesFlag | fbp/statement.cpp:521-526 | In any message a column is null if and only if one of the two bytes of its flag is not 0, and a boolean is true if and only if its byte is not 0 |
| BindMeaning.DecodesBytes | fbp/statement.cpp:549-560 | In any message a CHAR column decodes to its bytes, a VARCHAR column to as many bytes as its length says, a blob to the identifier with its bytes |
| BindMeaning.DecodesInteger | fbp/statement.cpp:561-566 | In any message an integer column decodes to the number whose bytes stand there, or to the one canonical numeral that denotes it over ten to the scale |
| CodecTheorems.BindThenDecode | fbp/statement.cpp:85-702 | After an accepted bind every column decodes to its own argument, for every layout and argument list |
| CodecTheorems.BindFrame | fbp/statement.cpp:103-448 | Bytes that belong to no column are never written, also by refused binds |
| CodecTheorems.RefusedBindBefore | fbp/statement.cpp:103-448 | A refused bind has already replaced the columns before the refused argument |
| CodecTheorems.RefusedBindFrom | fbp/statement.cpp:106-119 | From the refused argument on nothing changes but that column's null flag, which reads "not null" |
| CodecTheorems.RebindForgets | fbp/statement.cpp:85-448 | After any sequence of binds, accepted or refused, an accepted one alone decides what every column decodes to |
| CodecTheorems.BoundBlob | fbp/statement.cpp:347-358 | Later arguments of a bind do not disturb the blob stored for an earlier one |
| CodecTheorems.BlobTextRoundTrip | fbp/statement.cpp:347-358 | Text bound to a blob column decodes to an identifier under which the same text is fetched, if and only if it is shorter than 2^31 bytes |
| NumeralEcho.NumeralRoundTrip | fbp/statement.cpp:203-233 | A string accepted by a scaled column decodes to text of the same value if and only if it lost no digit to the scale, its scaled magnitude did not wrap and it is not the smallest 64-bit integer |
| NumeralEcho.TooManyDigits | fbp/statement.cpp:215-229 | "1.239" in a column of scale -2 is stored as 1239 and reads "12.39" |
| NumeralEcho.RangeCheckIsRight | fbp/statement.cpp:203-227 | Bind accepts a decimal string if and only if its scaled magnitude is in the column's range, in 16- and 32-bit columns always, in 64-bit columns below 2^64 |
| NumeralEcho.OutOfRangeIsStored | fbp/statement.cpp:203-229 | Every 64-bit column of scale -18 to -1 accepts an out-of-range numeral and stores an unrelated integer |
| NumeralEcho.IntegerRoundTrip | fbp/statement.cpp:234-243 | A PHP integer bound to a column of scale -k reads back as that integer divided by ten to the k, so it keeps its value if and only if k or the integer is 0 |
| NumeralEcho.LostDigits | firebird_utils.cpp:299-305 | A nonzero numeral with extra fraction digits can never come out right by wrapping around |
| ResultRows.OutputStatement.InsertAlias | fbp/statement.cpp:773-801 | The loop that looks for a free name ends whenever one of the first hundred names is free and appends exactly the first free one |
| ResultRows.OutputStatement.AllocHtAliases | fbp/statement.cpp:803-811 | The key table gets the keys of all columns in column order |
| ResultRows.OutputStatement.OutputBufferToArray | fbp/statement.cpp:475-496 | Every entry of a returned row holds the value decoded from its own column, or the stored text of a blob if asked for, under the column's unique key with the hashed flag and its position with the indexed one; the first column without a value ends the call with that error, and neither flag with another |
| ResultRows.OutputStatement.FillRow | fbp/statement.cpp:489-495 | Moving the table's internal pointer once a column puts value j at key j for every j, or stops at the first value that cannot be made |
| ResultRows.OutputStatement.VarZval | fbp/statement.cpp:643-650 | A blob column gives its text with the text flag and its identifier without, every other column its decoded value |
| ResultRows.RowIsComplete | fbp/statement.cpp:475-496 | A fetched row is complete if and only if every blob asked for as text is stored, has a length that fits 31 bits, and is answered for by the server |
| ResultRows.RowHoldsColumns | fbp/statement.cpp:489-495 | Entry j of a complete row, hashed or indexed, is the value decoded from column j, or the whole text stored under a blob's identifier if it is shorter than 2^31 bytes |
| AliasTheorems.LoopEnds | fbp/statement.cpp:788-796 | The lookup loop ends if and only if one of its first hundred candidates is free, because the fixed length cuts later suffixes back to earlier names |
| AliasTheorems.EmptyAlias | fbp/statement.cpp:777-795 | An empty alias gets the key "FIE" or, if that is taken, the loop never ends |
| AliasTheorems.KeyShape | fbp/statement.cpp:773-801 | A key is the alias itself or the alias with the least two-digit suffix still free |
| AliasTheorems.EachKey | fbp/statement.cpp:773-811 | Column by column: a new alias is its own key, one that is taken gets the least free two-digit suffix, an empty one "FIE" |
| AliasTheorems.IndexTextExactly | fbp/statement.cpp:788-790 | The integer-like aliases are exactly the texts PHP gives 64-bit integers |
| AliasTheorems.FewKeysInsertable | fbp/statement.cpp:788-796 | With fewer than a hundred keys in the table every non-empty alias can be inserted |
| AliasTheorems.HundredAliasesFit | fbp/statement.cpp:803-811 | Every list of at most a hundred non-empty aliases gets its keys |
| AliasTheorems.AliasBudget | fbp/statement.cpp:803-811 | All lists of n non-empty aliases get their keys if and only if n is at most 100 |
| AliasTheorems.KeysDistinct | fbp/statement.cpp:788-800 | The keys are pairwise distinct if and only if no integer-like alias occurs twice |
| AliasTheorems.LookupByName | fbp/statement.cpp:773-811 | Looking the key of column j up by name finds column j's value, or nothing if the alias is integer-like, whatever the other aliases are |
| AliasTheorems.HashedAgreesWithIndexed | fbp/statement.cpp:475-496 | Hashed and indexed fetch fail alike or hold the same value at every position; by position every column is found, by name column j is found if and only if its alias is not integer-like |
| FetchProtocol.Statement.FetchNext | fbp/statement.cpp:463-473 | The next row goes to the output message and leaves the cursor; at the end the cursor is closed and cleared; a failing call keeps it; a null cursor is dereferenced |
| FetchProtocol.Statement.Execute | statement.cpp:104-158 | One execute of any statement type with any failing call: flags, cursor and output message afterwards, also when the output was written and a later information call fails |
| FetchProtocol.Statement.Fetch | statement.cpp:317-378 | One fetch of any statement type with any failing call: the row or its absence, flags and cursor afterwards, also when the row cannot be converted |
| FetchProtocol.Statement.Close | statement.cpp:80-89 | Closing by hand clears the cursor and not the flag |
| FetchProtocol.RunAgrees | statement.cpp:324-359 | Over every run without an explicit close, whatever fails: the flag says open if and only if the cursor exists, an exhausted statement has none, and nothing crashes |
| FetchOutcomes.FetchReturns | statement.cpp:317-378 | In every run of a SELECT without an explicit close, a fetch returns the end if and only if it was returned since the last successful execute or no row is left and the calls were answered, a row if and only if it was handed over and converted, and fails otherwise |
| FetchOutcomes.FetchOutcome | statement.cpp:324-359 | The same for one fetch at any state in which flags and pointer agree |
| FetchOutcomes.AnsweredOutcome | statement.cpp:324-359 | With every call answered, fetch k returns row k, and the end exactly from the number of rows on |
| FetchOutcomes.ExecuteReturns | statement.cpp:104-158 | An execute succeeds if and only if every call its statement type makes was answered |
| FetchOutcomes.CloseReturns | statement.cpp:80-89 | The first close of a run succeeds if and only if the cursor is open and the server answers |
| FetchProtocol.FetchTakesFirst | statement.cpp:334-359 | A fetch returns the next row if and only if the server handed it over and it could be converted; a row handed over is gone either way |
| FetchProtocol.FetchesConserve | statement.cpp:324-359 | Over any fetches, whatever fails, rows handed over plus rows remaining are the rows at the start in order, the end is reported only when none is left, and all rows handed over are delivered if and only if every one of them could be converted |
| FetchProtocol.DeliveredOrLost | statement.cpp:334-359 | Over any fetches each row handed over is delivered or lost, once, and lost exactly if its conversion failed |
| FetchProtocol.ConvertibleRowsArrive | statement.cpp:334-359 | Delivered plus remaining rows are the rows at the start if and only if no row failed to be converted |
| FetchProtocol.AnsweredFetches | statement.cpp:324-359 | With every call answered, m fetches deliver the first m rows and the end is reported exactly when m exceeds their number |
| FetchProtocol.ExecutionIsDelivered | statement.cpp:116-125 | Executing delivers its own result set, whatever it is, if and only if no cursor was open |
| FetchProtocol.RunDelivers | statement.cpp:104-359 | Over every run of several executions, each after the cursor drained, the rows handed over since the latest execute and those remaining are that execution's rows in order, none remaining once the end is reported; all are delivered if and only if none failed to be converted |
| FetchProtocol.CrashExactly | statement.cpp:80-89 | A run of a SELECT crashes if and only if some fetch follows an explicit close that took effect, executed again or not |
| FetchProtocol.SimulatedFetch | statement.cpp:361-370 | In any run of a statement without a cursor, a fetch finds a row if and only if no fetch came since an execute that succeeded, and the row is the last message an execute wrote, whether that execute succeeded or not; it is returned if it can be converted |
| DeliveredRows.RowsLostToBlobs | fbp/statement.cpp:643-650 | A run of fetches that convert their rows as the row decoder does loses a row if and only if some row handed over has a blob wanted as text that is not stored, too long or not answered for |
| DeliveredRows.ExecutionArrives | statement.cpp:104-359 | Over every run of several executions, each after the cursor drained, exactly the latest execution's rows arrive in order, up to those remaining, if and only if no row handed over has such a blob |
| TransactionLifecycle.Transaction.QueryInfo | fbp/transaction.cpp:42-62 | The number is zero without a handle, the server's number after a successful call, and unchanged after a failed one |
| TransactionLifecycle.Transaction.StartTransaction | fbp/transaction.cpp:24-40 | Starting gives an empty wrapper a fresh transaction and refuses a wrapper that holds one |
| TransactionLifecycle.Transaction.ExecuteSql | fbp/transaction.cpp:208-284 | SQL text may keep, end or start the wrapper's transaction; a failed call changes nothing but the log |
| TransactionLifecycle.Transaction.FinalizeTransaction | fbp/transaction.cpp:286-297 | Mode 2 commits, 6 commits retaining, 5 rolls back retaining, 1 and every other mode roll back; the handle goes only with a successful call that does not retain |
| TransactionLifecycle.Transaction.EndingCall | fbp/transaction.cpp:160-177 | Commit and rollback give up the handle exactly when the server accepted the call |
| TransactionLifecycle.Transaction.RetainingCall | fbp/transaction.cpp:167-182 | The retaining forms keep handle and status |
| TransactionLifecycle.Transaction.PrepareTransaction | transaction.cpp:187-198 | Preparing marks the transaction and sets the object's flag only when the server accepted it |
| TransactionLifecycle.Transaction.FreeObject | transaction.cpp:212-226 | A prepared object leaves its slot alone; any other releases it and with it the transaction it holds |
| TransactionLifecycle.Transaction.Destruct | fbp/transaction.cpp:138-158 | The destructor attempts one rollback of what the wrapper holds and then forgets it |
| TransactionLifecycle.Transaction.Reconnect | fbp/database.cpp:114-122 | The wrapper made by reconnecting holds the transaction and knows its number; if the information call fails it is lost with its handle |
| TransactionRuns.StepKeepsInv | fbp/transaction.cpp:19-304 | Every call on any wrapper, with any answer, keeps the invariant that ties wrappers, server statuses and the log of calls together |
| TransactionRuns.HeldExactlyWhileUnfinished | fbp/transaction.cpp:24-304 | In every run, from any number of limbo transactions on, a transaction started in the run or reconnected from limbo is held by exactly one wrapper while unfinished and by none after it ended, unless a destructor's rollback of it was refused; a limbo transaction nobody reconnected is held by none |
| TransactionRuns.NoCallAfterEnd | fbp/transaction.cpp:138-182 | In every run no call of any kind is made on a transaction after the call that ended it |
| TransactionRuns.FinalizeHandle | fbp/transaction.cpp:286-297 | In every reachable state a finalizing call on a held transaction makes the call its mode names (2 commit, 6 commit retaining, 5 rollback retaining, any other rollback), and keeps the handle if and only if it failed or its mode retains |
| TransactionRuns.CallReturns | fbp/transaction.cpp:24-304 | In every reachable state, each call on a transaction object succeeds if and only if it applies there and its server calls are answered; only preparing without a transaction crashes |
| TransactionRuns.FlagIsHistory | transaction.cpp:187-198 | The prepared flag is set if and only if the object ever prepared a transaction, whatever became of that one |
| TransactionRuns.DestroyRollsBack | transaction.cpp:212-226 | Destroying an object attempts to roll back what it holds if and only if it never prepared a transaction |
| TransactionRuns.StalePreparedFlag | transaction.cpp:212-226 | A run in which an object prepared and committed one transaction and leaves its next one active |
| ShownNumbers.ShownNumberExactly | transaction.cpp:228-239 | In every run the number an object shows is that of the transaction it holds, 0 if none, if and only if: for a reconnected object, it holds none; for any other, the last call that changed its handle was followed by a working information call or was an end by SQL text, or there was no such call, or it holds none and the last number it was told, if any, was 0 |
| ShownNumbers.ReconnectedShowsNothing | database.cpp:269-286 | A reconnected object shows 0 while it holds its transaction and after committing it |
| ShownNumbers.CommittedShowsOldNumber | fbp/transaction.cpp:160-165 | A run after which an object holds nothing and shows the number of the transaction it committed |
| TransactionRuns.PrepareCrashesExactly | fbp/transaction.cpp:299-302 | A run dereferences a null transaction if and only if an object that holds none was asked to prepare one |
| RegistryRuns.ValidExactly | fbp/database.cpp:108-177 | After any run of calls on the registry, handle h of a database is valid and works in a transaction if and only if a call on that database handed it out for that transaction and neither the handle nor the database was released since; for transactions, statements and blobs |
| RegistryRuns.DatabaseValidExactly | firebird_utils.cpp:360-469 | After any run of calls a database handle is valid if and only if it was handed out and not freed, disconnected or dropped since |
| RegistryRuns.OtherLookupsStay | firebird_utils.cpp:360-573 | A call changes no lookup but that of the handle it makes, the handle it frees, or the handles of the database it releases |
| RegistryRuns.FailedCallChangesNothing | fbp/database.cpp:108-177 | A call that fails adds no slot and releases none |
| RegistryRuns.CallReturns | firebird_utils.cpp:360-573 | When each registry call succeeds, and that a new handle is the next index of its table |
| RegistryRuns.HandlesAreFresh | fbp/database.cpp:108-177 | No table of any database, and not the table of databases, ever hands out the same handle twice |
| HandleTables.Database.TransactionInit | fbp/database.cpp:108-112 | A new transaction gets the next handle, nothing else changes |
| HandleTables.Database.TransactionReconnect | fbp/database.cpp:114-122 | A slot is added only after the server has reconnected |
| HandleTables.Database.TransactionFree | fbp/database.cpp:124-137 | Exactly a valid handle is released, all other slots stay |
| HandleTables.Database.StatementInit | fbp/database.cpp:139-143 | A statement slot is added only under a valid transaction handle and records it |
| HandleTables.Database.StatementFree | fbp/database.cpp:151-163 | Exactly a valid handle is released, all other slots stay |
| HandleTables.Database.BlobInit | fbp/database.cpp:145-149 | A blob slot is added only under a valid transaction handle and records it |
| HandleTables.Database.BlobFree | fbp/database.cpp:165-177 | Exactly a valid handle is released, all other slots stay |
| HandleTables.Registry.IsValidDbh | firebird_utils.cpp:360-363 | True exactly for a handle whose slot is inside the table and not null |
| HandleTables.Registry.IsValidTrh | firebird_utils.cpp:391-399 | True exactly for a valid transaction of a valid database |
| HandleTables.Registry.IsValidSth | firebird_utils.cpp:401-409 | True exactly for a valid statement of a valid database |
| HandleTables.Registry.DatabaseInit | firebird_utils.cpp:411-419 | A new database gets the next handle and empty tables of its own, shared with no other database |
| HandleTables.Registry.DatabaseRelease | firebird_utils.cpp:437-469 | A slot goes exactly if its handle was valid and the server call succeeded, all other databases stay |
| HandleTables.Registry.TransactionInit | firebird_utils.cpp:479-485 | A transaction is added to exactly the database named, if it is valid |
| HandleTables.Registry.TransactionReconnect | firebird_utils.cpp:495-501 | A slot is added to exactly the database named, after the server has reconnected |
| HandleTables.Registry.TransactionFree | firebird_utils.cpp:511-517 | A transaction is released in exactly the database named, and only if both handles are valid |
| HandleTables.Registry.StatementInit | firebird_utils.cpp:551-557 | A statement is added to exactly the database named, and only if both handles are valid |
| HandleTables.Registry.StatementFree | firebird_utils.cpp:567-573 | A statement is released in exactly the database named, and only if both handles are valid |
| HandleTables.Registry.BlobInit | firebird_utils.cpp:640-646 | A blob is added to exactly the database named, and only if both handles are valid |
| HandleTables.Registry.BlobFree | firebird_utils.cpp:672-678 | A blob is released in exactly the database named, and only if both handles are valid |
| Ownership.InvGivesChildrenFirst | statement.cpp:33-38 | If every live child slot has a usable owner that holds the transaction object, every live child slot refers to a live transaction slot |
| OwnershipProof.StepKeeps | statement.cpp:255-266 | Creating, freeing, disconnecting, preparing, destroying and letting go keep the ownership invariant |
| OwnershipProof.ChildrenDieFirst | transaction.cpp:212-226 | In every reachable state each live statement or blob slot refers to a live transaction slot of the same database |
| OwnershipProof.ReconnectLeaksSlot | database.cpp:269-286 | A successful reconnect leaves a live slot that no object refers to |
| SlotLeaks.LeakedExactly | transaction.cpp:212-226 | In every run a live transaction slot has no object if and only if it was the first slot of a successful reconnect, or its object was destroyed with the prepared flag set, and its database was not released since |
| SlotLeaks.FlagExactly | transaction.cpp:187-198 | A transaction object carries the prepared flag if and only if it was prepared in the run |
| OwnershipProof.ObjectsMakeCalls | statement.cpp:17-41 | The tables of any run of objects are those of a run of registry calls, so what holds of all such runs holds of objects |
| InfoReplies.GetUsers | fbp/service.cpp:144-203 | The parser's result for every reply: the users and the unread rest, or the error it ends with |
| InfoReplies.ReadElement | fbp/service.cpp:155-200 | One turn of the loop, for every tag, with every way to run past the reply |
| InfoReplies.ParseEncodedUsers | fbp/service.cpp:155-200 | From any point of the loop, the encoding of a user list yields these users after those already read, in order, and the parser stops right behind the end tag |
| InfoReplies.UsersRoundTrip | fbp/service.cpp:144-203 | The whole reply for any list of users, with attributes in any order and repeated, gives that list back and leaves what follows unread |
| ReplyConverse.AcceptedUsers | fbp/service.cpp:155-200 | A user list is accepted only if it is a sequence of the seven known elements closed by the end tag, with nothing but skipped numbers before the first name, and the users found are those it stands for |
| ReplyConverse.LegalUsersAccepted | fbp/service.cpp:155-200 | Every such sequence is accepted, whatever follows the end tag, and gives the users it stands for |
| InfoReplies.StatementInfo.QueryStatistics | fbp/statement.cpp:826-865 | The counters of one execute replace the old ones, the affected count follows from them; a failing call leaves them all at zero, a bad reply leaves the affected count at zero |
| InfoReplies.ReadCount | fbp/statement.cpp:847-850 | One counter is read within the reply or the read runs past it |
| InfoReplies.CountRead | fbp/statement.cpp:850 | A counter of four to eight bytes is read right modulo 2^32, whatever its top bit says |
| InfoReplies.ParseEncodedCounts | fbp/statement.cpp:845-864 | A well-formed counter list in any order, with kinds repeated, yields per kind the plain sum modulo 2^32 |
| InfoReplies.StatisticsRoundTrip | fbp/statement.cpp:843-864 | The whole reply of an encoded counter list gives the plain sum of each kind modulo 2^32, and as affected the plain sum of inserts, updates and deletes modulo 2^32 |
| ReplyConverse.AcceptedCounts | fbp/statement.cpp:845-862 | A counter list is accepted only if it is a sequence of the four known counters closed by the end tag, and each kind grows by the sum of its numbers modulo 2^32 |
| ReplyConverse.KnownCountsAccepted | fbp/statement.cpp:845-862 | Every such sequence is accepted, also with numbers of other widths |
| TransactionBuilder.TBuilder.constructor | tbuilder.cpp:32-36 | A new builder asks for a snapshot transaction that waits without limit |
| TransactionBuilder.TBuilder.Call | tbuilder.cpp:13-112 | One setter changes its own setting only, except that isolation setters drop a snapshot number; a bad timeout is refused and changes nothing |
| TransactionBuilder.TBuilder.UpdateIsolationMode | tbuilder.cpp:13-30 | Choosing an isolation mode drops an earlier snapshot number |
| TransactionBuilder.BuildTpb | fbp/transaction.cpp:69-136 | The buffer built by appending items is the flags, then isolation, then waiting; without a builder there is none |
| TransactionBuilder.EncodeSays | fbp/transaction.cpp:69-136 | Item by item, which tags a buffer holds for which settings |
| TransactionBuilder.EncodeInterpreted | fbp/transaction.cpp:69-136 | Read item by item as a server does, the buffer of valid settings gives these settings back, the snapshot number cut to 32 bits |
| TransactionBuilder.SettersKeepValid | tbuilder.cpp:58-112 | After any sequence of setters the mode is in 0..4, the timeout in -1..32767, and a snapshot number implies snapshot mode |
| TransactionBuilder.NoBug | fbp/transaction.cpp:69-136 | No sequence of setters reaches a fatal branch of the buffer's construction |
| TransactionBuilder.BuilderIsFaithful | fbp/transaction.cpp:69-136 | The server reads exactly the builder's settings if and only if the snapshot number is at most 2147483647 |
| TransactionBuilder.ServerReadsAsked | tbuilder.cpp:32-112 | After any sequence of setters the server reads what the last setter of each group asked for, and the defaults where there was none, if and only if the snapshot number asked for fits a signed 32-bit integer |

## Left out

- FLOAT, DOUBLE, date, time, time-zone, INT128, DECFLOAT and ARRAY columns: library conversions that this code only forwards.
- A double bound as text carries the text PHP converts it to; how PHP prints doubles is not modelled.
- `convert_to_string` changes the caller's argument in place; the model converts a copy. Arrays, objects other than blob identifiers, and blob objects as arguments are not modelled (a blob object binds its own identifier).
- The parser's `int` exponent and scale are unbounded here, so strings with 2^31 fraction digits or more are outside the model.
- Positive scales and scales below -18: the divisor table ends there.
- Big-endian hosts.
- ParameterCodec.Statement.Bind: the identifiers the server will pick are a parameter, one per argument, distinct and unused.
- ResultRows.OutputStatement.InsertAlias: requires that a free name exists, since the loop never ends without one; when that is so is `LoopEnds`. Names longer than the suffix buffer (METADATALENGTH) are taken whole.
- ResultRows.OutputStatement.OutputBufferToArray: `fetch_object` turns the hashed row into an object, whose property lookups do not convert names; that step is not modelled.
- BlobStream.Blob.GetContents: what memory holds behind the bytes the server returned is arbitrary. Reads that return less than the server has are not modelled.
- BlobStream.CreateBlobFromString: an absent identifier stands for a failure of any of its three server calls.
- TransactionRuns.HeldExactlyWhileUnfinished: assumes that the server reconnects only prepared transactions nobody holds, which the server guarantees and the extension does not check.
- Object graphs (`Ownership`) and runs over many wrappers (`TransactionRuns`) are steps on values; the classes of `HandleTables` and `TransactionLifecycle` are proved against the same functions. Aliased PHP references appear there as identifiers of objects.
- Calling a PHP constructor a second time on one object, which replaces its handle.
- The order in which PHP frees objects at shutdown, when reference counts are not honoured.
- The information pointer that a freed statement object, or a transaction object whose database is gone, keeps.
- Limbo transactions that another process ends during a run.
- Uses of a wrapper after its database was disconnected: the registry rejects the handle, as `IsValidTrh` states.
- HandleTables.Registry.DatabaseRelease: disconnecting or dropping a database that was never connected reads through a null pointer, which is not modelled.
- BlobIdText.ScanPrinted: leading white space, a sign or a second prefix, which the C scanner also accepts, are outside the scanner's model.
- InfoReplies.GetUsers: an attribute before any user name is an error here, while C then uses an uninitialised value; reading past the reply's 1024 bytes is an error here, while C goes on reading.
- InfoReplies.StatementInfo.QueryStatistics: running past the reply's 64 bytes is an error here, while C reads on; a list of counters that needs more than that is such a reply.
- `Database::get_info`, `Service::get_info`, connecting and creating: flat tables from tags to properties.
- `event.c`, `fbp_service.c`, the multi-transaction files: not built.
- Class registration, property access, INI settings, debug output.
