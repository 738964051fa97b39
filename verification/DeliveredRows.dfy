/** Which rows of a SELECT reach the program: the fetch protocol over messages that may hold blobs. */
module DeliveredRows {
  import opened MachineTypes
  import opened Messages
  import opened ParameterCodec
  import opened ResultRows
  import opened FetchProtocol

  /** The message handed over by call j, if it hands one over. */
  function HandedAt(s: State, es: seq<Event>, j: nat): Message
    requires j < |es| && HandsOver(Run(Select, s, es[..j]), es[j])
  {
    Remaining(Run(Select, s, es[..j]))[0]
  }

  predicate HandsAt(s: State, es: seq<Event>, j: int) {
    0 <= j < |es| && HandsOver(Run(Select, s, es[..j]), es[j])
  }

  /** Call j converts the message it is handed as `output_buffer_to_array` does, reading blobs as told by `blobs[j]`. */
  ghost predicate ConvertsAt(s: State, es: seq<Event>, cols: seq<Column>, blobs: seq<BlobReads>, j: int)
    requires |blobs| == |es|
  {
    HandsAt(s, es, j) ==>
      var row := HandedAt(s, es, j);
      Decodable(row, cols, blobs[j]) && es[j].decodeOk == IndexedRow(row, cols, blobs[j]).Ok?
  }

  ghost predicate Converts(s: State, es: seq<Event>, cols: seq<Column>, blobs: seq<BlobReads>) {
    |blobs| == |es| && forall j :: 0 <= j < |es| ==> ConvertsAt(s, es, cols, blobs, j)
  }

  /** Column c of the row handed to call j is a blob wanted as text that is not stored, too long or not answered for. */
  ghost predicate BlobFailsAt(s: State, es: seq<Event>, cols: seq<Column>, blobs: seq<BlobReads>, j: int, c: int)
    requires Converts(s, es, cols, blobs)
  {
    && HandsAt(s, es, j) && 0 <= c < |cols| && blobs[j].asText
    && assert ConvertsAt(s, es, cols, blobs, j);
       var v := VarValue(HandedAt(s, es, j), cols[c]);
       v.PBlobId? && !(blobs[j].answers[c] && v.id in blobs[j].stored && |blobs[j].stored[v.id]| % TWO_32 < 0x8000_0000)
  }

  ghost predicate BlobFails(s: State, es: seq<Event>, cols: seq<Column>, blobs: seq<BlobReads>)
    requires Converts(s, es, cols, blobs)
  {
    exists j, c :: BlobFailsAt(s, es, cols, blobs, j, c)
  }

  /** A run of fetches loses a row if and only if some row handed over has a blob whose text cannot be had. */
  lemma RowsLostToBlobs(s: State, es: seq<Event>, cols: seq<Column>, blobs: seq<BlobReads>)
    requires Converts(s, es, cols, blobs)
    ensures LosesRow(s, es) <==> BlobFails(s, es, cols, blobs)
  {
    hide Run, HandsOver, VarValue, Remaining, IndexedRow;
    if LosesRow(s, es) {
      var j :| LosesAt(s, es, j);
      assert HandsAt(s, es, j) && ConvertsAt(s, es, cols, blobs, j);
      var row := HandedAt(s, es, j);
      RowIsComplete(row, cols, blobs[j]);
      var c :| 0 <= c < |cols| && blobs[j].asText && VarValue(row, cols[c]).PBlobId? &&
               var id := VarValue(row, cols[c]).id;
               !(blobs[j].answers[c] && id in blobs[j].stored && |blobs[j].stored[id]| % TWO_32 < 0x8000_0000);
      assert BlobFailsAt(s, es, cols, blobs, j, c);
    }
    if BlobFails(s, es, cols, blobs) {
      var j, c :| BlobFailsAt(s, es, cols, blobs, j, c);
      assert ConvertsAt(s, es, cols, blobs, j);
      RowIsComplete(HandedAt(s, es, j), cols, blobs[j]);
      assert LosesAt(s, es, j);
    }
  }

  /**
   Over any run of several executions, each after the cursor drained, the rows delivered since the latest
   one and those remaining are that execution's rows, all of them in order, if and only if no row handed
   over since has a blob whose text cannot be had.
   */
  lemma ExecutionArrives(first: seq<Message>, output: Message, es: seq<Event>, cols: seq<Column>, blobs: seq<BlobReads>)
    requires Disciplined(Initial(first, output), es)
    requires Converts(StartOfLatest(Initial(first, output), es), Since(es), cols, blobs)
    ensures var start := StartOfLatest(Initial(first, output), es);
            var s := Run(Select, Initial(first, output), es);
            Delivered(Select, start, Since(es)) + Remaining(s) == LatestRows(first, es)
            <==> !BlobFails(start, Since(es), cols, blobs)
  {
    hide Converts, BlobFails, LosesRow, Run, Delivered, Remaining;
    RunDelivers(first, output, es);
    RowsLostToBlobs(StartOfLatest(Initial(first, output), es), Since(es), cols, blobs);
  }
}
