/**
 Fetching: PHP-side flags over the C++ cursor pointer. Server answers are parts of the events, and
 any server call may fail.
 */
module FetchProtocol {
  import opened MachineTypes

  /** The contents of the output message after one fetch or execute. */
  type Message = seq<byte>

  /** Statement types by how `FireBird_Statement_execute` treats them. */
  datatype Kind = Select | Modify | Plain

  datatype Outcome =
    | Done
    | RowOf(row: Message)
    | NoMore
    | Failed
    | Crashed

  /**
   A call and the answers to it. `rows` is what a cursor opened on the newly bound message will
   deliver; `reply` is what executing writes to the output message, `None` if it fails; `infoOk` says
   whether the information calls after that work; `decodeOk`, whether the output message can be
   converted, which may need the server for the text of a blob.
   */
  datatype Event =
    | Execute(bindOk: bool, rows: seq<Message>, reply: Option<Message>, infoOk: bool)
    | Fetch(openOk: bool, fetchOk: bool, closeOk: bool, decodeOk: bool)
    | CloseCursor(closeOk: bool)

  datatype State = State(
    isCursorOpen: bool,
    isExhausted: bool,
    didFakeFetch: bool,
    cursor: Option<seq<Message>>,
    pending: seq<Message>,
    output: Message,
    dead: bool)

  function Initial(pending: seq<Message>, output: Message): State {
    State(false, false, false, None, pending, output, false)
  }

  /* ----- Specification of one call ----- */

  function ExecuteStep(kind: Kind, s: State, e: Event): (State, Outcome)
    requires e.Execute?
  {
    match kind
    case Select =>
      var s' := s.(pending := e.rows);
      if e.bindOk then (s'.(isExhausted := false, didFakeFetch := false), Done) else (s', Failed)
    case Modify =>
      if !e.bindOk || e.reply == None then (s, Failed)
      else
        var s' := s.(output := e.reply.value);
        if e.infoOk then (s'.(isExhausted := false, didFakeFetch := false), Done) else (s', Failed)
    case Plain =>
      if e.reply == None then (s, Failed)
      else (s.(output := e.reply.value), if e.infoOk then Done else Failed)
  }

  /** The row in the output message, unless its conversion fails. */
  function Converted(row: Message, e: Event): Outcome
    requires e.Fetch?
  {
    if e.decodeOk then RowOf(row) else Failed
  }

  function CursorStep(s: State, e: Event): (State, Outcome)
    requires e.Fetch?
  {
    match s.cursor
    case None => (s.(dead := true), Crashed)
    case Some(rows) =>
      if !e.fetchOk then (s, Failed)
      else if rows != [] then (s.(cursor := Some(rows[1..]), output := rows[0]), Converted(rows[0], e))
      else if !e.closeOk then (s, Failed)
      else (s.(cursor := None, isCursorOpen := false, isExhausted := true), NoMore)
  }

  function FetchStep(kind: Kind, s: State, e: Event): (State, Outcome)
    requires e.Fetch?
  {
    if kind != Select then
      if s.didFakeFetch then (s, NoMore) else (s.(didFakeFetch := true), Converted(s.output, e))
    else if s.isExhausted then (s, NoMore)
    else if s.isCursorOpen then CursorStep(s, e)
    else if !e.openOk then (s, Failed)
    else CursorStep(s.(isCursorOpen := true, cursor := Some(s.pending)), e)
  }

  function CloseStep(s: State, e: Event): (State, Outcome)
    requires e.CloseCursor?
  {
    if s.cursor == None || !e.closeOk then (s, Failed) else (s.(cursor := None), Done)
  }

  function Step(kind: Kind, s: State, e: Event): (State, Outcome) {
    if s.dead then (s, Crashed)
    else match e
      case Execute(_, _, _, _) => ExecuteStep(kind, s, e)
      case Fetch(_, _, _, _) => FetchStep(kind, s, e)
      case CloseCursor(_) => CloseStep(s, e)
  }

  /* ----- The two layers ----- */

  class Statement {
    const kind: Kind
    // PHP object
    var isCursorOpen: bool
    var isExhausted: bool
    var didFakeFetch: bool
    // C++ object: the rows the server still has for an open cursor, and the two messages
    var cursor: Option<seq<Message>>
    var pending: seq<Message>
    var output: Message
    ghost var dead: bool

    constructor (kind: Kind, pending: seq<Message>, output: Message)
      ensures this.kind == kind && Abs() == Initial(pending, output)
    {
      this.kind := kind;
      isCursorOpen, isExhausted, didFakeFetch := false, false, false;
      cursor, this.pending, this.output := None, pending, output;
      dead := false;
    }

    ghost function Abs(): State
      reads this
    {
      State(isCursorOpen, isExhausted, didFakeFetch, cursor, pending, output, dead)
    }

    /** The result set of the next row, the end of data, or an error; `None` is a null dereference. */
    method FetchNext(fetchOk: bool, closeOk: bool) returns (r: Option<Result<Option<Message>, ()>>)
      modifies this`cursor, this`output
      ensures match old(cursor)
              case None => r == None && cursor == None && output == old(output)
              case Some(rows) =>
                if !fetchOk || (rows == [] && !closeOk) then
                  r == Some(Err(())) && cursor == old(cursor) && output == old(output)
                else if rows == [] then r == Some(Ok(None)) && cursor == None && output == old(output)
                else r == Some(Ok(Some(rows[0]))) && cursor == Some(rows[1..]) && output == rows[0]
    {
      if cursor == None {
        return None;
      }
      if !fetchOk {
        return Some(Err(()));
      }
      var rows := cursor.value;
      if rows == [] {
        if !closeOk {
          return Some(Err(()));
        }
        cursor := None;
        return Some(Ok(None));
      }
      output := rows[0];
      cursor := Some(rows[1..]);
      r := Some(Ok(Some(rows[0])));
    }

    method Execute(e: Event) returns (o: Outcome)
      requires e.Execute? && !dead
      modifies this
      ensures (Abs(), o) == Step(kind, old(Abs()), e)
      ensures o == (if (kind.Plain? || e.bindOk) && (kind.Select? || (e.reply.Some? && e.infoOk)) then Done else Failed)
      ensures isCursorOpen == old(isCursorOpen) && cursor == old(cursor) && !dead
      ensures if o == Done && !kind.Plain? then !isExhausted && !didFakeFetch
              else isExhausted == old(isExhausted) && didFakeFetch == old(didFakeFetch)
      ensures output == if !kind.Select? && (kind.Plain? || e.bindOk) && e.reply.Some? then e.reply.value
                        else old(output)
      ensures pending == if kind.Select? then e.rows else old(pending)
    {
      match kind {
        case Select =>
          pending := e.rows;
          if !e.bindOk {
            return Failed;
          }
          isExhausted := false;
          didFakeFetch := false;
        case Modify =>
          if !e.bindOk || e.reply == None {
            return Failed;
          }
          output := e.reply.value;
          if !e.infoOk {
            return Failed;
          }
          isExhausted := false;
          didFakeFetch := false;
        case Plain =>
          if e.reply == None {
            return Failed;
          }
          output := e.reply.value;
          if !e.infoOk {
            return Failed;
          }
      }
      o := Done;
    }

    method Fetch(e: Event) returns (o: Outcome)
      requires e.Fetch? && !dead
      modifies this
      ensures (Abs(), o) == Step(kind, old(Abs()), e)
    {
      if kind != Select {
        if didFakeFetch {
          return NoMore;
        }
        didFakeFetch := true;
        return if e.decodeOk then RowOf(output) else Failed;
      }
      if isExhausted {
        return NoMore;
      }
      if !isCursorOpen {
        if !e.openOk {
          return Failed;
        }
        cursor := Some(pending);
        isCursorOpen := true;
      }
      var status := FetchNext(e.fetchOk, e.closeOk);
      match status {
        case None =>
          dead := true;
          o := Crashed;
        case Some(Err(_)) =>
          o := Failed;
        case Some(Ok(None)) =>
          isCursorOpen := false;
          isExhausted := true;
          o := NoMore;
        case Some(Ok(Some(row))) =>
          o := if e.decodeOk then RowOf(row) else Failed;
      }
    }

    method Close(e: Event) returns (o: Outcome)
      requires e.CloseCursor? && !dead
      modifies this
      ensures (Abs(), o) == Step(kind, old(Abs()), e)
      ensures o == if old(cursor).Some? && e.closeOk then Done else Failed
      ensures Abs() == if o == Done then old(Abs()).(cursor := None) else old(Abs())
    {
      if cursor == None || !e.closeOk {
        return Failed;
      }
      cursor := None;
      o := Done;
    }
  }

  /* ----- Runs ----- */

  function Run(kind: Kind, s: State, es: seq<Event>): State {
    if es == [] then s else Step(kind, Run(kind, s, es[..|es| - 1]), es[|es| - 1]).0
  }

  /** The outcome of call j of a run. */
  function OutcomeAt(kind: Kind, s: State, es: seq<Event>, j: nat): Outcome
    requires j < |es|
  {
    Step(kind, Run(kind, s, es[..j]), es[j]).1
  }

  /** The row an outcome carries. */
  function Taken(o: Outcome): seq<Message> {
    if o.RowOf? then [o.row] else []
  }

  lemma Assoc(a: seq<Message>, b: seq<Message>, c: seq<Message>)
    ensures (a + b) + c == a + (b + c)
  {
  }

  /** The rows delivered by a run, in order. */
  function Delivered(kind: Kind, s: State, es: seq<Event>): seq<Message> {
    if es == [] then []
    else
      var n := |es| - 1;
      Delivered(kind, s, es[..n]) + Taken(Step(kind, Run(kind, s, es[..n]), es[n]).1)
  }

  /** Flags and pointer agree. */
  predicate Agree(s: State) {
    !s.dead && (s.isCursorOpen <==> s.cursor.Some?) && (s.isExhausted ==> !s.isCursorOpen)
  }

  /** The rows of the current execution still to be fetched. */
  function Remaining(s: State): seq<Message> {
    if s.isExhausted then [] else if s.cursor.Some? then s.cursor.value else s.pending
  }

  ghost predicate NoClose(es: seq<Event>) {
    forall i :: 0 <= i < |es| ==> !es[i].CloseCursor?
  }

  ghost predicate OnlyFetches(es: seq<Event>) {
    forall i :: 0 <= i < |es| ==> es[i].Fetch?
  }

  /** Over any run without an explicit close, whatever fails, flags and pointer agree and nothing crashes. */
  lemma {:induction false} RunAgrees(kind: Kind, s: State, es: seq<Event>)
    requires Agree(s) && NoClose(es)
    ensures Agree(Run(kind, s, es))
  {
    if es != [] {
      RunAgrees(kind, s, es[..|es| - 1]);
    }
  }

  /* ----- What a fetch does with the next row ----- */

  /** The server hands a row to this fetch. */
  predicate HandsOver(s: State, e: Event) {
    e.Fetch? && e.fetchOk && (s.isCursorOpen || e.openOk) && Remaining(s) != []
  }

  /** A row was handed over and its conversion failed. */
  predicate Loses(s: State, e: Event) {
    HandsOver(s, e) && !e.decodeOk
  }

  /** The rows handed over in a run, in order. */
  function HandedOver(s: State, es: seq<Event>): seq<Message> {
    if es == [] then []
    else
      var n := |es| - 1;
      var before := Run(Select, s, es[..n]);
      HandedOver(s, es[..n]) + (if HandsOver(before, es[n]) then [Remaining(before)[0]] else [])
  }

  /** Some row of the run was lost. */
  ghost predicate LosesRow(s: State, es: seq<Event>) {
    exists i :: LosesAt(s, es, i)
  }

  predicate LosesAt(s: State, es: seq<Event>, i: int) {
    0 <= i < |es| && Loses(Run(Select, s, es[..i]), es[i])
  }

  /** A fetch returns the next row if and only if it was handed over and could be converted. */
  lemma FetchTakesFirst(s: State, e: Event)
    requires Agree(s) && e.Fetch?
    ensures var (s', o) := Step(Select, s, e);
            && Agree(s')
            && Remaining(s) == (if HandsOver(s, e) then [Remaining(s)[0]] else []) + Remaining(s')
            && Taken(o) == (if HandsOver(s, e) && e.decodeOk then [Remaining(s)[0]] else [])
            && (s'.isExhausted ==> Remaining(s') == [])
  {
  }

  lemma LosesStep(s: State, es: seq<Event>)
    requires es != []
    ensures var n := |es| - 1;
            LosesRow(s, es) <==> LosesRow(s, es[..n]) || Loses(Run(Select, s, es[..n]), es[n])
  {
    hide Loses, Run;
    var n := |es| - 1;
    forall i | 0 <= i < n ensures LosesAt(s, es, i) <==> LosesAt(s, es[..n], i) {
      assert es[..n][..i] == es[..i];
    }
    assert LosesAt(s, es, n) <==> Loses(Run(Select, s, es[..n]), es[n]);
  }

  /**
   Over any fetches, whatever fails, rows handed over and rows remaining are the rows at the start, in
   order, and the end is reported only when none is left. All rows handed over are delivered if and
   only if none of them failed to be converted.
   */
  lemma {:induction false} FetchesConserve(s: State, es: seq<Event>)
    requires Agree(s) && OnlyFetches(es)
    ensures Agree(Run(Select, s, es))
    ensures HandedOver(s, es) + Remaining(Run(Select, s, es)) == Remaining(s)
    ensures |Delivered(Select, s, es)| <= |HandedOver(s, es)|
    ensures Delivered(Select, s, es) == HandedOver(s, es) <==> !LosesRow(s, es)
    ensures Run(Select, s, es).isExhausted ==> HandedOver(s, es) == Remaining(s)
  {
    if es != [] {
      hide LosesRow, Step, Agree, HandsOver;
      var n := |es| - 1;
      var before, after := Run(Select, s, es[..n]), Run(Select, s, es);
      FetchesConserve(s, es[..n]);
      FetchTakesFirst(before, es[n]);
      LosesStep(s, es);
      var row := if HandsOver(before, es[n]) then [Remaining(before)[0]] else [];
      Assoc(HandedOver(s, es[..n]), row, Remaining(after));
      AppendOne(Delivered(Select, s, es[..n]), HandedOver(s, es[..n]), Taken(Step(Select, before, es[n]).1), row);
    }
  }

  /** The rows lost in a run, in order. */
  function Lost(s: State, es: seq<Event>): seq<Message> {
    if es == [] then []
    else
      var n := |es| - 1;
      var before := Run(Select, s, es[..n]);
      Lost(s, es[..n]) + (if Loses(before, es[n]) then [Remaining(before)[0]] else [])
  }

  /** Every row handed over is either delivered or lost, once. */
  lemma {:induction false} DeliveredOrLost(s: State, es: seq<Event>)
    requires Agree(s) && OnlyFetches(es)
    ensures multiset(HandedOver(s, es)) == multiset(Delivered(Select, s, es)) + multiset(Lost(s, es))
  {
    if es != [] {
      hide Step, Agree, HandsOver;
      var n := |es| - 1;
      FetchesConserve(s, es[..n]);
      DeliveredOrLost(s, es[..n]);
      FetchTakesFirst(Run(Select, s, es[..n]), es[n]);
    }
  }

  lemma AppendOne(a: seq<Message>, b: seq<Message>, x: seq<Message>, y: seq<Message>)
    requires |a| <= |b| && |y| <= 1 && (x == y || x == [])
    ensures a + x == b + y <==> a == b && x == y
  {
    if a + x == b + y {
      assert |a| + |x| == |b| + |y|;
      assert a == (a + x)[..|a|] && b == (b + y)[..|b|];
    }
  }

  /** If every row can be converted, fetches that may fail lose and repeat nothing. */
  lemma ConvertibleRowsArrive(s: State, es: seq<Event>)
    requires Agree(s) && OnlyFetches(es)
    ensures Delivered(Select, s, es) + Remaining(Run(Select, s, es)) == Remaining(s) <==> !LosesRow(s, es)
  {
    hide LosesRow, HandsOver;
    FetchesConserve(s, es);
    var delivered, handed, rest := Delivered(Select, s, es), HandedOver(s, es), Remaining(Run(Select, s, es));
    if delivered + rest == handed + rest {
      assert |delivered| == |handed|;
      assert delivered == (delivered + rest)[..|delivered|] && handed == (handed + rest)[..|handed|];
    }
  }

  /** With every server call answered, m fetches deliver the first m rows and then report the end. */
  function Fetches(m: nat): (es: seq<Event>)
    ensures |es| == m && OnlyFetches(es)
  {
    seq(m, _ => Fetch(true, true, true, true))
  }

  lemma {:induction false} AnsweredFetches(s: State, m: nat)
    requires Agree(s)
    ensures var rest := Remaining(s);
            var s' := Run(Select, s, Fetches(m));
            && Agree(s')
            && Remaining(s') == (if m <= |rest| then rest[m..] else [])
            && (s'.isExhausted <==> s.isExhausted || m > |rest|)
            && Delivered(Select, s, Fetches(m)) == (if m <= |rest| then rest[..m] else rest)
  {
    if m > 0 {
      hide Step, Remaining, Agree, Taken;
      AnsweredFetches(s, m - 1);
      assert Fetches(m)[..m - 1] == Fetches(m - 1);
      var rest := Remaining(s);
      AnsweredFetch(Run(Select, s, Fetches(m - 1)));
      if m <= |rest| {
        TakeOne(rest, m);
      } else if m == |rest| + 1 {
        assert rest[..m - 1] == rest && rest[m - 1..] == [];
      }
    }
  }

  lemma TakeOne(rest: seq<Message>, m: nat)
    requires 0 < m <= |rest|
    ensures rest[m - 1..] != [] && rest[m - 1..][0] == rest[m - 1] && rest[m - 1..][1..] == rest[m..]
    ensures rest[..m - 1] + [rest[m - 1]] == rest[..m]
  {
  }

  lemma AnsweredFetch(s: State)
    requires Agree(s)
    ensures var (s', o) := Step(Select, s, Fetch(true, true, true, true));
            var rest := Remaining(s);
            && Agree(s')
            && (rest != [] ==> Taken(o) == [rest[0]] && Remaining(s') == rest[1..] && !s'.isExhausted)
            && (rest == [] ==> Taken(o) == [] && Remaining(s') == [] && s'.isExhausted)
            && (s.isExhausted ==> rest == [])
  {
  }

  /** After an accepted execute, m answered fetches return exactly the rows of that execution, then the end. */
  ghost predicate DeliversExecution(s: State, rows: seq<Message>) {
    var s' := Step(Select, s, Execute(true, rows, None, true)).0;
    forall m: nat ::
      && Delivered(Select, s', Fetches(m)) == (if m <= |rows| then rows[..m] else rows)
      && (m > |rows| ==> Run(Select, s', Fetches(m)).isExhausted)
  }

  /** Executing delivers its own result set, whatever that is, if and only if no cursor was open. */
  lemma ExecutionIsDelivered(s: State)
    requires Agree(s)
    ensures (forall rows :: DeliversExecution(s, rows)) <==> !s.isCursorOpen
  {
    if !s.isCursorOpen {
      forall rows ensures DeliversExecution(s, rows) {
        var s' := Step(Select, s, Execute(true, rows, None, true)).0;
        forall m: nat ensures Delivered(Select, s', Fetches(m)) == (if m <= |rows| then rows[..m] else rows)
                      ensures m > |rows| ==> Run(Select, s', Fetches(m)).isExhausted
        {
          AnsweredFetches(s', m);
        }
      }
    } else {
      var rest := s.cursor.value;
      var rows: seq<Message> := if rest == [] then [[]] else [];
      var s' := Step(Select, s, Execute(true, rows, None, true)).0;
      AnsweredFetches(s', 1);
      assert Delivered(Select, s', Fetches(1)) != rows;
      assert !DeliversExecution(s, rows);
    }
  }

  /* ----- Whole runs of several executions ----- */

  /** Every execute is accepted and comes while no cursor is open; nothing is closed by hand. */
  predicate Disciplined(s: State, es: seq<Event>) {
    es == []
    || var n := |es| - 1;
       && Disciplined(s, es[..n])
       && match es[n]
          case Execute(bindOk, _, _, _) => bindOk && !Run(Select, s, es[..n]).isCursorOpen
          case Fetch(_, _, _, _) => true
          case CloseCursor(_) => false
  }

  /** The result set of the latest execution of a run. */
  function LatestRows(first: seq<Message>, es: seq<Event>): seq<Message> {
    if es == [] then first
    else if es[|es| - 1].Execute? then es[|es| - 1].rows
    else LatestRows(first, es[..|es| - 1])
  }

  /** The calls since the latest execution. */
  function Since(es: seq<Event>): seq<Event> {
    if es == [] || es[|es| - 1].Execute? then [] else Since(es[..|es| - 1]) + [es[|es| - 1]]
  }

  /** The state the latest execution of a run left. */
  function StartOfLatest(s: State, es: seq<Event>): State {
    if es == [] || es[|es| - 1].Execute? then Run(Select, s, es) else StartOfLatest(s, es[..|es| - 1])
  }

  /**
   At every point of a disciplined run the rows handed over since the latest execution and the rows
   still to come are, in order, exactly that execution's result set; a fetch reports the end only
   when all of them were handed over. They are all delivered, and nothing else is, if and only if
   none of them failed to be converted.
   */
  lemma {:induction false} RunDelivers(first: seq<Message>, output: Message, es: seq<Event>)
    requires Disciplined(Initial(first, output), es)
    ensures var start := StartOfLatest(Initial(first, output), es);
            var s, fetches := Run(Select, Initial(first, output), es), Since(es);
            && Agree(s) && Agree(start) && OnlyFetches(fetches)
            && s == Run(Select, start, fetches)
            && HandedOver(start, fetches) + Remaining(s) == LatestRows(first, es)
            && (Delivered(Select, start, fetches) + Remaining(s) == LatestRows(first, es)
                <==> !LosesRow(start, fetches))
            && (s.isExhausted ==> Remaining(s) == [])
  {
    hide LosesRow, HandsOver;
    LatestStart(first, output, es);
    var start := StartOfLatest(Initial(first, output), es);
    FetchesConserve(start, Since(es));
    ConvertibleRowsArrive(start, Since(es));
  }

  lemma {:induction false} LatestStart(first: seq<Message>, output: Message, es: seq<Event>)
    requires Disciplined(Initial(first, output), es)
    ensures var start := StartOfLatest(Initial(first, output), es);
            && Agree(start) && Remaining(start) == LatestRows(first, es)
            && Agree(Run(Select, Initial(first, output), es))
            && OnlyFetches(Since(es)) && Run(Select, Initial(first, output), es) == Run(Select, start, Since(es))
  {
    if es != [] {
      hide Step, Remaining;
      var n := |es| - 1;
      var before := Run(Select, Initial(first, output), es[..n]);
      LatestStart(first, output, es[..n]);
      if es[n].Execute? {
        ExecuteStarts(before, es[n]);
      } else {
        FetchTakesFirst(before, es[n]);
        assert Since(es)[..|Since(es)| - 1] == Since(es[..n]);
      }
    } else {
      assert Remaining(Initial(first, output)) == first;
    }
  }

  lemma ExecuteStarts(s: State, e: Event)
    requires Agree(s) && e.Execute? && e.bindOk && !s.isCursorOpen
    ensures var s' := Step(Select, s, e).0;
            Agree(s') && Remaining(s') == e.rows && !s'.isExhausted
  {
  }

  /* ----- Explicit close ----- */

  /** A close at i took effect and a fetch follows it. */
  ghost predicate FetchAfterClose(kind: Kind, s: State, es: seq<Event>) {
    exists i, j :: ClosedThenFetched(kind, s, es, i, j)
  }

  ghost predicate ClosedThenFetched(kind: Kind, s: State, es: seq<Event>, i: int, j: int) {
    0 <= i < j < |es| && es[i].CloseCursor? && OutcomeAt(kind, s, es, i) == Done && es[j].Fetch?
  }

  /** Closed by the user: the flag still says open. */
  predicate Stranded(s: State) {
    s.isCursorOpen && s.cursor == None && !s.isExhausted
  }

  /** A successful close took place in the run. */
  ghost predicate WasClosed(kind: Kind, s: State, es: seq<Event>) {
    exists i :: 0 <= i < |es| && es[i].CloseCursor? && OutcomeAt(kind, s, es, i) == Done
  }

  lemma SelectSteps(s: State, e: Event)
    requires Agree(s) || Stranded(s)
    ensures var (s', o) := Step(Select, s, e);
            if s.dead then s' == s
            else if Stranded(s) then
              if e.Fetch? then s'.dead else !s'.dead && Stranded(s') && (e.CloseCursor? ==> o == Failed)
            else if e.CloseCursor? && o == Done then !s'.dead && Stranded(s')
            else Agree(s')
  {
  }

  /**
   A run of a SELECT statement dereferences a null cursor if and only if it fetches after a close
   that took effect: executing again does not help, because the flag stays set.
   */
  lemma {:induction false} CrashExactly(s: State, es: seq<Event>)
    requires Agree(s)
    ensures Run(Select, s, es).dead <==> FetchAfterClose(Select, s, es)
    ensures !Run(Select, s, es).dead ==>
              if WasClosed(Select, s, es) then Stranded(Run(Select, s, es)) else Agree(Run(Select, s, es))
  {
    if es != [] {
      hide WasClosed, FetchAfterClose;
      var n := |es| - 1;
      var before := Run(Select, s, es[..n]);
      CrashExactly(s, es[..n]);
      HistoryStep(s, es);
      if !before.dead {
        SelectSteps(before, es[n]);
      }
    }
  }

  lemma HistoryStep(s: State, es: seq<Event>)
    requires es != []
    ensures var n := |es| - 1;
            var init := es[..n];
            var o := Step(Select, Run(Select, s, init), es[n]).1;
            && (WasClosed(Select, s, es) <==> WasClosed(Select, s, init) || (es[n].CloseCursor? && o == Done))
            && (FetchAfterClose(Select, s, es)
                <==> FetchAfterClose(Select, s, init) || (es[n].Fetch? && WasClosed(Select, s, init)))
  {
    hide Step;
    var n := |es| - 1;
    var init := es[..n];
    ExtendRun(s, es);
    assert OutcomeAt(Select, s, es, n) == Step(Select, Run(Select, s, init), es[n]).1;
    if WasClosed(Select, s, init) {
      var i :| 0 <= i < n && init[i].CloseCursor? && OutcomeAt(Select, s, init, i) == Done;
      assert es[i].CloseCursor? && OutcomeAt(Select, s, es, i) == Done;
      assert es[n].Fetch? ==> ClosedThenFetched(Select, s, es, i, n);
    }
    if FetchAfterClose(Select, s, init) {
      var i, j :| ClosedThenFetched(Select, s, init, i, j);
      assert ClosedThenFetched(Select, s, es, i, j);
    }
    if WasClosed(Select, s, es) {
      var i :| 0 <= i < |es| && es[i].CloseCursor? && OutcomeAt(Select, s, es, i) == Done;
      assert i < n ==> init[i].CloseCursor? && OutcomeAt(Select, s, init, i) == Done;
    }
    if FetchAfterClose(Select, s, es) {
      var i, j :| ClosedThenFetched(Select, s, es, i, j);
      assert j < n ==> ClosedThenFetched(Select, s, init, i, j);
      assert j == n ==> init[i].CloseCursor? && OutcomeAt(Select, s, init, i) == Done;
    }
  }

  /** Calls of a shorter run have the same outcomes. */
  lemma ExtendRun(s: State, es: seq<Event>)
    requires es != []
    ensures forall i :: 0 <= i < |es| - 1 ==> OutcomeAt(Select, s, es, i) == OutcomeAt(Select, s, es[..|es| - 1], i)
  {
    forall i | 0 <= i < |es| - 1
      ensures OutcomeAt(Select, s, es, i) == OutcomeAt(Select, s, es[..|es| - 1], i)
    {
      assert es[..|es| - 1][..i] == es[..i];
    }
  }

  /* ----- Statements without a cursor ----- */

  /** The call makes the next fetch return a row again. */
  predicate Resets(kind: Kind, e: Event) {
    kind == Modify && e.Execute? && e.bindOk && e.reply.Some? && e.infoOk
  }

  /** Every fetch before n is followed, still before n, by a resetting execute. */
  ghost predicate Fresh(kind: Kind, es: seq<Event>, n: nat)
    requires n <= |es|
  {
    forall i :: 0 <= i < n && es[i].Fetch? ==> exists k :: i < k < n && Resets(kind, es[k])
  }

  /** The output message of the last execute whose server call wrote it, or the initial one. */
  function LastOutput(kind: Kind, initial: Message, es: seq<Event>): Message {
    if es == [] then initial
    else
      var e := es[|es| - 1];
      if e.Execute? && e.reply.Some? && (kind == Modify ==> e.bindOk) then e.reply.value
      else LastOutput(kind, initial, es[..|es| - 1])
  }

  /**
   The simulated fetch: over any interleaving, a fetch finds a row exactly when no fetch came since
   the last resetting execute (or the start). The row is what the server last wrote, even if that
   execute then failed; it is lost if it cannot be converted.
   */
  lemma SimulatedFetch(kind: Kind, pending: seq<Message>, output: Message, es: seq<Event>, j: nat)
    requires kind != Select && j < |es| && es[j].Fetch?
    ensures OutcomeAt(kind, Initial(pending, output), es, j)
            == if Fresh(kind, es, j) then Converted(LastOutput(kind, output, es[..j]), es[j]) else NoMore
  {
    SimulatedState(kind, pending, output, es[..j]);
    if !Fresh(kind, es, j) {
      var i :| 0 <= i < j && es[i].Fetch? && !exists k :: i < k < j && Resets(kind, es[k]);
      assert es[..j][i].Fetch?;
    } else {
      forall i | 0 <= i < j && es[..j][i].Fetch? ensures exists k :: i < k < j && Resets(kind, es[..j][k]) {
        var k :| i < k < j && Resets(kind, es[k]);
        assert Resets(kind, es[..j][k]);
      }
    }
  }

  lemma {:induction false} SimulatedState(kind: Kind, pending: seq<Message>, output: Message, es: seq<Event>)
    requires kind != Select
    ensures var s := Run(kind, Initial(pending, output), es);
            && !s.dead && s.cursor == None
            && (s.didFakeFetch <==> !Fresh(kind, es, |es|))
            && s.output == LastOutput(kind, output, es)
  {
    if es != [] {
      var n := |es| - 1;
      SimulatedState(kind, pending, output, es[..n]);
      FreshStep(kind, es);
    }
  }

  lemma ResetsIsExecute(kind: Kind, e: Event)
    ensures Resets(kind, e) ==> !e.Fetch?
  {
  }

  lemma FreshStep(kind: Kind, es: seq<Event>)
    requires es != []
    ensures var n := |es| - 1;
            Fresh(kind, es, |es|) <==> Resets(kind, es[n]) || (!es[n].Fetch? && Fresh(kind, es[..n], n))
  {
    hide Resets;
    var n := |es| - 1;
    var init := es[..n];
    ResetsIsExecute(kind, es[n]);
    if Fresh(kind, es, |es|) && !Resets(kind, es[n]) {
      forall i | 0 <= i < n && init[i].Fetch? ensures exists k :: i < k < n && Resets(kind, init[k]) {
        var k :| i < k < |es| && Resets(kind, es[k]);
        assert Resets(kind, init[k]);
      }
      assert !es[n].Fetch?;
    } else if !es[n].Fetch? && Fresh(kind, init, n) {
      forall i | 0 <= i < |es| && es[i].Fetch? ensures exists k :: i < k < |es| && Resets(kind, es[k]) {
        assert init[i].Fetch?;
        var k :| i < k < n && Resets(kind, init[k]);
        assert Resets(kind, es[k]);
      }
    }
  }
}
