/** What the calls of a run return to the program: rows, the end, or an error. */
module FetchOutcomes {
  import opened FetchProtocol

  /* ----- One fetch ----- */

  /** The cursor is open or can be opened. */
  predicate Opens(s: State, e: Event)
    requires e.Fetch?
  {
    s.isCursorOpen || e.openOk
  }

  /**
   A fetch of a SELECT returns the end exactly if it was reported before, or no row is left and the
   server answered fetch and close; a row exactly if that row was next, handed over and converted; and
   it fails otherwise.
   */
  lemma FetchOutcome(s: State, e: Event)
    requires Agree(s) && e.Fetch?
    ensures var o := Step(Select, s, e).1;
            var rest := if s.isExhausted then [] else if s.cursor.Some? then s.cursor.value else s.pending;
            && (o == NoMore <==>
                  s.isExhausted || (Opens(s, e) && rest == [] && e.fetchOk && e.closeOk))
            && (forall row :: o == RowOf(row) <==>
                  !s.isExhausted && Opens(s, e) && e.fetchOk && rest != [] && row == rest[0] && e.decodeOk)
            && (o.NoMore? || o.RowOf? || o == Failed)
  {
  }

  /* ----- Any run ----- */

  /** A fetch before call n reported the end, and no execute succeeded since. */
  ghost predicate EndedAt(s: State, es: seq<Event>, n: int, i: int) {
    && 0 <= i < n <= |es| && es[i].Fetch? && OutcomeAt(Select, s, es, i) == NoMore
    && forall k :: i < k < n ==> !(es[k].Execute? && OutcomeAt(Select, s, es, k) == Done)
  }

  ghost predicate Ended(s: State, es: seq<Event>, n: int) {
    exists i :: EndedAt(s, es, n, i)
  }

  lemma EndedStep(s: State, es: seq<Event>)
    requires es != []
    ensures var n := |es| - 1;
            var o := Step(Select, Run(Select, s, es[..n]), es[n]).1;
            Ended(s, es, |es|) <==>
            || (es[n].Fetch? && o == NoMore)
            || (Ended(s, es[..n], n) && !(es[n].Execute? && o == Done))
  {
    hide Step;
    var n := |es| - 1;
    ExtendRun(s, es);
    assert OutcomeAt(Select, s, es, n) == Step(Select, Run(Select, s, es[..n]), es[n]).1;
    if Ended(s, es, |es|) {
      var i :| EndedAt(s, es, |es|, i);
      assert i < n ==> EndedAt(s, es[..n], n, i);
    }
    if es[n].Fetch? && OutcomeAt(Select, s, es, n) == NoMore {
      assert EndedAt(s, es, |es|, n);
    }
    if Ended(s, es[..n], n) && !(es[n].Execute? && OutcomeAt(Select, s, es, n) == Done) {
      var i :| EndedAt(s, es[..n], n, i);
      assert EndedAt(s, es, |es|, i);
    }
  }

  lemma ExhaustedStep(s: State, e: Event)
    requires Agree(s) && !e.CloseCursor?
    ensures var (s', o) := Step(Select, s, e);
            s'.isExhausted <==> (e.Fetch? && o == NoMore) || (s.isExhausted && !(e.Execute? && o == Done))
  {
  }

  lemma {:induction false} ExhaustedIsHistory(first: seq<Message>, output: Message, es: seq<Event>)
    requires NoClose(es)
    ensures Agree(Run(Select, Initial(first, output), es))
    ensures Run(Select, Initial(first, output), es).isExhausted <==> Ended(Initial(first, output), es, |es|)
  {
    var s := Initial(first, output);
    RunAgrees(Select, s, es);
    if es == [] {
      assert !Ended(s, es, |es|);
    } else {
      hide Ended, Step, Agree;
      var n := |es| - 1;
      ExhaustedIsHistory(first, output, es[..n]);
      EndedStep(s, es);
      ExhaustedStep(Run(Select, s, es[..n]), es[n]);
    }
  }

  /**
   In every run without an explicit close: a fetch returns the end if and only if the end was returned
   since the last successful execute, or no row is left and the calls were answered; it returns a row if
   and only if that row was handed over and converted; otherwise it fails.
   */
  lemma FetchReturns(first: seq<Message>, output: Message, es: seq<Event>, j: nat)
    requires NoClose(es) && j < |es| && es[j].Fetch?
    ensures var init := Initial(first, output);
            var s, e, o := Run(Select, init, es[..j]), es[j], OutcomeAt(Select, init, es, j);
            && (o == NoMore <==>
                  Ended(init, es, j) || (Opens(s, e) && Remaining(s) == [] && e.fetchOk && e.closeOk))
            && (forall row :: o == RowOf(row) <==>
                  Opens(s, e) && e.fetchOk && Remaining(s) != [] && row == Remaining(s)[0] && e.decodeOk)
            && (o.NoMore? || o.RowOf? || o == Failed)
  {
    hide Step, Run, Ended;
    var init := Initial(first, output);
    ExhaustedIsHistory(first, output, es[..j]);
    EndedBefore(init, es, j);
    FetchOutcome(Run(Select, init, es[..j]), es[j]);
  }

  lemma EndedBefore(s: State, es: seq<Event>, j: nat)
    requires j <= |es|
    ensures Ended(s, es[..j], j) <==> Ended(s, es, j)
  {
    hide Step;
    forall i | 0 <= i < j ensures OutcomeAt(Select, s, es[..j], i) == OutcomeAt(Select, s, es, i) {
      assert es[..j][..i] == es[..i];
    }
    forall i ensures EndedAt(s, es[..j], j, i) <==> EndedAt(s, es, j, i) {
    }
  }

  /** With every call answered, call k of a row of fetches returns row k, and the end from there on. */
  lemma AnsweredOutcome(s: State, m: nat, k: nat)
    requires Agree(s) && k < m
    ensures OutcomeAt(Select, s, Fetches(m), k)
            == if k < |Remaining(s)| then RowOf(Remaining(s)[k]) else NoMore
  {
    hide Step, Remaining, Agree;
    AnsweredFetches(s, k);
    assert Fetches(m)[..k] == Fetches(k);
    AnsweredStep(Run(Select, s, Fetches(k)));
  }

  lemma AnsweredStep(s: State)
    requires Agree(s)
    ensures Step(Select, s, Fetch(true, true, true, true)).1
            == if Remaining(s) != [] then RowOf(Remaining(s)[0]) else NoMore
  {
  }

  /* ----- Executes and closes ----- */

  /** An execute succeeds exactly if every call its statement type makes was answered. */
  lemma ExecuteReturns(kind: Kind, s: State, es: seq<Event>, j: nat)
    requires j < |es| && es[j].Execute? && !Run(kind, s, es[..j]).dead
    ensures OutcomeAt(kind, s, es, j) ==
            match kind
            case Select => if es[j].bindOk then Done else Failed
            case Modify => if es[j].bindOk && es[j].reply.Some? && es[j].infoOk then Done else Failed
            case Plain => if es[j].reply.Some? && es[j].infoOk then Done else Failed
  {
  }

  /** In a run without an earlier close, closing succeeds exactly if the cursor is open and the server answers. */
  lemma CloseReturns(first: seq<Message>, output: Message, es: seq<Event>, j: nat)
    requires j < |es| && es[j].CloseCursor? && NoClose(es[..j])
    ensures var s := Run(Select, Initial(first, output), es[..j]);
            OutcomeAt(Select, Initial(first, output), es, j)
            == if s.isCursorOpen && es[j].closeOk then Done else Failed
  {
    RunAgrees(Select, Initial(first, output), es[..j]);
  }
}
