/** The number a transaction object shows to a PHP program, against the transaction it holds. */
module ShownNumbers {
  import opened MachineTypes
  import opened TransactionLifecycle
  import opened TransactionRuns

  /** Object i exists and its wrapper was not destroyed, so its number can be read. */
  predicate Readable(w: World, i: nat) {
    i < |w.ws| && w.ws[i].objectAlive && w.ws[i].slotAlive
  }

  /* ----- What one event does, told by the event alone ----- */

  /** The event gives object i a transaction, or takes the one it holds. */
  predicate ChangesHandle(w: World, e: Event, i: nat) {
    && !w.dead && Readable(w, i) && e.On? && e.i == i
    && match e.c
       case Start(ok, _) => w.ws[i].tra == None && ok
       case Execute(reply, _) => if w.ws[i].tra.Some? then reply == SqlEnds else reply == SqlStarts
       case Finalize(mode, ok) => w.ws[i].tra.Some? && ok && !Retains(KindOf(mode))
       case _ => false
  }

  /** The server, or the end of a transaction by SQL text, tells the wrapper a number. */
  predicate Reports(w: World, e: Event, i: nat) {
    && ChangesHandle(w, e, i)
    && match e.c
       case Start(_, infoOk) => infoOk
       case Execute(_, infoOk) => w.ws[i].tra.Some? || infoOk
       case _ => false
  }

  /** The number told: that of the transaction just started, or 0. */
  function Reported(w: World, e: Event): nat {
    if e.On? && e.c.Execute? && e.i < |w.ws| && w.ws[e.i].tra.Some? then 0 else |w.srv.status| + 1
  }

  lemma NumberStep(w: World, e: Event, i: nat)
    requires Inv(w)
    ensures var w' := WorldStep(w, e).0;
            Readable(w', i) && i < |w.ws| ==>
              && Readable(w, i) && w'.ws[i].origin == w.ws[i].origin
              && w'.ws[i].id == (if Reports(w, e, i) then Reported(w, e) else w.ws[i].id)
              && (Reports(w, e, i) ==> w'.ws[i].Number() == Reported(w, e))
              && (!ChangesHandle(w, e, i) ==> w'.ws[i].tra == w.ws[i].tra)
              && (ChangesHandle(w, e, i) ==> w'.ws[i].tra.Some? == (w.ws[i].tra == None))
              && (ChangesHandle(w, e, i) && w'.ws[i].tra.Some? ==> w'.ws[i].tra.value == |w.srv.status|)
  {
    if e.On? && e.i < |w.ws| {
      assert w.ws[e.i].tra.Some? ==> HeldAt(w, w.ws[e.i].tra.value, e.i);
    }
  }

  /** A new wrapper is up to date: it holds nothing, or what reconnecting gave it. */
  lemma NewNumber(w: World, e: Event, i: nat)
    requires Inv(w) && |w.ws| <= i < |WorldStep(w, e).0.ws|
    ensures var x := WorldStep(w, e).0.ws[i];
            i == |w.ws| && x.id == (if x.origin == Reconnected then x.Number() else 0)
            && (x.origin == Constructed ==> x.tra == None)
  {
  }

  /* ----- History ----- */

  ghost predicate ChangesAt(limbo: nat, es: seq<Event>, i: nat, k: int) {
    0 <= k < |es| && ChangesHandle(Run(limbo, es[..k]), es[k], i)
  }

  ghost predicate ReportsAt(limbo: nat, es: seq<Event>, i: nat, k: int) {
    0 <= k < |es| && Reports(Run(limbo, es[..k]), es[k], i)
  }

  /** Call k was the last to change the handle of object i, and no number was told. */
  ghost predicate UnreportedAt(limbo: nat, es: seq<Event>, i: nat, k: int) {
    && ChangesAt(limbo, es, i, k) && !ReportsAt(limbo, es, i, k)
    && forall m :: k < m < |es| ==> !ChangesAt(limbo, es, i, m)
  }

  ghost predicate Unreported(limbo: nat, es: seq<Event>, i: nat) {
    exists k :: UnreportedAt(limbo, es, i, k)
  }

  /** Call k was the last to tell object i a number, and the number was not 0. */
  ghost predicate NamesAt(limbo: nat, es: seq<Event>, i: nat, k: int) {
    && ReportsAt(limbo, es, i, k) && Reported(Run(limbo, es[..k]), es[k]) != 0
    && forall m :: k < m < |es| ==> !ReportsAt(limbo, es, i, m)
  }

  /** The last number told to object i was that of a transaction. */
  ghost predicate Named(limbo: nat, es: seq<Event>, i: nat) {
    exists k :: NamesAt(limbo, es, i, k)
  }

  lemma UnreportedStep(limbo: nat, es: seq<Event>, i: nat)
    requires es != []
    ensures var n := |es| - 1;
            var w := Run(limbo, es[..n]);
            Unreported(limbo, es, i) <==>
            if ChangesHandle(w, es[n], i) then !Reports(w, es[n], i) else Unreported(limbo, es[..n], i)
  {
    hide Run, ChangesHandle, Reports;
    var n := |es| - 1;
    var init := es[..n];
    forall k | 0 <= k < n
      ensures ChangesAt(limbo, es, i, k) <==> ChangesAt(limbo, init, i, k)
      ensures ReportsAt(limbo, es, i, k) <==> ReportsAt(limbo, init, i, k)
    {
      assert init[..k] == es[..k];
    }
    assert ChangesAt(limbo, es, i, n) <==> ChangesHandle(Run(limbo, init), es[n], i);
    assert ReportsAt(limbo, es, i, n) <==> Reports(Run(limbo, init), es[n], i);
    if ChangesHandle(Run(limbo, init), es[n], i) {
      assert UnreportedAt(limbo, es, i, n) <==> !Reports(Run(limbo, init), es[n], i);
    } else {
      if Unreported(limbo, es, i) {
        var k :| UnreportedAt(limbo, es, i, k);
        assert UnreportedAt(limbo, init, i, k);
      }
      if Unreported(limbo, init, i) {
        var k :| UnreportedAt(limbo, init, i, k);
        assert UnreportedAt(limbo, es, i, k);
      }
    }
  }

  lemma NamedStep(limbo: nat, es: seq<Event>, i: nat)
    requires es != []
    ensures var n := |es| - 1;
            var w := Run(limbo, es[..n]);
            Named(limbo, es, i) <==>
            if Reports(w, es[n], i) then Reported(w, es[n]) != 0 else Named(limbo, es[..n], i)
  {
    hide Run, Reports, Reported;
    var n := |es| - 1;
    var init := es[..n];
    forall k | 0 <= k < n
      ensures init[..k] == es[..k] && (ReportsAt(limbo, es, i, k) <==> ReportsAt(limbo, init, i, k))
    {
      assert init[..k] == es[..k];
    }
    assert ReportsAt(limbo, es, i, n) <==> Reports(Run(limbo, init), es[n], i);
    if Reports(Run(limbo, init), es[n], i) {
      assert NamesAt(limbo, es, i, n) <==> Reported(Run(limbo, init), es[n]) != 0;
    } else {
      if Named(limbo, es, i) {
        var k :| NamesAt(limbo, es, i, k);
        assert NamesAt(limbo, init, i, k);
      }
      if Named(limbo, init, i) {
        var k :| NamesAt(limbo, init, i, k);
        assert NamesAt(limbo, es, i, k);
      }
    }
  }

  /** Calls on an object that does not exist yet do nothing. */
  lemma NoHistoryBefore(limbo: nat, es: seq<Event>, i: nat)
    requires i >= |Run(limbo, es).ws|
    ensures !Unreported(limbo, es, i) && !Named(limbo, es, i)
  {
    forall k | 0 <= k < |es| ensures i >= |Run(limbo, es[..k]).ws| {
      WrappersStay(limbo, es, k);
    }
  }

  lemma {:induction false} WrappersStay(limbo: nat, es: seq<Event>, k: nat)
    requires k <= |es|
    ensures |Run(limbo, es[..k]).ws| <= |Run(limbo, es).ws|
  {
    hide WorldStep, Inv;
    if k == |es| {
      assert es[..k] == es;
    } else {
      var n := |es| - 1;
      assert es[..n][..k] == es[..k];
      WrappersStay(limbo, es[..n], k);
      InvIsSound(Run(limbo, es[..n]));
      StepKeepsWrappers(Run(limbo, es[..n]), es[n]);
    }
  }

  lemma StepKeepsWrappers(w: World, e: Event)
    requires HoldingsSound(w)
    ensures |w.ws| <= |WorldStep(w, e).0.ws|
  {
  }

  /* ----- Any run ----- */

  /** The number last told to a wrapper, its history and what it holds. */
  ghost predicate NumberSound(limbo: nat, es: seq<Event>, i: nat) {
    var w := Run(limbo, es);
    Readable(w, i) && w.ws[i].origin == Constructed ==>
      && w.ws[i].id <= |w.srv.status|
      && (w.ws[i].id != 0 <==> Named(limbo, es, i))
      && (!Unreported(limbo, es, i) ==> w.ws[i].id == w.ws[i].Number())
      && (Unreported(limbo, es, i) && w.ws[i].tra.Some? ==> w.ws[i].id <= w.ws[i].tra.value)
  }

  lemma {:induction false} NumbersSound(limbo: nat, es: seq<Event>, i: nat)
    ensures NumberSound(limbo, es, i)
  {
    if es != [] {
      var n := |es| - 1;
      NumbersSound(limbo, es[..n], i);
      NumberSoundStep(limbo, es, i);
    }
  }

  lemma NumberSoundStep(limbo: nat, es: seq<Event>, i: nat)
    requires es != [] && NumberSound(limbo, es[..|es| - 1], i)
    ensures NumberSound(limbo, es, i)
  {
    hide Unreported, Named, WorldStep, Inv, ChangesHandle, Reports;
    var n := |es| - 1;
    var w := Run(limbo, es[..n]);
    var w' := Run(limbo, es);
    InvIsSound(w);
    assert w' == WorldStep(w, es[n]).0;
    StatusGrows(w, es[n]);
    UnreportedStep(limbo, es, i);
    NamedStep(limbo, es, i);
    if Readable(w', i) && w'.ws[i].origin == Constructed {
      if i < |w.ws| {
        NumberStep(w, es[n], i);
        ReportsChange(w, es[n], i);
      } else {
        NewNumber(w, es[n], i);
        NoHistoryBefore(limbo, es[..n], i);
        NothingYet(w, es[n], i);
      }
    }
  }

  lemma StatusGrows(w: World, e: Event)
    requires Inv(w)
    ensures |w.srv.status| <= |WorldStep(w, e).0.srv.status|
    ensures |WorldStep(w, e).0.srv.status| > |w.srv.status| || forall i: nat :: Reports(w, e, i) ==> Reported(w, e) == 0
  {
    if e.On? && e.i < |w.ws| {
      assert w.ws[e.i].tra.Some? ==> HeldAt(w, w.ws[e.i].tra.value, e.i);
    }
  }

  lemma ReportsChange(w: World, e: Event, i: nat)
    ensures Reports(w, e, i) ==> ChangesHandle(w, e, i)
  {
  }

  lemma NothingYet(w: World, e: Event, i: nat)
    requires i >= |w.ws|
    ensures !ChangesHandle(w, e, i) && !Reports(w, e, i)
  {
  }

  /**
   In every run, the number an object shows is that of the transaction it holds, 0 if it holds none,
   exactly in these cases. A reconnected object: it holds nothing. Any other: the last call that gave it
   a transaction or took one told a number (a working information call, or an end by SQL text), or there
   was no such call; or it holds nothing and the last number it was told, if any, was 0.
   */
  lemma ShownNumberExactly(limbo: nat, es: seq<Event>, i: nat)
    requires Readable(Run(limbo, es), i)
    ensures var x := Run(limbo, es).ws[i];
            x.Shown() == x.Number() <==>
            if x.origin == Reconnected then x.tra == None
            else !Unreported(limbo, es, i) || (x.tra == None && !Named(limbo, es, i))
  {
    var w := Run(limbo, es);
    assert StraysLost(w);
    NumbersSound(limbo, es, i);
  }

  /* ----- Concrete runs ----- */

  /** A reconnected object shows 0 while it holds its transaction, and after committing it. */
  lemma ReconnectedShowsNothing() returns (es: seq<Event>)
    ensures var w := Run(1, es);
            HeldAt(w, 0, 0) && Readable(w, 0) && w.ws[0].Number() == 1 && w.ws[0].Shown() == 0
    ensures var w := Run(1, es + [On(0, Finalize(FBP_TR_COMMIT, true))]);
            !Held(w, 0) && Readable(w, 0) && w.ws[0].Shown() == 0
  {
    var e0: seq<Event> := [];
    es := [Reconnect(0, true, true)];
    assert es[..0] == e0 && Run(1, e0) == Begin(1);
    var x := ReconnectedWrapper(0, true);
    assert Single(Run(1, es), x, Begin(1).srv);
    var y, srv := PushCall(1, es, Finalize(FBP_TR_COMMIT, true), x, Begin(1).srv);
  }

  /** After `commit()` an object shows the number of the transaction it no longer holds. */
  lemma CommittedShowsOldNumber() returns (es: seq<Event>)
    ensures var w := Run(0, es);
            Readable(w, 0) && w.ws[0].tra == None && w.ws[0].Shown() == 1
  {
    var w: Wrapper, srv: Server;
    es, w, srv := PreparedAndCommitted();
  }
}
