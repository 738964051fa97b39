/**
 Runs over many wrappers of one attachment: who holds which transaction, and which calls are made on
 it. A run starts with any number of limbo transactions, prepared by processes that are gone.
 */
module TransactionRuns {
  import opened MachineTypes
  import opened TransactionLifecycle

  /**
   `waiting` are the limbo transactions nobody reconnected yet, `dead` says that a null dereference
   has ended the process.
   */
  datatype World = World(ws: seq<Wrapper>, srv: Server, waiting: set<nat>, dead: bool)

  /** The first `limbo` transactions of the server are in limbo. */
  function Begin(limbo: nat): World {
    World([], Server(seq(limbo, _ => Prepared), []), Below(limbo), false)
  }

  function Below(n: nat): (s: set<nat>)
    ensures forall t: nat :: t in s <==> t < n
  {
    if n == 0 then {} else Below(n - 1) + {n - 1}
  }

  /**
   `Reconnect` is granted only for a prepared transaction that no wrapper holds; the information call
   after it may fail.
   */
  datatype Event =
    | New
    | On(i: nat, c: Call)
    | Reconnect(t: nat, ok: bool, infoOk: bool)

  /** Wrapper i holds transaction t. */
  predicate HeldAt(w: World, t: nat, i: nat) {
    i < |w.ws| && w.ws[i].tra == Some(t)
  }

  ghost predicate Held(w: World, t: nat) {
    exists i: nat :: HeldAt(w, t, i)
  }

  /** A destructor's rollback of t was refused. */
  ghost predicate Abandoned(log: seq<Logged>, t: nat) {
    exists k :: 0 <= k < |log| && log[k] == Logged(t, Release, false)
  }

  ghost predicate EndedIn(log: seq<Logged>, t: nat) {
    exists k :: 0 <= k < |log| && log[k].tra == t && log[k].ended
  }

  /* ----- The invariant ----- */

  /** A held transaction is unfinished, its slot is alive, and no one else holds it. */
  ghost predicate HoldingsSound(w: World) {
    && (forall i: nat, t: nat :: HeldAt(w, t, i) ==> w.srv.Knows(t) && w.srv.status[t] != Finished && w.ws[i].slotAlive)
    && (forall i: nat, j: nat, t: nat :: HeldAt(w, t, i) && HeldAt(w, t, j) ==> i == j)
  }

  /** An unfinished transaction is held, unless it still waits or a destructor failed to roll it back. */
  ghost predicate NoneForgotten(w: World) {
    forall t: nat :: w.srv.Knows(t) && w.srv.status[t] != Finished ==>
      Held(w, t) || Abandoned(w.srv.log, t) || t in w.waiting
  }

  /** A wrapper lost by reconnecting has no object. */
  ghost predicate StraysLost(w: World) {
    forall i :: 0 <= i < |w.ws| && w.ws[i].origin == Stray ==> !w.ws[i].objectAlive
  }

  ghost predicate WaitingSound(w: World) {
    forall t: nat :: t in w.waiting ==> w.srv.Knows(t) && w.srv.status[t] == Prepared && !Held(w, t)
  }

  /** Exactly the finished transactions were ended by a call, and no call follows the one that ended. */
  ghost predicate LogSound(srv: Server) {
    && (forall k :: 0 <= k < |srv.log| ==> srv.Knows(srv.log[k].tra))
    && (forall t: nat :: srv.Knows(t) ==> (srv.status[t] == Finished <==> EndedIn(srv.log, t)))
    && (forall k, m :: 0 <= k < m < |srv.log| && srv.log[k].ended ==> srv.log[m].tra != srv.log[k].tra)
  }

  ghost predicate Inv(w: World) {
    HoldingsSound(w) && NoneForgotten(w) && WaitingSound(w) && LogSound(w.srv) && StraysLost(w)
  }

  /* ----- Steps and runs ----- */

  ghost function WorldStep(w: World, e: Event): (World, Outcome)
    requires HoldingsSound(w)
  {
    if w.dead then (w, Crashed)
    else match e
    case New => (w.(ws := w.ws + [NewWrapper]), Done)
    case On(i, c) =>
      if i >= |w.ws| then (w, Failed)
      else
        assert w.ws[i].tra.Some? ==> HeldAt(w, w.ws[i].tra.value, i);
        var (x, srv, o) := Step(w.ws[i], w.srv, c);
        (w.(ws := w.ws[i := x], srv := srv, dead := o == Crashed), o)
    case Reconnect(t, ok, infoOk) =>
      if ok && w.srv.Knows(t) && w.srv.status[t] == Prepared && !Held(w, t)
      then
        var w' := w.(ws := w.ws + [ReconnectedWrapper(t, infoOk)], waiting := w.waiting - {t});
        (w', if infoOk then Done else Failed)
      else (w, Failed)
  }

  ghost function Run(limbo: nat, es: seq<Event>): (w: World)
    ensures Inv(w)
  {
    if es == [] then
      Begin(limbo)
    else
      var n := |es| - 1;
      StepKeepsInv(Run(limbo, es[..n]), es[n]);
      WorldStep(Run(limbo, es[..n]), es[n]).0
  }

  ghost function OutcomeAt(limbo: nat, es: seq<Event>, k: nat): Outcome
    requires k < |es|
  {
    WorldStep(Run(limbo, es[..k]), es[k]).1
  }

  /** A logged call on the held transaction: it keeps the handle, ends the transaction, or gives it up. */
  predicate CallEffect(w: Wrapper, srv: Server, x: Wrapper, srv': Server, t: nat, kind: CallKind, after: Status)
    requires srv.Knows(t)
  {
    && srv' == srv.Call(t, kind, after)
    && (|| (after != Finished && x.tra == Some(t) && x.slotAlive == w.slotAlive)
        || (after == Finished && x.tra == None)
        || (after == srv.status[t] && x.tra == None && kind == Release))
  }

  /** What one call does to its wrapper and the server, as far as the invariant is concerned. */
  ghost predicate LocalEffect(w: Wrapper, srv: Server, x: Wrapper, srv': Server) {
    x.origin == w.origin && (x.objectAlive ==> w.objectAlive) &&
    match w.tra
    case None =>
      || (srv' == srv && x.tra == None)
      || (srv' == srv.Begin() && x.tra == Some(|srv.status|) && x.slotAlive)
    case Some(t) =>
      && srv.Knows(t)
      && (|| (srv' == srv && x.tra == w.tra && x.slotAlive == w.slotAlive)
          || exists kind: CallKind, after: Status :: CallEffect(w, srv, x, srv', t, kind, after))
  }

  lemma StepEffect(w: Wrapper, srv: Server, c: Call)
    requires w.tra.Some? ==> srv.Knows(w.tra.value) && srv.status[w.tra.value] != Finished && w.slotAlive
    ensures var (x, srv', o) := Step(w, srv, c); LocalEffect(w, srv, x, srv')
  {
    var (x, srv', o) := Step(w, srv, c);
    if w.tra.Some? && srv' != srv {
      var t := w.tra.value;
      assert CallEffect(w, srv, x, srv', t, srv'.log[|srv.log|].kind, srv'.status[t]);
    }
  }

  lemma StepKeepsInv(w: World, e: Event)
    requires Inv(w)
    ensures Inv(WorldStep(w, e).0)
  {
    var w' := WorldStep(w, e).0;
    if w.dead {
      return;
    }
    match e {
      case New =>
        forall i: nat, t: nat ensures HeldAt(w', t, i) <==> HeldAt(w, t, i) {
        }
        SameHoldings(w, w');
      case Reconnect(t, ok, infoOk) =>
        if w' != w {
          var n := |w.ws|;
          forall i: nat, u: nat ensures HeldAt(w', u, i) <==> HeldAt(w, u, i) || (i == n && u == t) {
          }
          forall u: nat | Held(w, u) ensures Held(w', u) {
            var i: nat :| HeldAt(w, u, i);
            assert HeldAt(w', u, i);
          }
          assert HeldAt(w', t, n);
        }
      case On(i, c) =>
        if i < |w.ws| {
          assert w.ws[i].tra.Some? ==> HeldAt(w, w.ws[i].tra.value, i);
          StepEffect(w.ws[i], w.srv, c);
          EffectKeepsInv(w, i, w'.ws[i], w'.srv);
          var alive := w.(ws := w.ws[i := w'.ws[i]], srv := w'.srv);
          forall j: nat, t: nat ensures HeldAt(w', t, j) <==> HeldAt(alive, t, j) {
          }
          SameHoldings(alive, w');
        }
    }
  }

  lemma SameHoldings(w: World, w': World)
    requires Inv(w) && StraysLost(w') && w'.srv == w.srv && w'.waiting == w.waiting
    requires forall i: nat, t: nat :: HeldAt(w', t, i) <==> HeldAt(w, t, i)
    requires forall i :: 0 <= i < |w.ws| ==>
               i < |w'.ws| && (w.ws[i].tra.Some? ==> w'.ws[i].slotAlive == w.ws[i].slotAlive)
    ensures Inv(w')
  {
    forall t: nat ensures Held(w, t) <==> Held(w', t) {
      if Held(w, t) {
        var i: nat :| HeldAt(w, t, i);
        assert HeldAt(w', t, i);
      }
      if Held(w', t) {
        var i: nat :| HeldAt(w', t, i);
        assert HeldAt(w, t, i);
      }
    }
  }

  lemma EffectKeepsInv(w: World, i: nat, x: Wrapper, srv': Server)
    requires Inv(w) && i < |w.ws| && LocalEffect(w.ws[i], w.srv, x, srv')
    ensures Inv(w.(ws := w.ws[i := x], srv := srv'))
  {
    var w' := w.(ws := w.ws[i := x], srv := srv');
    assert StraysLost(w');
    match w.ws[i].tra {
      case None =>
        if x.tra == None {
          SameHoldings(w, w');
        } else {
          BeginKeepsInv(w, i, x, srv');
        }
      case Some(t) =>
        assert HeldAt(w, t, i);
        if srv' == w.srv && x.tra == w.ws[i].tra && x.slotAlive == w.ws[i].slotAlive {
          SameHoldings(w, w');
        } else {
          var kind: CallKind, after: Status :| CallEffect(w.ws[i], w.srv, x, srv', t, kind, after);
          CallKeepsLog(w.srv, t, kind, after);
          CallKeepsHoldings(w, i, x, t, kind, after);
          CallForgetsNone(w, i, x, t, kind, after);
          CallKeepsWaiting(w, i, x, t, kind, after);
        }
    }
  }

  lemma BeginKeepsInv(w: World, i: nat, x: Wrapper, srv': Server)
    requires Inv(w) && i < |w.ws| && w.ws[i].tra == None
    requires srv' == w.srv.Begin() && x.tra == Some(|w.srv.status|) && x.slotAlive
    requires StraysLost(w.(ws := w.ws[i := x], srv := srv'))
    ensures Inv(w.(ws := w.ws[i := x], srv := srv'))
  {
    var w', first := w.(ws := w.ws[i := x], srv := srv'), |w.srv.status|;
    forall j: nat, u: nat ensures HeldAt(w', u, j) <==> (HeldAt(w, u, j) || (j == i && u == first)) {
    }
    forall u: nat ensures Held(w', u) <==> Held(w, u) || u == first {
      if Held(w, u) {
        var j: nat :| HeldAt(w, u, j);
        assert HeldAt(w', u, j);
      }
      assert u == first ==> HeldAt(w', u, i);
    }
    assert !EndedIn(srv'.log, first);
  }

  lemma CallKeepsWaiting(w: World, i: nat, x: Wrapper, t: nat, kind: CallKind, after: Status)
    requires WaitingSound(w) && HeldAt(w, t, i) && w.srv.Knows(t)
    requires x.tra == Some(t) || x.tra == None
    ensures WaitingSound(w.(ws := w.ws[i := x], srv := w.srv.Call(t, kind, after)))
  {
    var w' := w.(ws := w.ws[i := x], srv := w.srv.Call(t, kind, after));
    forall u: nat | u in w.waiting ensures !Held(w', u) && u != t {
      assert Held(w, t);
      if Held(w', u) {
        var j: nat :| HeldAt(w', u, j);
        assert HeldAt(w, u, j);
      }
    }
  }

  /** A call on an unfinished transaction: nothing was ended twice, nothing is called after its end. */
  lemma CallKeepsLog(srv: Server, t: nat, kind: CallKind, after: Status)
    requires LogSound(srv) && srv.Knows(t) && srv.status[t] != Finished
    ensures LogSound(srv.Call(t, kind, after))
  {
    var srv' := srv.Call(t, kind, after);
    var n := |srv.log|;
    assert srv'.log[n] == Logged(t, kind, after == Finished);
    forall k | 0 <= k < n ensures srv'.log[k] == srv.log[k] && (srv.log[k].ended ==> srv.log[k].tra != t) {
      assert srv.log[k].ended && srv.log[k].tra == t ==> EndedIn(srv.log, t);
    }
    forall u: nat | srv'.Knows(u) ensures srv'.status[u] == Finished <==> EndedIn(srv'.log, u) {
      if EndedIn(srv.log, u) {
        var k :| 0 <= k < n && srv.log[k].tra == u && srv.log[k].ended;
        assert srv'.log[k].tra == u && srv'.log[k].ended;
      }
      if EndedIn(srv'.log, u) {
        var k :| 0 <= k < n + 1 && srv'.log[k].tra == u && srv'.log[k].ended;
        assert k < n ==> EndedIn(srv.log, u);
      }
    }
  }

  lemma CallKeepsHoldings(w: World, i: nat, x: Wrapper, t: nat, kind: CallKind, after: Status)
    requires HoldingsSound(w) && HeldAt(w, t, i) && w.srv.Knows(t)
    requires x.tra == None || (x.tra == Some(t) && after != Finished && x.slotAlive == w.ws[i].slotAlive)
    ensures HoldingsSound(w.(ws := w.ws[i := x], srv := w.srv.Call(t, kind, after)))
  {
    var w' := w.(ws := w.ws[i := x], srv := w.srv.Call(t, kind, after));
    forall j: nat, u: nat ensures HeldAt(w', u, j) ==> HeldAt(w, u, j) {
    }
  }

  lemma CallForgetsNone(w: World, i: nat, x: Wrapper, t: nat, kind: CallKind, after: Status)
    requires NoneForgotten(w) && HeldAt(w, t, i) && w.srv.Knows(t)
    requires x.tra == Some(t) || (x.tra == None && (after == Finished || (kind == Release && after != Finished)))
    ensures NoneForgotten(w.(ws := w.ws[i := x], srv := w.srv.Call(t, kind, after)))
  {
    var srv' := w.srv.Call(t, kind, after);
    var w' := w.(ws := w.ws[i := x], srv := srv');
    assert srv'.log[|w.srv.log|] == Logged(t, kind, after == Finished);
    forall u: nat | srv'.Knows(u) && srv'.status[u] != Finished && u !in w.waiting
      ensures Held(w', u) || Abandoned(srv'.log, u)
    {
      if u == t {
        assert x.tra == Some(t) ==> HeldAt(w', t, i);
      } else if Held(w, u) {
        var j: nat :| HeldAt(w, u, j);
        assert HeldAt(w', u, j);
      } else {
        var k :| 0 <= k < |w.srv.log| && w.srv.log[k] == Logged(u, Release, false);
        assert srv'.log[k] == Logged(u, Release, false);
      }
    }
  }

  /* ----- What holds in every run ----- */

  /** The limbo transaction t was reconnected in the run. */
  ghost predicate WasReconnected(limbo: nat, es: seq<Event>, t: nat) {
    exists k :: ReconnectsAt(limbo, es, t, k)
  }

  ghost predicate ReconnectsAt(limbo: nat, es: seq<Event>, t: nat, k: int) {
    0 <= k < |es| && es[k].Reconnect? && es[k].t == t && es[k].ok && !Run(limbo, es[..k]).dead
  }

  lemma {:induction false} WaitingIsHistory(limbo: nat, es: seq<Event>, t: nat)
    ensures t in Run(limbo, es).waiting <==> t < limbo && !WasReconnected(limbo, es, t)
  {
    if es != [] {
      hide Inv, WasReconnected;
      var n := |es| - 1;
      WaitingIsHistory(limbo, es[..n], t);
      assert Inv(Run(limbo, es[..n]));
      WaitingStep(Run(limbo, es[..n]), es[n], t);
      ReconnectedStep(limbo, es, t);
    } else {
      assert !WasReconnected(limbo, es, t);
    }
  }

  lemma WaitingStep(w: World, e: Event, t: nat)
    requires Inv(w)
    ensures t in WorldStep(w, e).0.waiting <==> t in w.waiting && !(e.Reconnect? && e.t == t && e.ok && !w.dead)
  {
  }

  lemma ReconnectedStep(limbo: nat, es: seq<Event>, t: nat)
    requires es != []
    ensures var n := |es| - 1;
            var reconnects := es[n].Reconnect? && es[n].t == t && es[n].ok && !Run(limbo, es[..n]).dead;
            WasReconnected(limbo, es, t) <==> WasReconnected(limbo, es[..n], t) || reconnects
  {
    hide Run;
    var n := |es| - 1;
    var init := es[..n];
    forall k | 0 <= k < n ensures ReconnectsAt(limbo, es, t, k) <==> ReconnectsAt(limbo, init, t, k) {
      assert init[..k] == es[..k];
    }
    assert ReconnectsAt(limbo, es, t, n) <==>
           es[n].Reconnect? && es[n].t == t && es[n].ok && !Run(limbo, es[..n]).dead;
  }

  /**
   A transaction started in the run, or reconnected from limbo, is held by exactly one wrapper while it
   is unfinished and by none once it ended; the one way to lose it in between is a destructor whose
   rollback was refused. A limbo transaction nobody reconnected is held by none.
   */
  lemma HeldExactlyWhileUnfinished(limbo: nat, es: seq<Event>, t: nat)
    requires Run(limbo, es).srv.Knows(t)
    ensures var w := Run(limbo, es);
            var taken := t >= limbo || WasReconnected(limbo, es, t);
            && (EndedIn(w.srv.log, t) || !taken ==> !Held(w, t))
            && (!Abandoned(w.srv.log, t) ==> (Held(w, t) <==> taken && !EndedIn(w.srv.log, t)))
            && (forall i: nat, j: nat :: HeldAt(w, t, i) && HeldAt(w, t, j) ==> i == j)
  {
    var w := Run(limbo, es);
    WaitingIsHistory(limbo, es, t);
    HeldByInvariant(w, t);
  }

  lemma HeldByInvariant(w: World, t: nat)
    requires Inv(w) && w.srv.Knows(t)
    ensures EndedIn(w.srv.log, t) || t in w.waiting ==> !Held(w, t)
    ensures !Abandoned(w.srv.log, t) ==> (Held(w, t) <==> t !in w.waiting && !EndedIn(w.srv.log, t))
    ensures forall i: nat, j: nat :: HeldAt(w, t, i) && HeldAt(w, t, j) ==> i == j
  {
    if Held(w, t) {
      var i: nat :| HeldAt(w, t, i);
    }
  }

  /** No transaction is ended twice, and no call of any kind is made on one that has ended. */
  lemma NoCallAfterEnd(limbo: nat, es: seq<Event>, k: nat, m: nat)
    requires k < m < |Run(limbo, es).srv.log| && Run(limbo, es).srv.log[k].ended
    ensures Run(limbo, es).srv.log[m].tra != Run(limbo, es).srv.log[k].tra
  {
    assert LogSound(Run(limbo, es).srv);
  }

  /** A finalizing call gives up the handle exactly when it succeeds in a mode that does not retain. */
  lemma FinalizeHandle(limbo: nat, es: seq<Event>, i: nat, t: nat, mode: int, ok: bool)
    requires !Run(limbo, es).dead && HeldAt(Run(limbo, es), t, i) && Run(limbo, es).ws[i].objectAlive
    ensures var (w, o) := WorldStep(Run(limbo, es), On(i, Finalize(mode, ok)));
            && (HeldAt(w, t, i) <==> !ok || mode == 5 || mode == 6)
            && (EndedIn(w.srv.log, t) <==> !HeldAt(w, t, i))
            && (o == Done <==> ok)
            && var kind := if mode == 2 then Commit
                           else if mode == 6 then CommitRetaining
                           else if mode == 5 then RollbackRetaining
                           else Rollback;
               w.srv.log == Run(limbo, es).srv.log + [Logged(t, kind, !HeldAt(w, t, i))]
  {
    var w := WorldStep(Run(limbo, es), On(i, Finalize(mode, ok))).0;
    StepKeepsInv(Run(limbo, es), On(i, Finalize(mode, ok)));
    assert LogSound(w.srv) && w.srv.Knows(t);
  }

  /** When each call succeeds, in any reachable state: exactly if it applies and its server calls are answered. */
  lemma CallReturns(limbo: nat, es: seq<Event>, e: Event)
    requires !Run(limbo, es).dead
    ensures var w := Run(limbo, es);
            WorldStep(w, e).1 ==
            match e
            case New => Done
            case Reconnect(t, ok, infoOk) =>
              if ok && infoOk && w.srv.Knows(t) && w.srv.status[t] == Prepared && !Held(w, t) then Done else Failed
            case On(i, c) =>
              if i >= |w.ws| || !w.ws[i].slotAlive || w.ws[i].origin == Stray
                 || (!w.ws[i].objectAlive && !c.DestroySlot?)
              then Failed
              else
                var holds := w.ws[i].tra.Some?;
                match c
                case Start(ok, infoOk) => if !holds && ok && infoOk then Done else Failed
                case Execute(reply, infoOk) =>
                  if reply == SqlFails || (!holds && reply == SqlStarts && !infoOk) then Failed else Done
                case Finalize(_, ok) => if holds && ok then Done else Failed
                case Prepare2pc(ok) => if !holds then Crashed else if ok then Done else Failed
                case DestroyObject(ok) => if holds && !w.ws[i].isPrepared2pc && !ok then Failed else Done
                case DestroySlot(ok) => if holds && !ok then Failed else Done
  {
    hide Run, Inv;
    InvIsSound(Run(limbo, es));
    CallReturnsAt(Run(limbo, es), e);
  }

  lemma CallReturnsAt(w: World, e: Event)
    requires HoldingsSound(w) && !w.dead
    ensures WorldStep(w, e).1 ==
            match e
            case New => Done
            case Reconnect(t, ok, infoOk) =>
              if ok && infoOk && w.srv.Knows(t) && w.srv.status[t] == Prepared && !Held(w, t) then Done else Failed
            case On(i, c) => if i >= |w.ws| then Failed else Step(w.ws[i], w.srv, c).2
  {
    if e.On? && e.i < |w.ws| {
      assert w.ws[e.i].tra.Some? ==> HeldAt(w, w.ws[e.i].tra.value, e.i);
    }
  }

  /* ----- The prepared flag ----- */

  ghost predicate PreparedOnce(limbo: nat, es: seq<Event>, i: nat) {
    exists k :: 0 <= k < |es| && PreparesAt(limbo, es, i, k)
  }

  ghost predicate PreparesAt(limbo: nat, es: seq<Event>, i: nat, k: nat)
    requires k < |es|
  {
    es[k] == On(i, Prepare2pc(true)) && OutcomeAt(limbo, es, k) == Done
  }

  /** The flag remembers any successful prepare in the object's life, whatever happened to that transaction. */
  lemma {:induction false} FlagIsHistory(limbo: nat, es: seq<Event>, i: nat)
    ensures (i < |Run(limbo, es).ws| && Run(limbo, es).ws[i].isPrepared2pc) <==> PreparedOnce(limbo, es, i)
  {
    if es != [] {
      hide WorldStep, PreparedOnce, Inv, HoldingsSound;
      var n := |es| - 1;
      FlagIsHistory(limbo, es[..n], i);
      PreparedStep(limbo, es, i);
      assert Inv(Run(limbo, es[..n]));
      InvIsSound(Run(limbo, es[..n]));
      FlagStep(Run(limbo, es[..n]), es[n], i);
    }
  }

  lemma InvIsSound(w: World)
    ensures Inv(w) ==> HoldingsSound(w) && StraysLost(w)
  {
  }

  lemma PreparedStep(limbo: nat, es: seq<Event>, i: nat)
    requires es != []
    ensures var n := |es| - 1;
            var prepares := es[n] == On(i, Prepare2pc(true)) && OutcomeAt(limbo, es, n) == Done;
            PreparedOnce(limbo, es, i) <==> PreparedOnce(limbo, es[..n], i) || prepares
    ensures OutcomeAt(limbo, es, |es| - 1) == WorldStep(Run(limbo, es[..|es| - 1]), es[|es| - 1]).1
  {
    hide WorldStep, Run;
    var n := |es| - 1;
    var init := es[..n];
    forall k: nat | k < n ensures PreparesAt(limbo, es, i, k) <==> PreparesAt(limbo, init, i, k) {
      assert init[..k] == es[..k];
    }
    if PreparedOnce(limbo, init, i) {
      var k :| 0 <= k < n && PreparesAt(limbo, init, i, k);
      assert PreparesAt(limbo, es, i, k);
    }
    assert PreparesAt(limbo, es, i, n) <==> es[n] == On(i, Prepare2pc(true)) && OutcomeAt(limbo, es, n) == Done;
  }

  lemma FlagStep(w: World, e: Event, i: nat)
    requires HoldingsSound(w)
    ensures var (w', o) := WorldStep(w, e);
            (i < |w'.ws| && w'.ws[i].isPrepared2pc)
            <==> (i < |w.ws| && w.ws[i].isPrepared2pc) || (e == On(i, Prepare2pc(true)) && o == Done)
  {
  }

  /** Destroying an object attempts to roll back what it holds exactly when it never prepared a transaction. */
  lemma DestroyRollsBack(limbo: nat, es: seq<Event>, i: nat, ok: bool)
    requires !Run(limbo, es).dead && i < |Run(limbo, es).ws|
    requires Run(limbo, es).ws[i].objectAlive && Run(limbo, es).ws[i].slotAlive
    ensures var x, log := Run(limbo, es).ws[i], Run(limbo, es).srv.log;
            WorldStep(Run(limbo, es), On(i, DestroyObject(ok))).0.srv.log
            == if x.tra.Some? && !PreparedOnce(limbo, es, i) then log + [Logged(x.tra.value, Release, ok)] else log
  {
    hide Run, PreparedOnce, WorldStep, Step, Inv;
    FlagIsHistory(limbo, es, i);
    InvIsSound(Run(limbo, es));
    DestroyStep(Run(limbo, es), i, ok);
  }

  lemma DestroyStep(w: World, i: nat, ok: bool)
    requires HoldingsSound(w) && StraysLost(w) && !w.dead
    requires i < |w.ws| && w.ws[i].objectAlive && w.ws[i].slotAlive
    ensures var x := w.ws[i];
            WorldStep(w, On(i, DestroyObject(ok))).0.srv.log
            == if x.tra.Some? && !x.isPrepared2pc then w.srv.log + [Logged(x.tra.value, Release, ok)] else w.srv.log
  {
    assert w.ws[i].tra.Some? ==> HeldAt(w, w.ws[i].tra.value, i);
  }

  /** An object that prepared and committed one transaction leaves its next one active when it is destroyed. */
  lemma StalePreparedFlag() returns (es: seq<Event>)
    ensures var w := Run(0, es);
            && w.srv.status == [Finished, Active] && HeldAt(w, 1, 0)
            && !w.ws[0].objectAlive
            && w.srv.log == [Logged(0, Prepare, false), Logged(0, Commit, true)]
  {
    hide Run, WorldStep;
    var begin, destroy := Start(true, true), DestroyObject(true);
    var e4, w3, s3 := PreparedAndCommitted();
    var e5 := e4 + [On(0, begin)];
    es := e5 + [On(0, destroy)];
    var w4, s4 := PushCall(0, e4, begin, w3, s3);
    var w5, s5 := PushCall(0, e5, destroy, w4, s4);
  }

  lemma PreparedAndCommitted() returns (es: seq<Event>, w: Wrapper, srv: Server)
    ensures es != [] && Single(Run(0, es), w, srv)
    ensures w == Wrapper(None, 1, true, true, true, Constructed)
    ensures srv == Server([Finished], [Logged(0, Prepare, false), Logged(0, Commit, true)])
  {
    hide Run, WorldStep;
    var begin, prepare, commit := Start(true, true), Prepare2pc(true), Finalize(FBP_TR_COMMIT, true);
    var e1 := [New];
    var e2 := e1 + [On(0, begin)];
    var e3 := e2 + [On(0, prepare)];
    es := e3 + [On(0, commit)];
    FirstWrapper();
    var w0, s0 := NewWrapper, Server([], []);
    var w1, s1 := PushCall(0, e1, begin, w0, s0);
    var w2, s2 := PushCall(0, e2, prepare, w1, s1);
    w, srv := PushCall(0, e3, commit, w2, s2);
  }

  /** The run has one wrapper `w` and goes on. */
  ghost predicate Single(world: World, w: Wrapper, srv: Server) {
    world.ws == [w] && world.srv == srv && !world.dead
  }

  lemma FirstWrapper()
    ensures Single(Run(0, [New]), NewWrapper, Server([], []))
  {
    var e0: seq<Event> := [];
    assert [New][..0] == e0 && Run(0, e0) == Begin(0);
  }

  /** One more call in a run with a single wrapper. */
  lemma PushCall(limbo: nat, es: seq<Event>, c: Call, w: Wrapper, srv: Server) returns (x: Wrapper, srv': Server)
    requires es != [] && Single(Run(limbo, es), w, srv)
    requires !c.Prepare2pc? || w.tra.Some?
    ensures w.tra.Some? ==> srv.Knows(w.tra.value)
    ensures (x, srv') == (Step(w, srv, c).0, Step(w, srv, c).1)
    ensures Single(Run(limbo, es + [On(0, c)]), x, srv')
  {
    hide Step, Run;
    var e := On(0, c);
    assert (es + [e])[..|es|] == es;
    assert Inv(Run(limbo, es));
    assert w.tra.Some? ==> HeldAt(Run(limbo, es), w.tra.value, 0);
    x, srv' := Step(w, srv, c).0, Step(w, srv, c).1;
    RunLast(limbo, es, e);
    PrepareCrashes(w, srv, c);
    assert [w][0 := x] == [x];
  }

  /** Only preparing without a transaction crashes. */
  lemma PrepareCrashes(w: Wrapper, srv: Server, c: Call)
    requires w.tra.Some? ==> srv.Knows(w.tra.value)
    ensures Step(w, srv, c).2 == Crashed <==>
            c.Prepare2pc? && w.objectAlive && w.slotAlive && w.origin != Stray && w.tra == None
  {
  }

  /** Call k asks a usable object that holds no transaction to prepare one. */
  ghost predicate PreparesNothing(limbo: nat, es: seq<Event>, k: int) {
    0 <= k < |es| && NothingToPrepare(Run(limbo, es[..k]), es[k])
  }

  ghost predicate NothingToPrepare(w: World, e: Event) {
    && e.On? && e.c.Prepare2pc? && e.i < |w.ws|
    && w.ws[e.i].objectAlive && w.ws[e.i].slotAlive && w.ws[e.i].origin != Stray && w.ws[e.i].tra == None
  }

  ghost predicate PreparedNothing(limbo: nat, es: seq<Event>) {
    exists k :: PreparesNothing(limbo, es, k)
  }

  /** A run ends in a null dereference if and only if an object that holds no transaction was asked to prepare one. */
  lemma {:induction false} PrepareCrashesExactly(limbo: nat, es: seq<Event>)
    ensures Run(limbo, es).dead <==> PreparedNothing(limbo, es)
  {
    if es == [] {
      assert !PreparedNothing(limbo, es);
    } else {
      hide PreparedNothing, Inv;
      var n := |es| - 1;
      PrepareCrashesExactly(limbo, es[..n]);
      InvIsSound(Run(limbo, es[..n]));
      CrashStep(Run(limbo, es[..n]), es[n]);
      PreparedNothingStep(limbo, es);
    }
  }

  lemma CrashStep(w: World, e: Event)
    requires HoldingsSound(w)
    ensures WorldStep(w, e).0.dead <==> w.dead || NothingToPrepare(w, e)
  {
    if !w.dead && e.On? && e.i < |w.ws| {
      assert w.ws[e.i].tra.Some? ==> HeldAt(w, w.ws[e.i].tra.value, e.i);
      PrepareCrashes(w.ws[e.i], w.srv, e.c);
    }
  }

  lemma PreparedNothingStep(limbo: nat, es: seq<Event>)
    requires es != []
    ensures var n := |es| - 1;
            PreparedNothing(limbo, es)
            <==> PreparedNothing(limbo, es[..n]) || NothingToPrepare(Run(limbo, es[..n]), es[n])
  {
    hide Run, NothingToPrepare;
    var n := |es| - 1;
    forall k | 0 <= k < n ensures PreparesNothing(limbo, es, k) <==> PreparesNothing(limbo, es[..n], k) {
      assert es[..n][..k] == es[..k];
    }
    assert PreparesNothing(limbo, es, n) <==> NothingToPrepare(Run(limbo, es[..n]), es[n]);
  }

  lemma RunLast(limbo: nat, es: seq<Event>, e: Event)
    ensures HoldingsSound(Run(limbo, es)) && Run(limbo, es + [e]) == WorldStep(Run(limbo, es), e).0
  {
    assert (es + [e])[..|es|] == es;
    assert Inv(Run(limbo, es));
  }
}
