/** Transaction slots that stay live although no PHP object will ever release them. */
module SlotLeaks {
  import opened HandleTables
  import opened Ownership
  import opened OwnershipProof

  /** Transaction slot `trh` of database `dbh` is live. */
  predicate LiveSlot(w: World, dbh: nat, trh: nat) {
    IsValid(w.tables, dbh) && IsValid(Get(w.tables, dbh).trs, trh)
  }

  /** An object that was not destroyed yet stands for the slot. */
  ghost predicate HasObject(w: World, dbh: nat, trh: nat) {
    exists o :: Usable(w, o) && Is(w, o, dbh, trh)
  }

  ghost predicate Leaked(w: World, dbh: nat, trh: nat) {
    LiveSlot(w, dbh, trh) && !HasObject(w, dbh, trh)
  }

  /** A reconnect that works makes this slot first; the object will take the next one. */
  predicate ReconnectsOver(w: World, e: Event, dbh: nat, trh: nat) {
    && e.ReconnectTransaction? && e.ok && Usable(w, e.d) && w.objs[e.d].obj == DbObj(dbh)
    && IsValid(w.tables, dbh) && trh == |Get(w.tables, dbh).trs| + 1
  }

  /** The slot's object is destroyed after it prepared a transaction. */
  ghost predicate DestroysPrepared(w: World, e: Event, dbh: nat, trh: nat) {
    && e.FreeObj? && Usable(w, e.o) && !Referenced(w, e.o)
    && Is(w, e.o, dbh, trh) && w.objs[e.o].obj.isPrepared2pc && IsValid(w.tables, dbh)
  }

  /** The database is disconnected, or its object destroyed. */
  ghost predicate ReleasesDatabase(w: World, e: Event, dbh: nat) {
    || (e.Disconnect? && e.ok && Usable(w, e.d) && w.objs[e.d].obj == DbObj(dbh))
    || (e.FreeObj? && Usable(w, e.o) && !Referenced(w, e.o) && w.objs[e.o].obj == DbObj(dbh))
  }

  /* ----- One step ----- */

  ghost predicate StepsLikeHistory(w: World, e: Event, dbh: nat, trh: nat) {
    Leaked(Step(w, e), dbh, trh)
    <==> || ReconnectsOver(w, e, dbh, trh) || DestroysPrepared(w, e, dbh, trh)
         || (Leaked(w, dbh, trh) && !ReleasesDatabase(w, e, dbh))
  }

  /** The objects of a slot in the next world, for steps that only change or remove one object. */
  lemma SameObjects(w: World, w': World, dbh: nat, trh: nat)
    requires forall o :: Usable(w', o) && Is(w', o, dbh, trh) <==> Usable(w, o) && Is(w, o, dbh, trh)
    ensures HasObject(w', dbh, trh) <==> HasObject(w, dbh, trh)
  {
  }

  lemma AddedObject(w: World, e: Event, dbh: nat, trh: nat)
    requires Inv(w)
    requires e.NewDatabase? || e.NewTransaction? || e.ReconnectTransaction? || e.NewStatement? || e.NewBlob?
    ensures StepsLikeHistory(w, e, dbh, trh)
  {
    var w' := Step(w, e);
    forall o | o in w.objs ensures o < w.next {
      assert ObjectSound(w, o);
    }
    if w' != w {
      var obj := w'.objs[w.next].obj;
      assert w'.objs == w.objs[w.next := Cell(obj, false)];
      if obj.TrObj? && obj.dbh == dbh && obj.trh == trh {
        assert Usable(w', w.next) && Is(w', w.next, dbh, trh);
      } else {
        SameObjects(w, w', dbh, trh);
      }
      if ReconnectsOver(w, e, dbh, trh) {
        forall o | o in w.objs ensures !Is(w, o, dbh, trh) {
          assert ObjectSound(w, o);
        }
      }
    }
  }

  lemma ChangedObject(w: World, e: Event, dbh: nat, trh: nat)
    requires Inv(w)
    requires e.FreeStatement? || e.Disconnect? || e.Prepare2pc? || e.DropParent?
    ensures StepsLikeHistory(w, e, dbh, trh)
  {
    SameObjects(w, Step(w, e), dbh, trh);
  }

  lemma DestroyedObject(w: World, e: Event, dbh: nat, trh: nat)
    requires Inv(w) && e.FreeObj?
    ensures StepsLikeHistory(w, e, dbh, trh)
  {
    var o, w' := e.o, Step(w, e);
    if Usable(w, o) && !Referenced(w, o) {
      assert ObjectSound(w, o);
      if Is(w, o, dbh, trh) {
        assert HasObject(w, dbh, trh);
        forall p | IsValid(w.tables, dbh) ensures Usable(w', p) ==> !Is(w', p, dbh, trh) {
          assert Is(w', p, dbh, trh) ==> Is(w, p, dbh, trh);
        }
      } else {
        SameObjects(w, w', dbh, trh);
      }
    }
  }

  lemma StepHistory(w: World, e: Event, dbh: nat, trh: nat)
    requires Inv(w)
    ensures StepsLikeHistory(w, e, dbh, trh)
  {
    hide StepsLikeHistory, Inv;
    if e.FreeObj? {
      DestroyedObject(w, e, dbh, trh);
    } else if e.FreeStatement? || e.Disconnect? || e.Prepare2pc? || e.DropParent? {
      ChangedObject(w, e, dbh, trh);
    } else {
      AddedObject(w, e, dbh, trh);
    }
  }

  /* ----- Any run ----- */

  /** Call k gave the slot up, and its database was not released since. */
  ghost predicate GivenUpSince(es: seq<Event>, k: int, dbh: nat, trh: nat) {
    && 0 <= k < |es|
    && (ReconnectsOver(Run(es[..k]), es[k], dbh, trh) || DestroysPrepared(Run(es[..k]), es[k], dbh, trh))
    && forall m :: k < m < |es| ==> !ReleasesDatabase(Run(es[..m]), es[m], dbh)
  }

  ghost predicate GivenUp(es: seq<Event>, dbh: nat, trh: nat) {
    exists k :: GivenUpSince(es, k, dbh, trh)
  }

  lemma GivenUpStep(es: seq<Event>, dbh: nat, trh: nat)
    requires es != []
    ensures var n := |es| - 1;
            var w := Run(es[..n]);
            GivenUp(es, dbh, trh)
            <==> || ReconnectsOver(w, es[n], dbh, trh) || DestroysPrepared(w, es[n], dbh, trh)
                 || (GivenUp(es[..n], dbh, trh) && !ReleasesDatabase(w, es[n], dbh))
  {
    hide Run, ReconnectsOver, DestroysPrepared, ReleasesDatabase;
    var n := |es| - 1;
    var init := es[..n];
    forall k | 0 <= k < n ensures init[..k] == es[..k] {
    }
    if GivenUp(es, dbh, trh) {
      var k :| GivenUpSince(es, k, dbh, trh);
      assert k < n ==> GivenUpSince(init, k, dbh, trh) && !ReleasesDatabase(Run(es[..n]), es[n], dbh);
    }
    if GivenUp(init, dbh, trh) && !ReleasesDatabase(Run(init), es[n], dbh) {
      var k :| GivenUpSince(init, k, dbh, trh);
      forall m | k < m < |es| ensures !ReleasesDatabase(Run(es[..m]), es[m], dbh) {
        assert m < n ==> init[m] == es[m];
      }
      assert GivenUpSince(es, k, dbh, trh);
    }
    if ReconnectsOver(Run(init), es[n], dbh, trh) || DestroysPrepared(Run(init), es[n], dbh, trh) {
      assert GivenUpSince(es, n, dbh, trh);
    }
  }

  /**
   In every run, a live transaction slot has no object if and only if it was the first of the two slots
   of a reconnect that worked, or its object was destroyed with the prepared flag set, and its database
   was not released since.
   */
  lemma {:induction false} LeakedExactly(es: seq<Event>, dbh: nat, trh: nat)
    ensures Leaked(Run(es), dbh, trh) <==> GivenUp(es, dbh, trh)
  {
    if es == [] {
      assert !GivenUp(es, dbh, trh);
    } else {
      hide Leaked, GivenUp, Step, ReconnectsOver, DestroysPrepared, ReleasesDatabase;
      var n := |es| - 1;
      LeakedExactly(es[..n], dbh, trh);
      RunKeeps(es[..n]);
      StepHistory(Run(es[..n]), es[n], dbh, trh);
      GivenUpStep(es, dbh, trh);
    }
  }

  /* ----- The flag ----- */

  /** A usable transaction object carries the flag if and only if it was prepared in the run. */
  ghost predicate PreparedIn(es: seq<Event>, o: ObjId) {
    exists k :: PreparesAt(es, o, k)
  }

  ghost predicate PreparesAt(es: seq<Event>, o: ObjId, k: int) {
    0 <= k < |es| && es[k] == Prepare2pc(o) && Usable(Run(es[..k]), o) && Run(es[..k]).objs[o].obj.TrObj?
  }

  lemma PreparedInStep(es: seq<Event>, o: ObjId)
    requires es != []
    ensures var n := |es| - 1;
            var w := Run(es[..n]);
            PreparedIn(es, o) <==>
            PreparedIn(es[..n], o) || (es[n] == Prepare2pc(o) && Usable(w, o) && w.objs[o].obj.TrObj?)
  {
    hide Run;
    var n := |es| - 1;
    forall k | 0 <= k < n ensures PreparesAt(es, o, k) <==> PreparesAt(es[..n], o, k) {
      assert es[..n][..k] == es[..k];
    }
    assert PreparesAt(es, o, n) <==>
           es[n] == Prepare2pc(o) && Usable(Run(es[..n]), o) && Run(es[..n]).objs[o].obj.TrObj?;
  }

  lemma {:induction false} FlagExactly(es: seq<Event>, o: ObjId)
    requires o in Run(es).objs && Run(es).objs[o].obj.TrObj?
    ensures Run(es).objs[o].obj.isPrepared2pc <==> PreparedIn(es, o)
  {
    hide PreparedIn, Inv;
    var n := |es| - 1;
    var w := Run(es[..n]);
    RunKeeps(es[..n]);
    PreparedInStep(es, o);
    FlagStep(w, es[n], o);
    if o in w.objs {
      FlagExactly(es[..n], o);
    } else {
      NotYetThere(es[..n], o);
    }
  }

  lemma FlagStep(w: World, e: Event, o: ObjId)
    requires Inv(w) && o in Step(w, e).objs && Step(w, e).objs[o].obj.TrObj?
    ensures o in w.objs ==>
              && w.objs[o].obj.TrObj?
              && (Step(w, e).objs[o].obj.isPrepared2pc
                  <==> w.objs[o].obj.isPrepared2pc || (e == Prepare2pc(o) && Usable(w, o)))
    ensures o !in w.objs ==> o == w.next && !Step(w, e).objs[o].obj.isPrepared2pc
  {
    if o in w.objs {
      assert ObjectSound(w, o);
    }
    forall p | p in w.objs ensures p < w.next {
      assert ObjectSound(w, p);
    }
  }

  lemma NotYetThere(es: seq<Event>, o: ObjId)
    requires o == Run(es).next
    ensures !PreparedIn(es, o)
  {
    forall k | 0 <= k < |es| ensures !PreparesAt(es, o, k) {
      NumbersGrow(es, k);
      RunKeeps(es[..k]);
      assert o in Run(es[..k]).objs ==> ObjectSound(Run(es[..k]), o);
    }
  }

  lemma {:induction false} NumbersGrow(es: seq<Event>, k: nat)
    requires k <= |es|
    ensures Run(es[..k]).next <= Run(es).next
  {
    hide Step;
    if k == |es| {
      assert es[..k] == es;
    } else {
      var n := |es| - 1;
      assert es[..n][..k] == es[..k];
      NumbersGrow(es[..n], k);
      NextGrows(Run(es[..n]), es[n]);
    }
  }

  lemma NextGrows(w: World, e: Event)
    ensures w.next <= Step(w, e).next
  {
  }
}
