/** Every step keeps the ownership invariant, so children die first in every reachable state. */
module OwnershipProof {
  import opened HandleTables
  import opened Ownership
  import RegistryRuns

  /** What a step may do to the tables of databases that stay: slots are appended or reset, never refilled. */
  ghost predicate Grows(a: Tables, b: Tables) {
    && |a| <= |b|
    && (forall h: nat :: 0 < h <= |a| && IsValid(b, h) ==> IsValid(a, h))
    && (forall h: nat :: 0 < h <= |a| && IsValid(b, h) ==> DbGrows(Get(a, h), Get(b, h)))
  }

  ghost predicate DbGrows(a: DbTables, b: DbTables) {
    && |a.trs| <= |b.trs| && |a.sts| <= |b.sts| && |a.bls| <= |b.bls|
    && (forall h: nat :: h <= |a.sts| && IsValid(b.sts, h) ==> IsValid(a.sts, h) && Get(b.sts, h) == Get(a.sts, h))
    && (forall h: nat :: h <= |a.bls| && IsValid(b.bls, h) ==> IsValid(a.bls, h) && Get(b.bls, h) == Get(a.bls, h))
  }

  /** A slot of the earlier tables that is still valid in the later ones. */
  predicate OldStatement(a: Tables, b: Tables, dbh: nat, h: nat) {
    IsValid(a, dbh) && IsValid(b, dbh) && h <= |Get(a, dbh).sts| && IsValid(Get(b, dbh).sts, h)
  }

  predicate OldBlob(a: Tables, b: Tables, dbh: nat, h: nat) {
    IsValid(a, dbh) && IsValid(b, dbh) && h <= |Get(a, dbh).bls| && IsValid(Get(b, dbh).bls, h)
  }

  predicate KeepsTransaction(a: Tables, b: Tables, dbh: nat, trh: nat) {
    IsValid(a, dbh) && IsValid(b, dbh) && IsValid(Get(a, dbh).trs, trh) ==> IsValid(Get(b, dbh).trs, trh)
  }

  lemma AddKeepsObjects(w: World, tables: Tables, obj: Obj)
    requires Inv(w) && Grows(w.tables, tables)
    requires forall h: nat, trh: nat :: KeepsTransaction(w.tables, tables, h, trh)
    requires ObjectSound(Add(w, tables, obj), w.next)
    ensures ObjectsSound(Add(w, tables, obj))
  {
    var w' := Add(w, tables, obj);
    forall o | o in w'.objs ensures ObjectSound(w', o) {
      if o in w.objs {
        assert ObjectSound(w, o);
        assert o != w.next;
        var x := w.objs[o].obj;
        assert x.TrObj? ==> KeepsTransaction(w.tables, tables, x.dbh, x.trh);
        var p := w.objs[o].obj.Parent();
        if p.Some? {
          assert ObjectSound(w, p.value);
        }
      }
    }
  }

  /** Owners stay owners when objects and slots are only added. */
  lemma AddKeepsOwners(w: World, tables: Tables, obj: Obj)
    requires Inv(w) && Grows(w.tables, tables)
    ensures forall dbh: nat, h: nat ::
              OldStatement(w.tables, tables, dbh, h) ==> StatementOwned(Add(w, tables, obj), dbh, h)
    ensures forall dbh: nat, h: nat :: OldBlob(w.tables, tables, dbh, h) ==> BlobOwned(Add(w, tables, obj), dbh, h)
  {
    var w' := Add(w, tables, obj);
    forall o | o in w.objs ensures o != w.next {
      assert ObjectSound(w, o);
    }
    forall dbh: nat, h: nat | OldStatement(w.tables, tables, dbh, h) ensures StatementOwned(w', dbh, h)
    {
      assert StatementOwned(w, dbh, h);
      var s :| OwnsStatement(w, s, dbh, h, Get(Get(w.tables, dbh).sts, h));
      assert OwnsStatement(w', s, dbh, h, Get(Get(tables, dbh).sts, h));
    }
    forall dbh: nat, h: nat | OldBlob(w.tables, tables, dbh, h) ensures BlobOwned(w', dbh, h)
    {
      assert BlobOwned(w, dbh, h);
      var b :| OwnsBlob(w, b, dbh, h, Get(Get(w.tables, dbh).bls, h));
      assert OwnsBlob(w', b, dbh, h, Get(Get(tables, dbh).bls, h));
    }
  }

  lemma NewDatabaseKeeps(w: World)
    requires Inv(w)
    ensures Inv(Step(w, NewDatabase))
  {
    var tables, obj := Append(w.tables, NoSlots), DbObj(|w.tables| + 1);
    var w' := Add(w, tables, obj);
    AddKeepsObjects(w, tables, obj);
    AddKeepsOwners(w, tables, obj);
    forall o, p, dbh: nat, trh: nat | Is(w', o, dbh, trh) && Is(w', p, dbh, trh) && IsValid(tables, dbh)
      ensures o == p
    {
      assert ObjectSound(w, o);
      assert Is(w, o, dbh, trh) && Is(w, p, dbh, trh) && IsValid(w.tables, dbh);
    }
  }

  lemma TransactionKeeps(w: World, d: ObjId, reconnects: bool)
    requires Inv(w)
    ensures Inv(TransactionStep(w, d, reconnects))
  {
    if Usable(w, d) && w.objs[d].obj.DbObj? && IsValid(w.tables, w.objs[d].obj.dbh) {
      var dbh := w.objs[d].obj.dbh;
      var db := Get(w.tables, dbh);
      var trs := if reconnects then Append(Append(db.trs, ()), ()) else Append(db.trs, ());
      var tables, obj := SetDb(w.tables, dbh, db.(trs := trs)), TrObj(dbh, |trs|, d, false);
      var w' := Add(w, tables, obj);
      assert ObjectSound(w, d);
      AppendedTransactions(w.tables, dbh, trs);
      assert ObjectSound(w', w.next);
      AddKeepsObjects(w, tables, obj);
      AddKeepsOwners(w, tables, obj);
      NewTransactionUnique(w, tables, obj);
    }
  }

  /** Adding transaction slots to one database. */
  lemma AppendedTransactions(tables: Tables, dbh: nat, trs: Slots<()>)
    requires IsValid(tables, dbh) && Get(tables, dbh).trs <= trs
    ensures var after := SetDb(tables, dbh, Get(tables, dbh).(trs := trs));
            && Grows(tables, after) && |after| == |tables|
            && forall h: nat, trh: nat :: KeepsTransaction(tables, after, h, trh)
  {
  }

  /** A transaction object with a slot beyond all earlier ones. */
  lemma NewTransactionUnique(w: World, tables: Tables, obj: Obj)
    requires Inv(w) && |tables| == |w.tables| && Grows(w.tables, tables)
    requires obj.TrObj? && IsValid(w.tables, obj.dbh) && obj.trh > |Get(w.tables, obj.dbh).trs|
    ensures TransactionsUnique(Add(w, tables, obj))
  {
    var w' := Add(w, tables, obj);
    forall o, p, h: nat, trh: nat | Is(w', o, h, trh) && Is(w', p, h, trh) && IsValid(tables, h) ensures o == p {
      assert o in w.objs ==> ObjectSound(w, o);
      assert p in w.objs ==> ObjectSound(w, p);
      assert o in w.objs && p in w.objs ==> Is(w, o, h, trh) && Is(w, p, h, trh);
    }
  }

  lemma StatementKeeps(w: World, t: ObjId)
    requires Inv(w)
    ensures Inv(StatementStep(w, t))
  {
    var w' := StatementStep(w, t);
    if w' != w {
      var dbh, trh := w.objs[t].obj.dbh, w.objs[t].obj.trh;
      var db := Get(w.tables, dbh);
      var tables, obj := SetDb(w.tables, dbh, db.(sts := Append(db.sts, trh))), StObj(dbh, |db.sts| + 1, t);
      assert ObjectSound(w, t);
      AddKeepsObjects(w, tables, obj);
      AddKeepsOwners(w, tables, obj);
      UniqueWithoutTransactions(w, tables, obj);
      assert Get(Get(tables, dbh).sts, |db.sts| + 1) == trh;
      assert OwnsStatement(w', w.next, dbh, |db.sts| + 1, trh);
      forall k: nat, h: nat | IsValid(tables, k) && IsValid(Get(tables, k).sts, h) ensures StatementOwned(w', k, h) {
        assert OldStatement(w.tables, tables, k, h) || (k == dbh && h == |db.sts| + 1);
      }
      forall k: nat, h: nat | IsValid(tables, k) && IsValid(Get(tables, k).bls, h) ensures BlobOwned(w', k, h) {
        assert OldBlob(w.tables, tables, k, h);
      }
    }
  }

  lemma BlobKeeps(w: World, t: ObjId)
    requires Inv(w)
    ensures Inv(BlobStep(w, t))
  {
    var w' := BlobStep(w, t);
    if w' != w {
      var dbh, trh := w.objs[t].obj.dbh, w.objs[t].obj.trh;
      var db := Get(w.tables, dbh);
      var tables, obj := SetDb(w.tables, dbh, db.(bls := Append(db.bls, trh))), BlObj(dbh, |db.bls| + 1, t);
      assert ObjectSound(w, t);
      AddKeepsObjects(w, tables, obj);
      AddKeepsOwners(w, tables, obj);
      UniqueWithoutTransactions(w, tables, obj);
      assert Get(Get(tables, dbh).bls, |db.bls| + 1) == trh;
      assert OwnsBlob(w', w.next, dbh, |db.bls| + 1, trh);
      forall k: nat, h: nat | IsValid(tables, k) && IsValid(Get(tables, k).sts, h) ensures StatementOwned(w', k, h) {
        assert OldStatement(w.tables, tables, k, h);
      }
      forall k: nat, h: nat | IsValid(tables, k) && IsValid(Get(tables, k).bls, h) ensures BlobOwned(w', k, h) {
        assert OldBlob(w.tables, tables, k, h) || (k == dbh && h == |db.bls| + 1);
      }
    }
  }

  lemma UniqueWithoutTransactions(w: World, tables: Tables, obj: Obj)
    requires Inv(w) && !obj.TrObj? && |tables| == |w.tables| && Grows(w.tables, tables)
    ensures TransactionsUnique(Add(w, tables, obj))
  {
    var w' := Add(w, tables, obj);
    forall o, p, h: nat, trh: nat | Is(w', o, h, trh) && Is(w', p, h, trh) && IsValid(tables, h) ensures o == p {
      assert Is(w, o, h, trh) && Is(w, p, h, trh) && IsValid(w.tables, h);
    }
  }

  /* ----- Steps that release ----- */

  /** Nothing is added, and no slot changes what it refers to. */
  ghost predicate Shrinks(a: Tables, b: Tables) {
    && |a| == |b|
    && (forall h: nat :: IsValid(b, h) ==> IsValid(a, h))
    && (forall h: nat :: IsValid(b, h) ==> DbShrinks(Get(a, h), Get(b, h)))
  }

  ghost predicate DbShrinks(a: DbTables, b: DbTables) {
    && |a.trs| == |b.trs| && |a.sts| == |b.sts| && |a.bls| == |b.bls|
    && (forall h: nat :: IsValid(b.sts, h) ==> IsValid(a.sts, h) && Get(b.sts, h) == Get(a.sts, h))
    && (forall h: nat :: IsValid(b.bls, h) ==> IsValid(a.bls, h) && Get(b.bls, h) == Get(a.bls, h))
  }

  lemma ReleasedShrinks(tables: Tables, obj: Obj)
    ensures Shrinks(tables, Released(tables, obj))
  {
  }

  /** Only a transaction object without the prepared flag gives up a transaction slot, and only its own. */
  lemma ReleasedTransactions(tables: Tables, obj: Obj, dbh: nat, trh: nat)
    requires IsValid(tables, dbh) && IsValid(Get(tables, dbh).trs, trh)
    requires !(obj.TrObj? && obj.dbh == dbh && obj.trh == trh)
    ensures KeepsTransaction(tables, Released(tables, obj), dbh, trh)
  {
  }

  /** An object changes its own handle or phase; it keeps its kind, its parent and, if a transaction, its slot. */
  predicate SameKind(x: Obj, y: Obj) {
    && x.Parent() == y.Parent()
    && (x.DbObj? <==> y.DbObj?) && (x.TrObj? <==> y.TrObj?) && (x.StObj? <==> y.StObj?) && (x.BlObj? <==> y.BlObj?)
    && (x.TrObj? ==> y.dbh == x.dbh && y.trh == x.trh)
  }

  lemma UpdateKeepsUnique(w: World, tables: Tables, o: ObjId, cell: Cell)
    requires Inv(w) && Shrinks(w.tables, tables)
    requires o in w.objs && SameKind(w.objs[o].obj, cell.obj)
    ensures TransactionsUnique(Update(w, tables, o, cell))
  {
    var w' := Update(w, tables, o, cell);
    forall p, q, h: nat, trh: nat | Is(w', p, h, trh) && Is(w', q, h, trh) && IsValid(tables, h) ensures p == q {
      assert Is(w, p, h, trh) && Is(w, q, h, trh) && IsValid(w.tables, h);
    }
  }

  lemma UpdateKeepsObjects(w: World, tables: Tables, o: ObjId, cell: Cell)
    requires Inv(w) && Shrinks(w.tables, tables)
    requires Usable(w, o) && SameKind(w.objs[o].obj, cell.obj) && cell.obj.dbh <= |tables|
    requires !cell.freed || !Referenced(w, o)
    requires forall p, h: nat, trh: nat ::
               Is(w, p, h, trh) && Usable(w, p) && (p != o || !cell.freed)
               ==> KeepsTransaction(w.tables, tables, h, trh)
    ensures ObjectsSound(Update(w, tables, o, cell))
  {
    var w' := Update(w, tables, o, cell);
    forall p | p in w'.objs ensures ObjectSound(w', p) {
      assert ObjectSound(w, p);
      var x := w.objs[p].obj;
      var parent := x.Parent();
      if parent.Some? {
        assert ObjectSound(w, parent.value);
        assert parent.value == o ==> Referenced(w, o);
      }
      if x.TrObj? && Usable(w', p) {
        assert Is(w, p, x.dbh, x.trh);
        assert KeepsTransaction(w.tables, tables, x.dbh, x.trh);
      }
    }
  }

  /** Slots still valid after the change have their owners; the changed object owned none of them. */
  lemma UpdateKeepsOwners(w: World, tables: Tables, o: ObjId, cell: Cell)
    requires Inv(w) && Shrinks(w.tables, tables)
    requires Usable(w, o) && SameKind(w.objs[o].obj, cell.obj)
    requires forall h: nat, sth: nat, trh: nat ::
               OwnsStatement(w, o, h, sth, trh) && IsValid(tables, h) ==> !IsValid(Get(tables, h).sts, sth)
    requires forall h: nat, blh: nat, trh: nat ::
               OwnsBlob(w, o, h, blh, trh) && IsValid(tables, h) ==> !IsValid(Get(tables, h).bls, blh)
    ensures StatementsOwned(Update(w, tables, o, cell)) && BlobsOwned(Update(w, tables, o, cell))
  {
    var w' := Update(w, tables, o, cell);
    forall h: nat, sth: nat | IsValid(tables, h) && IsValid(Get(tables, h).sts, sth)
      ensures StatementOwned(w', h, sth)
    {
      assert StatementOwned(w, h, sth);
      var s :| OwnsStatement(w, s, h, sth, Get(Get(w.tables, h).sts, sth));
      assert OwnsStatement(w', s, h, sth, Get(Get(tables, h).sts, sth));
    }
    forall h: nat, blh: nat | IsValid(tables, h) && IsValid(Get(tables, h).bls, blh) ensures BlobOwned(w', h, blh) {
      assert BlobOwned(w, h, blh);
      var b :| OwnsBlob(w, b, h, blh, Get(Get(w.tables, h).bls, blh));
      assert OwnsBlob(w', b, h, blh, Get(Get(tables, h).bls, blh));
    }
  }

  /** Freeing an object releases its slot while nothing refers to it. */
  lemma FreeKeeps(w: World, o: ObjId)
    requires Inv(w) && Usable(w, o) && !Referenced(w, o)
    ensures Inv(Update(w, Released(w.tables, w.objs[o].obj), o, w.objs[o].(freed := true)))
  {
    var obj := w.objs[o].obj;
    var tables, cell := Released(w.tables, obj), w.objs[o].(freed := true);
    assert ObjectSound(w, o);
    ReleasedShrinks(w.tables, obj);
    UpdateKeepsUnique(w, tables, o, cell);
    forall p, h: nat, trh: nat | Is(w, p, h, trh) && Usable(w, p) && p != o
      ensures KeepsTransaction(w.tables, tables, h, trh)
    {
      if IsValid(w.tables, h) && IsValid(Get(w.tables, h).trs, trh) {
        assert obj.TrObj? && obj.dbh == h && obj.trh == trh ==> Is(w, o, h, trh);
        ReleasedTransactions(w.tables, obj, h, trh);
      }
    }
    UpdateKeepsObjects(w, tables, o, cell);
    UpdateKeepsOwners(w, tables, o, cell);
  }

  lemma FreeStatementKeeps(w: World, s: ObjId)
    requires Inv(w)
    ensures Inv(Step(w, FreeStatement(s)))
  {
    if Usable(w, s) && w.objs[s].obj.StObj? {
      var obj := w.objs[s].obj;
      var tables, cell := Released(w.tables, obj), Cell(obj.(sth := 0), false);
      assert ObjectSound(w, s);
      ReleasedShrinks(w.tables, obj);
      UpdateKeepsUnique(w, tables, s, cell);
      forall p, h: nat, trh: nat | Is(w, p, h, trh) ensures KeepsTransaction(w.tables, tables, h, trh) {
        if IsValid(w.tables, h) && IsValid(Get(w.tables, h).trs, trh) {
          ReleasedTransactions(w.tables, obj, h, trh);
        }
      }
      UpdateKeepsObjects(w, tables, s, cell);
      UpdateKeepsOwners(w, tables, s, cell);
    }
  }

  lemma DisconnectKeeps(w: World, d: ObjId, ok: bool)
    requires Inv(w)
    ensures Inv(Step(w, Disconnect(d, ok)))
  {
    if Usable(w, d) && w.objs[d].obj.DbObj? && ok {
      var obj := w.objs[d].obj;
      var tables, cell := Released(w.tables, obj), Cell(DbObj(0), false);
      assert ObjectSound(w, d);
      ReleasedShrinks(w.tables, obj);
      UpdateKeepsUnique(w, tables, d, cell);
      forall p, h: nat, trh: nat | Is(w, p, h, trh) ensures KeepsTransaction(w.tables, tables, h, trh) {
        if IsValid(w.tables, h) && IsValid(Get(w.tables, h).trs, trh) {
          ReleasedTransactions(w.tables, obj, h, trh);
        }
      }
      UpdateKeepsObjects(w, tables, d, cell);
      UpdateKeepsOwners(w, tables, d, cell);
    }
  }

  lemma PrepareKeeps(w: World, t: ObjId)
    requires Inv(w)
    ensures Inv(Step(w, Prepare2pc(t)))
  {
    if Usable(w, t) && w.objs[t].obj.TrObj? {
      var cell := Cell(w.objs[t].obj.(isPrepared2pc := true), false);
      assert ObjectSound(w, t);
      UpdateKeepsUnique(w, w.tables, t, cell);
      UpdateKeepsObjects(w, w.tables, t, cell);
      UpdateKeepsOwners(w, w.tables, t, cell);
    }
  }

  /** A freed object owns no slot and is held by no one, so it can go. */
  lemma DropKeeps(w: World, o: ObjId)
    requires Inv(w)
    ensures Inv(Step(w, DropParent(o)))
  {
    if o in w.objs && w.objs[o].freed {
      var w' := w.(objs := w.objs - {o});
      forall p | p in w'.objs ensures ObjectSound(w', p) {
        assert ObjectSound(w, p);
      }
      forall p, q, h: nat, trh: nat | Is(w', p, h, trh) && Is(w', q, h, trh) && IsValid(w.tables, h) ensures p == q {
        assert Is(w, p, h, trh) && Is(w, q, h, trh);
      }
      forall h: nat, sth: nat | IsValid(w.tables, h) && IsValid(Get(w.tables, h).sts, sth)
        ensures StatementOwned(w', h, sth)
      {
        assert StatementOwned(w, h, sth);
        var s :| OwnsStatement(w, s, h, sth, Get(Get(w.tables, h).sts, sth));
        assert ObjectSound(w, s);
        assert OwnsStatement(w', s, h, sth, Get(Get(w.tables, h).sts, sth));
      }
      forall h: nat, blh: nat | IsValid(w.tables, h) && IsValid(Get(w.tables, h).bls, blh)
        ensures BlobOwned(w', h, blh)
      {
        assert BlobOwned(w, h, blh);
        var b :| OwnsBlob(w, b, h, blh, Get(Get(w.tables, h).bls, blh));
        assert ObjectSound(w, b);
        assert OwnsBlob(w', b, h, blh, Get(Get(w.tables, h).bls, blh));
      }
    }
  }

  /* ----- Every run ----- */

  lemma StepKeeps(w: World, e: Event)
    requires Inv(w)
    ensures Inv(Step(w, e))
  {
    hide Inv, Released;
    match e {
      case NewDatabase => NewDatabaseKeeps(w);
      case NewTransaction(d) => TransactionKeeps(w, d, false);
      case ReconnectTransaction(d, ok) => TransactionKeeps(w, d, ok);
      case NewStatement(t) => StatementKeeps(w, t);
      case NewBlob(t) => BlobKeeps(w, t);
      case FreeStatement(s) => FreeStatementKeeps(w, s);
      case Disconnect(d, ok) => DisconnectKeeps(w, d, ok);
      case Prepare2pc(t) => PrepareKeeps(w, t);
      case FreeObj(o) =>
        if Usable(w, o) && !Referenced(w, o) {
          FreeKeeps(w, o);
        }
      case DropParent(o) => DropKeeps(w, o);
    }
  }

  lemma {:induction false} RunKeeps(es: seq<Event>)
    ensures Inv(Run(es))
  {
    if es != [] {
      hide Inv;
      RunKeeps(es[..|es| - 1]);
      StepKeeps(Run(es[..|es| - 1]), es[|es| - 1]);
    }
  }

  /** In every reachable state each live statement or blob slot refers to a live transaction slot. */
  lemma ChildrenDieFirst(es: seq<Event>)
    ensures ChildrenFirst(Run(es).tables)
  {
    RunKeeps(es);
    InvGivesChildrenFirst(Run(es));
  }

  /** Reconnecting works in two slots: the first stays live with no object to release it. */
  lemma ReconnectLeaksSlot(es: seq<Event>, d: ObjId)
    requires Usable(Run(es), d) && Run(es).objs[d].obj.DbObj? && IsValid(Run(es).tables, Run(es).objs[d].obj.dbh)
    ensures var w, w' := Run(es), Step(Run(es), ReconnectTransaction(d, true));
            var dbh := w.objs[d].obj.dbh;
            var n := |Get(w.tables, dbh).trs| + 1;
            && IsValid(w'.tables, dbh) && IsValid(Get(w'.tables, dbh).trs, n)
            && Is(w', w.next, dbh, n + 1)
            && (forall o :: !Is(w', o, dbh, n))
  {
    RunKeeps(es);
    var w := Run(es);
    forall o | o in w.objs ensures ObjectSound(w, o) {
    }
  }

  /* ----- Objects make registry calls ----- */

  /** The registry calls one event makes. */
  ghost function CallsOf(w: World, e: Event): seq<Call> {
    match e
    case NewDatabase => [DatabaseInit]
    case NewTransaction(d) =>
      if Usable(w, d) && w.objs[d].obj.DbObj? then [Init(Transactions, w.objs[d].obj.dbh, 0, true)] else []
    case ReconnectTransaction(d, ok) =>
      if Usable(w, d) && w.objs[d].obj.DbObj? then
        var dbh := w.objs[d].obj.dbh;
        [Init(Transactions, dbh, 0, true), Init(Transactions, dbh, 0, ok)]
      else []
    case NewStatement(t) =>
      if Usable(w, t) && w.objs[t].obj.TrObj? then [Init(Statements, w.objs[t].obj.dbh, w.objs[t].obj.trh, true)]
      else []
    case NewBlob(t) =>
      if Usable(w, t) && w.objs[t].obj.TrObj? then [Init(Blobs, w.objs[t].obj.dbh, w.objs[t].obj.trh, true)] else []
    case FreeStatement(s) =>
      if Usable(w, s) && w.objs[s].obj.StObj? then [Free(Statements, w.objs[s].obj.dbh, w.objs[s].obj.sth)] else []
    case Disconnect(d, ok) =>
      if Usable(w, d) && w.objs[d].obj.DbObj? then [DatabaseRelease(w.objs[d].obj.dbh, ok)] else []
    case FreeObj(o) =>
      if !Usable(w, o) || Referenced(w, o) then [] else ReleasingCalls(w.objs[o].obj)
    case _ => []
  }

  /** What `free_obj` calls. */
  function ReleasingCalls(obj: Obj): seq<Call> {
    match obj
    case DbObj(dbh) => [DatabaseRelease(dbh, true)]
    case TrObj(dbh, trh, _, prepared) => if prepared then [] else [Free(Transactions, dbh, trh)]
    case StObj(dbh, sth, _) => [Free(Statements, dbh, sth)]
    case BlObj(dbh, blh, _) => [Free(Blobs, dbh, blh)]
  }

  /** The tables after at most two calls. */
  function AfterCalls(t: Tables, cs: seq<Call>): Tables
    decreases |cs|
  {
    if cs == [] then t else AfterCalls(RegistryStep(t, cs[0]).0, cs[1..])
  }

  lemma StepMakesCalls(w: World, e: Event)
    ensures Step(w, e).tables == AfterCalls(w.tables, CallsOf(w, e))
  {
    var cs := CallsOf(w, e);
    if |cs| == 1 {
      assert cs[1..] == [];
      assert AfterCalls(w.tables, cs) == RegistryStep(w.tables, cs[0]).0;
    } else if |cs| == 2 {
      var between := RegistryStep(w.tables, cs[0]).0;
      assert cs[1..] == [cs[1]] && [cs[1]][1..] == [];
      assert AfterCalls(between, [cs[1]]) == RegistryStep(between, cs[1]).0;
    }
  }

  ghost function AllCalls(es: seq<Event>): seq<Call> {
    if es == [] then []
    else
      var n := |es| - 1;
      AllCalls(es[..n]) + CallsOf(Run(es[..n]), es[n])
  }

  lemma {:induction false} RunAppends(cs: seq<Call>, ds: seq<Call>)
    ensures RegistryRuns.Run(cs + ds) == AfterCalls(RegistryRuns.Run(cs), ds)
    decreases |ds|
  {
    if ds == [] {
      assert cs + ds == cs;
    } else {
      assert (cs + [ds[0]])[..|cs|] == cs;
      assert cs + ds == cs + [ds[0]] + ds[1..];
      RunAppends(cs + [ds[0]], ds[1..]);
    }
  }

  /** The tables of any run of objects are those of a run of registry calls, so its theorems hold for them. */
  lemma {:induction false} ObjectsMakeCalls(es: seq<Event>)
    ensures Run(es).tables == RegistryRuns.Run(AllCalls(es))
  {
    if es != [] {
      hide Step, CallsOf;
      var n := |es| - 1;
      ObjectsMakeCalls(es[..n]);
      StepMakesCalls(Run(es[..n]), es[n]);
      RunAppends(AllCalls(es[..n]), CallsOf(Run(es[..n]), es[n]));
    }
  }
}
