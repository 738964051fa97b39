/**
 PHP objects over the handle tables. An object is destroyed only when no other object holds it;
 `free_obj` first releases its own slot, then the object lets go of the one it holds.
 */
module Ownership {
  import opened MachineTypes
  import opened HandleTables

  type ObjId = nat

  datatype Obj =
    | DbObj(dbh: nat)
    | TrObj(dbh: nat, trh: nat, db: ObjId, isPrepared2pc: bool)
    | StObj(dbh: nat, sth: nat, tr: ObjId)
    | BlObj(dbh: nat, blh: nat, tr: ObjId)
  {
    /** The object kept alive through a readonly property. */
    function Parent(): Option<ObjId> {
      match this
      case DbObj(_) => None
      case TrObj(_, _, db, _) => Some(db)
      case StObj(_, _, tr) => Some(tr)
      case BlObj(_, _, tr) => Some(tr)
    }
  }

  /** `freed`: the slot was released, the parent is still held. */
  datatype Cell = Cell(obj: Obj, freed: bool)

  datatype World = World(tables: Tables, objs: map<ObjId, Cell>, next: ObjId)

  const Empty := World([], map[], 0)

  datatype Event =
    | NewDatabase
    | NewTransaction(d: ObjId)
    | ReconnectTransaction(d: ObjId, ok: bool)
    | NewStatement(t: ObjId)
    | NewBlob(t: ObjId)
    | FreeStatement(s: ObjId)
    | Disconnect(d: ObjId, ok: bool)
    | Prepare2pc(t: ObjId)
    | FreeObj(o: ObjId)
    | DropParent(o: ObjId)

  /* ----- Steps ----- */

  predicate Usable(w: World, o: ObjId) {
    o in w.objs && !w.objs[o].freed
  }

  ghost predicate Referenced(w: World, o: ObjId) {
    exists p :: p in w.objs && w.objs[p].obj.Parent() == Some(o)
  }

  function Add(w: World, tables: Tables, obj: Obj): World {
    World(tables, w.objs[w.next := Cell(obj, false)], w.next + 1)
  }

  function Update(w: World, tables: Tables, o: ObjId, cell: Cell): World {
    World(tables, w.objs[o := cell], w.next)
  }

  /** Two slots are made when reconnecting works; the object keeps only the second. */
  function TransactionStep(w: World, d: ObjId, reconnects: bool): World {
    if !Usable(w, d) || !w.objs[d].obj.DbObj? || !IsValid(w.tables, w.objs[d].obj.dbh) then w
    else
      var dbh := w.objs[d].obj.dbh;
      var db := Get(w.tables, dbh);
      var trs := if reconnects then Append(Append(db.trs, ()), ()) else Append(db.trs, ());
      Add(w, SetDb(w.tables, dbh, db.(trs := trs)), TrObj(dbh, |trs|, d, false))
  }

  function StatementStep(w: World, t: ObjId): World {
    if !Usable(w, t) || !w.objs[t].obj.TrObj? then w
    else
      var TrObj(dbh, trh, _, _) := w.objs[t].obj;
      if !IsValid(w.tables, dbh) || !IsValid(Get(w.tables, dbh).trs, trh) then w
      else
        var db := Get(w.tables, dbh);
        Add(w, SetDb(w.tables, dbh, db.(sts := Append(db.sts, trh))), StObj(dbh, |db.sts| + 1, t))
  }

  function BlobStep(w: World, t: ObjId): World {
    if !Usable(w, t) || !w.objs[t].obj.TrObj? then w
    else
      var TrObj(dbh, trh, _, _) := w.objs[t].obj;
      if !IsValid(w.tables, dbh) || !IsValid(Get(w.tables, dbh).trs, trh) then w
      else
        var db := Get(w.tables, dbh);
        Add(w, SetDb(w.tables, dbh, db.(bls := Append(db.bls, trh))), BlObj(dbh, |db.bls| + 1, t))
  }

  /** The tables after an object's slot is released, if it has a valid one to release. */
  function Released(tables: Tables, obj: Obj): Tables {
    if !IsValid(tables, obj.dbh) then tables
    else
      var db := Get(tables, obj.dbh);
      match obj
      case DbObj(dbh) => Reset(tables, dbh)
      case TrObj(dbh, trh, _, prepared) =>
        if IsValid(db.trs, trh) && !prepared then SetDb(tables, dbh, db.(trs := Reset(db.trs, trh))) else tables
      case StObj(dbh, sth, _) =>
        if IsValid(db.sts, sth) then SetDb(tables, dbh, db.(sts := Reset(db.sts, sth))) else tables
      case BlObj(dbh, blh, _) =>
        if IsValid(db.bls, blh) then SetDb(tables, dbh, db.(bls := Reset(db.bls, blh))) else tables
  }

  ghost function Step(w: World, e: Event): World {
    match e
    case NewDatabase => Add(w, Append(w.tables, NoSlots), DbObj(|w.tables| + 1))
    case NewTransaction(d) => TransactionStep(w, d, false)
    case ReconnectTransaction(d, ok) => TransactionStep(w, d, ok)
    case NewStatement(t) => StatementStep(w, t)
    case NewBlob(t) => BlobStep(w, t)
    case FreeStatement(s) =>
      if !Usable(w, s) || !w.objs[s].obj.StObj? then w
      else Update(w, Released(w.tables, w.objs[s].obj), s, Cell(w.objs[s].obj.(sth := 0), false))
    case Disconnect(d, ok) =>
      if !Usable(w, d) || !w.objs[d].obj.DbObj? || !ok then w
      else Update(w, Released(w.tables, w.objs[d].obj), d, Cell(DbObj(0), false))
    case Prepare2pc(t) =>
      if !Usable(w, t) || !w.objs[t].obj.TrObj? then w
      else Update(w, w.tables, t, Cell(w.objs[t].obj.(isPrepared2pc := true), false))
    case FreeObj(o) =>
      if !Usable(w, o) || Referenced(w, o) then w
      else Update(w, Released(w.tables, w.objs[o].obj), o, w.objs[o].(freed := true))
    case DropParent(o) =>
      if o !in w.objs || !w.objs[o].freed then w
      else w.(objs := w.objs - {o})
  }

  ghost function Run(es: seq<Event>): World {
    if es == [] then Empty else Step(Run(es[..|es| - 1]), es[|es| - 1])
  }

  /* ----- The invariant ----- */

  /** Every live statement or blob slot refers to a live transaction slot of the same database. */
  ghost predicate ChildrenFirst(tables: Tables) {
    forall dbh: nat, h: nat :: IsValid(tables, dbh) ==>
      var db := Get(tables, dbh);
      && (IsValid(db.sts, h) ==> IsValid(db.trs, Get(db.sts, h)))
      && (IsValid(db.bls, h) ==> IsValid(db.trs, Get(db.bls, h)))
  }

  /** An object's parent is there and usable; its handle is inside its table; a usable transaction's slot is live. */
  ghost predicate ObjectSound(w: World, o: ObjId)
    requires o in w.objs
  {
    var Cell(obj, freed) := w.objs[o];
    && o < w.next && obj.dbh <= |w.tables|
    && (obj.Parent().Some? ==> Usable(w, obj.Parent().value))
    && (obj.TrObj? ==> w.objs[obj.db].obj.DbObj?)
    && (obj.TrObj? && IsValid(w.tables, obj.dbh) ==>
          && obj.trh <= |Get(w.tables, obj.dbh).trs|
          && (!freed ==> IsValid(Get(w.tables, obj.dbh).trs, obj.trh)))
    && (obj.StObj? || obj.BlObj? ==> w.objs[obj.tr].obj.TrObj?)
  }

  /** Object o is transaction `trh` of database `dbh`. */
  predicate Is(w: World, o: ObjId, dbh: nat, trh: nat) {
    o in w.objs && w.objs[o].obj.TrObj? && w.objs[o].obj.dbh == dbh && w.objs[o].obj.trh == trh
  }

  /** Of two objects for one transaction slot there is only one. */
  ghost predicate TransactionsUnique(w: World) {
    forall o, p, dbh: nat, trh: nat :: Is(w, o, dbh, trh) && Is(w, p, dbh, trh) && IsValid(w.tables, dbh) ==> o == p
  }

  /** Statement slot `sth` belongs to a usable object that holds the slot's transaction object. */
  ghost predicate StatementOwned(w: World, dbh: nat, sth: nat)
    requires IsValid(w.tables, dbh) && IsValid(Get(w.tables, dbh).sts, sth)
  {
    exists s :: OwnsStatement(w, s, dbh, sth, Get(Get(w.tables, dbh).sts, sth))
  }

  predicate OwnsStatement(w: World, s: ObjId, dbh: nat, sth: nat, trh: nat) {
    Usable(w, s) && w.objs[s].obj.StObj? && w.objs[s].obj.dbh == dbh && w.objs[s].obj.sth == sth
    && Is(w, w.objs[s].obj.tr, dbh, trh)
  }

  ghost predicate BlobOwned(w: World, dbh: nat, blh: nat)
    requires IsValid(w.tables, dbh) && IsValid(Get(w.tables, dbh).bls, blh)
  {
    exists b :: OwnsBlob(w, b, dbh, blh, Get(Get(w.tables, dbh).bls, blh))
  }

  predicate OwnsBlob(w: World, b: ObjId, dbh: nat, blh: nat, trh: nat) {
    Usable(w, b) && w.objs[b].obj.BlObj? && w.objs[b].obj.dbh == dbh && w.objs[b].obj.blh == blh
    && Is(w, w.objs[b].obj.tr, dbh, trh)
  }

  ghost predicate ObjectsSound(w: World) {
    forall o :: o in w.objs ==> ObjectSound(w, o)
  }

  ghost predicate StatementsOwned(w: World) {
    forall dbh: nat, sth: nat ::
      IsValid(w.tables, dbh) && IsValid(Get(w.tables, dbh).sts, sth) ==> StatementOwned(w, dbh, sth)
  }

  ghost predicate BlobsOwned(w: World) {
    forall dbh: nat, blh: nat ::
      IsValid(w.tables, dbh) && IsValid(Get(w.tables, dbh).bls, blh) ==> BlobOwned(w, dbh, blh)
  }

  ghost predicate Inv(w: World) {
    ObjectsSound(w) && TransactionsUnique(w) && StatementsOwned(w) && BlobsOwned(w)
  }

  lemma InvGivesChildrenFirst(w: World)
    requires Inv(w)
    ensures ChildrenFirst(w.tables)
  {
    forall dbh: nat, h: nat | IsValid(w.tables, dbh)
      ensures var db := Get(w.tables, dbh); IsValid(db.sts, h) ==> IsValid(db.trs, Get(db.sts, h))
      ensures var db := Get(w.tables, dbh); IsValid(db.bls, h) ==> IsValid(db.trs, Get(db.bls, h))
    {
      var db := Get(w.tables, dbh);
      if IsValid(db.sts, h) {
        assert StatementOwned(w, dbh, h);
        var s :| OwnsStatement(w, s, dbh, h, Get(db.sts, h));
        assert ObjectSound(w, s) && ObjectSound(w, w.objs[s].obj.tr);
      }
      if IsValid(db.bls, h) {
        assert BlobOwned(w, dbh, h);
        var b :| OwnsBlob(w, b, dbh, h, Get(db.bls, h));
        assert ObjectSound(w, b) && ObjectSound(w, w.objs[b].obj.tr);
      }
    }
  }
}
