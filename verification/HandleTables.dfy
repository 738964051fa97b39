/**
 The handle registry: 1-based indices into vectors that only grow, a released slot staying null.
 Databases form one table; each owns the tables of its transactions, statements and blobs.
 */
module HandleTables {
  import opened MachineTypes

  type Slots<T> = seq<Option<T>>

  predicate IsValid<T>(s: Slots<T>, h: nat) {
    h != 0 && h <= |s| && s[h - 1].Some?
  }

  function Get<T>(s: Slots<T>, h: nat): T
    requires IsValid(s, h)
  {
    s[h - 1].value
  }

  function Append<T>(s: Slots<T>, v: T): Slots<T> {
    s + [Some(v)]
  }

  function Reset<T>(s: Slots<T>, h: nat): Slots<T>
    requires IsValid(s, h)
  {
    s[h - 1 := None]
  }

  /** The three tables of a database; statements and blobs record the transaction slot they refer to. */
  datatype DbTables = DbTables(trs: Slots<()>, sts: Slots<nat>, bls: Slots<nat>)

  const NoSlots := DbTables([], [], [])

  type Tables = Slots<DbTables>

  /* ----- Calls on the registry ----- */

  datatype Table = Transactions | Statements | Blobs

  /**
   `DatabaseRelease` stands for free, disconnect and drop, `Init` of a transaction for construction and
   reconnecting. `serverOk` says whether the server call before the change of the tables worked.
   */
  datatype Call =
    | DatabaseInit
    | DatabaseRelease(dbh: nat, serverOk: bool)
    | Init(table: Table, dbh: nat, trh: nat, serverOk: bool)
    | Free(table: Table, dbh: nat, h: nat)

  function IsIn(db: DbTables, table: Table, h: nat): bool {
    match table
    case Transactions => IsValid(db.trs, h)
    case Statements => IsValid(db.sts, h)
    case Blobs => IsValid(db.bls, h)
  }

  /** The transaction a valid handle works in: its own slot, or the one it recorded. */
  function TransactionOf(db: DbTables, table: Table, h: nat): nat
    requires IsIn(db, table, h)
  {
    match table
    case Transactions => h
    case Statements => Get(db.sts, h)
    case Blobs => Get(db.bls, h)
  }

  function InitStep(db: DbTables, table: Table, trh: nat, serverOk: bool): (DbTables, Option<nat>) {
    match table
    case Transactions =>
      if serverOk then (db.(trs := Append(db.trs, ())), Some(|db.trs| + 1)) else (db, None)
    case Statements =>
      if IsValid(db.trs, trh) then (db.(sts := Append(db.sts, trh)), Some(|db.sts| + 1)) else (db, None)
    case Blobs =>
      if IsValid(db.trs, trh) then (db.(bls := Append(db.bls, trh)), Some(|db.bls| + 1)) else (db, None)
  }

  function FreeStep(db: DbTables, table: Table, h: nat): DbTables
    requires IsIn(db, table, h)
  {
    match table
    case Transactions => db.(trs := Reset(db.trs, h))
    case Statements => db.(sts := Reset(db.sts, h))
    case Blobs => db.(bls := Reset(db.bls, h))
  }

  function SetDb(t: Tables, dbh: nat, db: DbTables): Tables
    requires IsValid(t, dbh)
  {
    t[dbh - 1 := Some(db)]
  }

  /** The tables after a call, and the handle it was about; `None` stands for an exception. */
  function RegistryStep(t: Tables, c: Call): (Tables, Option<nat>) {
    match c
    case DatabaseInit => (Append(t, NoSlots), Some(|t| + 1))
    case DatabaseRelease(dbh, serverOk) =>
      if IsValid(t, dbh) && serverOk then (Reset(t, dbh), Some(dbh)) else (t, None)
    case Init(table, dbh, trh, serverOk) =>
      if !IsValid(t, dbh) then (t, None)
      else
        var (db, h) := InitStep(Get(t, dbh), table, trh, serverOk);
        (SetDb(t, dbh, db), h)
    case Free(table, dbh, h) =>
      if IsValid(t, dbh) && IsIn(Get(t, dbh), table, h) then (SetDb(t, dbh, FreeStep(Get(t, dbh), table, h)), Some(h))
      else (t, None)
  }

  /* ----- The registry's classes ----- */

  class Database {
    var trList: Slots<()>
    var stList: Slots<nat>
    var blList: Slots<nat>

    constructor ()
      ensures Abs() == NoSlots
    {
      trList, stList, blList := [], [], [];
    }

    ghost function Abs(): DbTables
      reads this
    {
      DbTables(trList, stList, blList)
    }

    method TransactionInit() returns (trh: nat)
      modifies this
      ensures Abs() == old(Abs()).(trs := Append(old(trList), ())) && trh == |trList|
    {
      trList := trList + [Some(())];
      trh := |trList|;
    }

    /** The slot is appended only after the server has reconnected. */
    method TransactionReconnect(ok: bool) returns (trh: Option<nat>)
      modifies this
      ensures ok ==> Abs() == old(Abs()).(trs := Append(old(trList), ())) && trh == Some(|trList|)
      ensures !ok ==> Abs() == old(Abs()) && trh == None
    {
      if !ok {
        return None;
      }
      trList := trList + [Some(())];
      trh := Some(|trList|);
    }

    method TransactionFree(trh: nat) returns (ok: bool)
      modifies this
      ensures ok == IsValid(old(trList), trh)
      ensures Abs() == if ok then old(Abs()).(trs := Reset(old(trList), trh)) else old(Abs())
    {
      if trh == 0 || trh > |trList| || trList[trh - 1] == None {
        return false;
      }
      trList := trList[trh - 1 := None];
      ok := true;
    }

    method StatementInit(trh: nat) returns (sth: Option<nat>)
      modifies this
      ensures if IsValid(old(trList), trh)
              then Abs() == old(Abs()).(sts := Append(old(stList), trh)) && sth == Some(|stList|)
              else Abs() == old(Abs()) && sth == None
    {
      if trh == 0 || trh > |trList| || trList[trh - 1] == None {
        return None;
      }
      stList := stList + [Some(trh)];
      sth := Some(|stList|);
    }

    method StatementFree(sth: nat) returns (ok: bool)
      modifies this
      ensures ok == IsValid(old(stList), sth)
      ensures Abs() == if ok then old(Abs()).(sts := Reset(old(stList), sth)) else old(Abs())
    {
      if sth == 0 || sth > |stList| || stList[sth - 1] == None {
        return false;
      }
      stList := stList[sth - 1 := None];
      ok := true;
    }

    method BlobInit(trh: nat) returns (blh: Option<nat>)
      modifies this
      ensures if IsValid(old(trList), trh)
              then Abs() == old(Abs()).(bls := Append(old(blList), trh)) && blh == Some(|blList|)
              else Abs() == old(Abs()) && blh == None
    {
      if trh == 0 || trh > |trList| || trList[trh - 1] == None {
        return None;
      }
      blList := blList + [Some(trh)];
      blh := Some(|blList|);
    }

    method BlobFree(blh: nat) returns (ok: bool)
      modifies this
      ensures ok == IsValid(old(blList), blh)
      ensures Abs() == if ok then old(Abs()).(bls := Reset(old(blList), blh)) else old(Abs())
    {
      if blh == 0 || blh > |blList| || blList[blh - 1] == None {
        return false;
      }
      blList := blList[blh - 1 := None];
      ok := true;
    }
  }

  class Registry {
    var dbList: Slots<Database>

    constructor ()
      ensures Valid() && Abs() == []
    {
      dbList := [];
    }

    ghost function Databases(): set<object>
      reads this
    {
      set i | 0 <= i < |dbList| && dbList[i].Some? :: dbList[i].value
    }

    /** Each database is owned by one slot. */
    ghost predicate Valid()
      reads this
    {
      forall i, j :: 0 <= i < j < |dbList| && dbList[i].Some? && dbList[j].Some? ==> dbList[i].value != dbList[j].value
    }

    ghost function Abs(): Tables
      reads this, Databases()
    {
      seq(|dbList|, i requires 0 <= i < |dbList| reads this, Databases() =>
        if dbList[i].Some? then Some(dbList[i].value.Abs()) else None)
    }

    method IsValidDbh(dbh: nat) returns (ok: bool)
      ensures ok == IsValid(Abs(), dbh)
    {
      ok := dbh != 0 && dbh <= |dbList| && dbList[dbh - 1].Some?;
    }

    method IsValidTrh(dbh: nat, trh: nat) returns (ok: bool)
      ensures ok == (IsValid(Abs(), dbh) && IsValid(Get(Abs(), dbh).trs, trh))
    {
      var valid := IsValidDbh(dbh);
      if !valid {
        return false;
      }
      var db := dbList[dbh - 1].value;
      ok := trh != 0 && trh <= |db.trList| && db.trList[trh - 1].Some?;
    }

    method IsValidSth(dbh: nat, sth: nat) returns (ok: bool)
      ensures ok == (IsValid(Abs(), dbh) && IsValid(Get(Abs(), dbh).sts, sth))
    {
      var valid := IsValidDbh(dbh);
      if !valid {
        return false;
      }
      var db := dbList[dbh - 1].value;
      ok := sth != 0 && sth <= |db.stList| && db.stList[sth - 1].Some?;
    }

    method DatabaseInit() returns (dbh: nat)
      requires Valid()
      modifies this
      ensures Valid()
      ensures var (after, handle) := RegistryStep(old(Abs()), Call.DatabaseInit);
              Abs() == after && Some(dbh) == handle
      ensures fresh(Databases() - old(Databases()))
    {
      var db := new Database();
      dbList := dbList + [Some(db)];
      dbh := |dbList|;
    }

    /** Disconnect or drop: the slot goes only if the server call succeeded. Freeing passes true. */
    method DatabaseRelease(dbh: nat, serverOk: bool) returns (r: Option<nat>)
      requires Valid()
      modifies this
      ensures Valid()
      ensures var (after, handle) := RegistryStep(old(Abs()), Call.DatabaseRelease(dbh, serverOk));
              Abs() == after && r == handle
    {
      var valid := IsValidDbh(dbh);
      if !valid || !serverOk {
        return None;
      }
      dbList := dbList[dbh - 1 := None];
      r := Some(dbh);
    }

    method TransactionInit(dbh: nat) returns (trh: Option<nat>)
      requires Valid()
      modifies Databases()
      ensures Valid() && dbList == old(dbList)
      ensures var (after, handle) := RegistryStep(old(Abs()), Init(Transactions, dbh, 0, true));
              Abs() == after && trh == handle
    {
      var valid := IsValidDbh(dbh);
      if !valid {
        return None;
      }
      var h := dbList[dbh - 1].value.TransactionInit();
      trh := Some(h);
    }

    method TransactionReconnect(dbh: nat, serverOk: bool) returns (trh: Option<nat>)
      requires Valid()
      modifies Databases()
      ensures Valid() && dbList == old(dbList)
      ensures var (after, handle) := RegistryStep(old(Abs()), Init(Transactions, dbh, 0, serverOk));
              Abs() == after && trh == handle
    {
      var valid := IsValidDbh(dbh);
      if !valid {
        return None;
      }
      trh := dbList[dbh - 1].value.TransactionReconnect(serverOk);
    }

    method TransactionFree(dbh: nat, trh: nat) returns (r: Option<nat>)
      requires Valid()
      modifies Databases()
      ensures Valid() && dbList == old(dbList)
      ensures var (after, handle) := RegistryStep(old(Abs()), Free(Transactions, dbh, trh));
              Abs() == after && r == handle
    {
      var valid := IsValidDbh(dbh);
      if !valid {
        return None;
      }
      var ok := dbList[dbh - 1].value.TransactionFree(trh);
      r := if ok then Some(trh) else None;
    }

    method StatementInit(dbh: nat, trh: nat) returns (sth: Option<nat>)
      requires Valid()
      modifies Databases()
      ensures Valid() && dbList == old(dbList)
      ensures var (after, handle) := RegistryStep(old(Abs()), Init(Statements, dbh, trh, true));
              Abs() == after && sth == handle
    {
      var valid := IsValidDbh(dbh);
      if !valid {
        return None;
      }
      sth := dbList[dbh - 1].value.StatementInit(trh);
    }

    method StatementFree(dbh: nat, sth: nat) returns (r: Option<nat>)
      requires Valid()
      modifies Databases()
      ensures Valid() && dbList == old(dbList)
      ensures var (after, handle) := RegistryStep(old(Abs()), Free(Statements, dbh, sth));
              Abs() == after && r == handle
    {
      var valid := IsValidDbh(dbh);
      if !valid {
        return None;
      }
      var ok := dbList[dbh - 1].value.StatementFree(sth);
      r := if ok then Some(sth) else None;
    }

    method BlobInit(dbh: nat, trh: nat) returns (blh: Option<nat>)
      requires Valid()
      modifies Databases()
      ensures Valid() && dbList == old(dbList)
      ensures var (after, handle) := RegistryStep(old(Abs()), Init(Blobs, dbh, trh, true));
              Abs() == after && blh == handle
    {
      var valid := IsValidDbh(dbh);
      if !valid {
        return None;
      }
      blh := dbList[dbh - 1].value.BlobInit(trh);
    }

    method BlobFree(dbh: nat, blh: nat) returns (r: Option<nat>)
      requires Valid()
      modifies Databases()
      ensures Valid() && dbList == old(dbList)
      ensures var (after, handle) := RegistryStep(old(Abs()), Free(Blobs, dbh, blh));
              Abs() == after && r == handle
    {
      var valid := IsValidDbh(dbh);
      if !valid {
        return None;
      }
      var ok := dbList[dbh - 1].value.BlobFree(blh);
      r := if ok then Some(blh) else None;
    }
  }
}
