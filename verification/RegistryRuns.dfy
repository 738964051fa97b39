/** Runs of calls on the handle registry: which handles are valid, and what they refer to. */
module RegistryRuns {
  import opened MachineTypes
  import opened HandleTables

  function Run(cs: seq<Call>): Tables {
    if cs == [] then [] else RegistryStep(Run(cs[..|cs| - 1]), cs[|cs| - 1]).0
  }

  /** The handle call k returned, or `None` if it failed. */
  function ResultAt(cs: seq<Call>, k: nat): Option<nat>
    requires k < |cs|
  {
    RegistryStep(Run(cs[..k]), cs[k]).1
  }

  /** The transaction behind handle h of a table of database `dbh`, or `None` if the handle is rejected. */
  function Lookup(t: Tables, table: Table, dbh: nat, h: nat): Option<nat> {
    if IsValid(t, dbh) && IsIn(Get(t, dbh), table, h) then Some(TransactionOf(Get(t, dbh), table, h)) else None
  }

  /* ----- One call ----- */

  /** A call that fails adds no slot and releases none. */
  lemma FailedCallChangesNothing(t: Tables, c: Call)
    ensures RegistryStep(t, c).1 == None ==> RegistryStep(t, c).0 == t
  {
  }

  /** When a call succeeds, and the handle it is about: a new one is the next index of its table. */
  lemma CallReturns(t: Tables, c: Call)
    ensures RegistryStep(t, c).1 ==
            match c
            case DatabaseInit => Some(|t| + 1)
            case DatabaseRelease(dbh, serverOk) => if IsValid(t, dbh) && serverOk then Some(dbh) else None
            case Init(table, dbh, trh, serverOk) =>
              if IsValid(t, dbh) && (if table.Transactions? then serverOk else IsValid(Get(t, dbh).trs, trh))
              then Some(TableLength(Get(t, dbh), table) + 1)
              else None
            case Free(table, dbh, h) => if Lookup(t, table, dbh, h).Some? then Some(h) else None
  {
  }

  /** The call hands out handle h of a table of database `dbh` for transaction `trh`. */
  predicate HandsOut(t: Tables, c: Call, table: Table, dbh: nat, h: nat, trh: nat) {
    && c.Init? && c.table == table && c.dbh == dbh && RegistryStep(t, c).1 == Some(h)
    && trh == if table.Transactions? then h else c.trh
  }

  /** The call releases the handle itself or its whole database. */
  predicate Ends(c: Call, table: Table, dbh: nat, h: nat) {
    c == Free(table, dbh, h) || c == DatabaseRelease(dbh, true)
  }

  /** One call changes a lookup only by handing the handle out, freeing it, or releasing its database. */
  lemma LookupStep(t: Tables, c: Call, table: Table, dbh: nat, h: nat, trh: nat)
    ensures Lookup(RegistryStep(t, c).0, table, dbh, h) == Some(trh)
            <==> || HandsOut(t, c, table, dbh, h, trh)
                 || (Lookup(t, table, dbh, h) == Some(trh) && !Ends(c, table, dbh, h))
  {
    if c.Init? && c.dbh == dbh && IsValid(t, dbh) && c.table == table {
      InitLookup(Get(t, dbh), table, c.trh, c.serverOk, h, trh);
    }
  }

  lemma InitLookup(db: DbTables, table: Table, trh: nat, serverOk: bool, h: nat, x: nat)
    ensures var (after, r) := InitStep(db, table, trh, serverOk);
            (IsIn(after, table, h) && TransactionOf(after, table, h) == x)
            <==> (r == Some(h) && x == if table.Transactions? then h else trh)
                 || (IsIn(db, table, h) && TransactionOf(db, table, h) == x)
  {
  }

  /** Every other lookup stays as it was. */
  lemma OtherLookupsStay(t: Tables, c: Call, table: Table, dbh: nat, h: nat)
    requires !Ends(c, table, dbh, h)
    requires !(c.Init? && c.table == table && c.dbh == dbh && RegistryStep(t, c).1 == Some(h))
    ensures Lookup(RegistryStep(t, c).0, table, dbh, h) == Lookup(t, table, dbh, h)
  {
    hide RegistryStep, Lookup;
    var before, after := Lookup(t, table, dbh, h), Lookup(RegistryStep(t, c).0, table, dbh, h);
    if before.Some? {
      LookupStep(t, c, table, dbh, h, before.value);
    }
    if after.Some? {
      LookupStep(t, c, table, dbh, h, after.value);
    }
  }

  /* ----- Any run ----- */

  /** Call k handed the handle out, and neither it nor its database was released since. */
  ghost predicate LiveSince(cs: seq<Call>, k: int, table: Table, dbh: nat, h: nat, trh: nat) {
    && 0 <= k < |cs| && HandsOut(Run(cs[..k]), cs[k], table, dbh, h, trh)
    && forall m :: k < m < |cs| ==> !Ends(cs[m], table, dbh, h)
  }

  ghost predicate Live(cs: seq<Call>, table: Table, dbh: nat, h: nat, trh: nat) {
    exists k :: LiveSince(cs, k, table, dbh, h, trh)
  }

  /**
   After any run of calls, handle h of database `dbh` is valid, and works in transaction `trh`, if and
   only if a call on that database handed it out for that transaction and neither the handle nor the
   database was released since.
   */
  lemma {:induction false} ValidExactly(cs: seq<Call>, table: Table, dbh: nat, h: nat, trh: nat)
    ensures Lookup(Run(cs), table, dbh, h) == Some(trh) <==> Live(cs, table, dbh, h, trh)
  {
    if cs == [] {
      assert !Live(cs, table, dbh, h, trh);
    } else {
      hide Live, RegistryStep, Lookup, Ends, HandsOut;
      var n := |cs| - 1;
      ValidExactly(cs[..n], table, dbh, h, trh);
      LookupStep(Run(cs[..n]), cs[n], table, dbh, h, trh);
      LiveStep(cs, table, dbh, h, trh);
    }
  }

  lemma LiveStep(cs: seq<Call>, table: Table, dbh: nat, h: nat, trh: nat)
    requires cs != []
    ensures var n := |cs| - 1;
            Live(cs, table, dbh, h, trh)
            <==> HandsOut(Run(cs[..n]), cs[n], table, dbh, h, trh)
                 || (Live(cs[..n], table, dbh, h, trh) && !Ends(cs[n], table, dbh, h))
  {
    hide Run, HandsOut, Ends;
    var n := |cs| - 1;
    var init := cs[..n];
    forall k | 0 <= k < n ensures init[..k] == cs[..k] {
    }
    if Live(cs, table, dbh, h, trh) {
      var k :| LiveSince(cs, k, table, dbh, h, trh);
      assert k < n ==> LiveSince(init, k, table, dbh, h, trh) && !Ends(cs[n], table, dbh, h);
    }
    if Live(init, table, dbh, h, trh) && !Ends(cs[n], table, dbh, h) {
      var k :| LiveSince(init, k, table, dbh, h, trh);
      assert LiveSince(cs, k, table, dbh, h, trh);
    }
    if HandsOut(Run(init), cs[n], table, dbh, h, trh) {
      assert LiveSince(cs, n, table, dbh, h, trh);
    }
  }

  /** Call k made database `dbh`, and it was not released since. */
  ghost predicate DatabaseSince(cs: seq<Call>, k: int, dbh: nat) {
    && 0 <= k < |cs| && cs[k].DatabaseInit? && ResultAt(cs, k) == Some(dbh)
    && forall m :: k < m < |cs| ==> cs[m] != DatabaseRelease(dbh, true)
  }

  ghost predicate DatabaseLive(cs: seq<Call>, dbh: nat) {
    exists k :: DatabaseSince(cs, k, dbh)
  }

  /** A database handle is valid if and only if it was handed out and not released since. */
  lemma {:induction false} DatabaseValidExactly(cs: seq<Call>, dbh: nat)
    ensures IsValid(Run(cs), dbh) <==> DatabaseLive(cs, dbh)
  {
    if cs == [] {
      assert !DatabaseLive(cs, dbh);
    } else {
      var n := |cs| - 1;
      var init := cs[..n];
      DatabaseValidExactly(init, dbh);
      assert ResultAt(cs, n) == RegistryStep(Run(init), cs[n]).1;
      DatabaseLiveStep(cs, dbh);
    }
  }

  lemma DatabaseLiveStep(cs: seq<Call>, dbh: nat)
    requires cs != []
    ensures var n := |cs| - 1;
            DatabaseLive(cs, dbh)
            <==> (cs[n].DatabaseInit? && ResultAt(cs, n) == Some(dbh))
                 || (DatabaseLive(cs[..n], dbh) && cs[n] != DatabaseRelease(dbh, true))
  {
    hide Run, RegistryStep;
    var n := |cs| - 1;
    var init := cs[..n];
    forall k | 0 <= k < n ensures ResultAt(init, k) == ResultAt(cs, k) {
      assert init[..k] == cs[..k];
    }
    if DatabaseLive(cs, dbh) {
      var k :| DatabaseSince(cs, k, dbh);
      assert k < n ==> DatabaseSince(init, k, dbh) && cs[n] != DatabaseRelease(dbh, true);
    }
    if DatabaseLive(init, dbh) && cs[n] != DatabaseRelease(dbh, true) {
      var k :| DatabaseSince(init, k, dbh);
      assert DatabaseSince(cs, k, dbh);
    }
    if cs[n].DatabaseInit? && ResultAt(cs, n) == Some(dbh) {
      assert DatabaseSince(cs, n, dbh);
    }
  }

  /* ----- Handles are never reused ----- */

  /** The call makes a slot in the same table as another one. */
  predicate SameTable(c: Call, d: Call) {
    (c.DatabaseInit? && d.DatabaseInit?) || (c.Init? && d.Init? && c.table == d.table && c.dbh == d.dbh)
  }

  function TableLength(db: DbTables, table: Table): nat {
    match table
    case Transactions => |db.trs|
    case Statements => |db.sts|
    case Blobs => |db.bls|
  }

  /** Handles handed out so far are within their tables, as long as those exist. */
  ghost predicate Within(t: Tables, c: Call, h: nat) {
    match c
    case DatabaseInit => h <= |t|
    case Init(table, dbh, _, _) => dbh <= |t| && (IsValid(t, dbh) ==> h <= TableLength(Get(t, dbh), table))
    case _ => true
  }

  lemma WithinStep(t: Tables, c: Call, d: Call, h: nat)
    requires Within(t, c, h)
    ensures Within(RegistryStep(t, d).0, c, h)
  {
  }

  lemma {:induction false} HandedOutWithin(cs: seq<Call>, k: nat)
    requires k < |cs| && ResultAt(cs, k).Some?
    ensures Within(Run(cs), cs[k], ResultAt(cs, k).value)
  {
    var n := |cs| - 1;
    if k < n {
      hide RegistryStep, Within;
      assert cs[..n][..k] == cs[..k];
      HandedOutWithin(cs[..n], k);
      WithinStep(Run(cs[..n]), cs[k], cs[n], ResultAt(cs, k).value);
    }
  }

  /** No table of any database ever hands out the same handle twice. */
  lemma HandlesAreFresh(cs: seq<Call>, k: nat, m: nat)
    requires k < m < |cs| && SameTable(cs[k], cs[m])
    requires ResultAt(cs, k).Some? && ResultAt(cs, m).Some?
    ensures ResultAt(cs, k) != ResultAt(cs, m)
  {
    assert cs[..m][..k] == cs[..k];
    HandedOutWithin(cs[..m], k);
  }
}
