/**
 Transactions: what a wrapper holds, against a server that may refuse any call. Server transactions
 are numbered in order of their start; the server keeps a log of the calls made on each.
 */
module TransactionLifecycle {
  import opened MachineTypes

  datatype Status = Active | Prepared | Finished

  /** Calls on a transaction handle. `Release` is the rollback a destructor attempts. */
  datatype CallKind = Commit | Rollback | CommitRetaining | RollbackRetaining | Prepare | Sql | Release

  /** One call made on transaction `tra`, and whether it ended the transaction. */
  datatype Logged = Logged(tra: nat, kind: CallKind, ended: bool)

  datatype Server = Server(status: seq<Status>, log: seq<Logged>) {
    predicate Knows(t: nat) {
      t < |status|
    }

    /** A fresh transaction, numbered |status|. */
    function Begin(): Server {
      Server(status + [Active], log)
    }

    /** A call that leaves or gives the transaction the status `after`. */
    function Call(t: nat, kind: CallKind, after: Status): Server
      requires Knows(t)
    {
      Server(status[t := after], log + [Logged(t, kind, after == Finished)])
    }
  }

  /**
   How a wrapper came to be. A reconnected object works on the wrapper made by reconnecting, but goes on
   reading the number of the one its constructor made. A stray wrapper is one that reconnecting lost.
   */
  datatype Origin = Constructed | Reconnected | Stray

  /**
   `tra` is the handle held, `id` the number the server last reported to the wrapper (transaction t
   has the number t + 1, nothing 0); `isPrepared2pc` belongs to the PHP object, whose destruction may
   leave the slot alive.
   */
  datatype Wrapper = Wrapper(
    tra: Option<nat>,
    id: nat,
    isPrepared2pc: bool,
    objectAlive: bool,
    slotAlive: bool,
    origin: Origin)
  {
    /** The number a PHP program reads from the object. */
    function Shown(): nat {
      if origin == Reconnected then 0 else id
    }

    /** The number of the transaction held. */
    function Number(): nat {
      if tra.Some? then tra.value + 1 else 0
    }
  }

  const NewWrapper := Wrapper(None, 0, false, true, true, Constructed)

  /** The wrapper made for transaction t by reconnecting; without the information call it is lost. */
  function ReconnectedWrapper(t: nat, infoOk: bool): Wrapper {
    if infoOk then Wrapper(Some(t), t + 1, false, true, true, Reconnected)
    else Wrapper(Some(t), 0, false, false, true, Stray)
  }

  datatype SqlReply = SqlFails | SqlKeeps | SqlEnds | SqlStarts

  const FBP_TR_ROLLBACK := 1
  const FBP_TR_COMMIT := 2
  const FBP_TR_RETAIN := 4

  /** Calls on one wrapper with the server's answers. */
  datatype Call =
    | Start(ok: bool, infoOk: bool)
    | Execute(reply: SqlReply, infoOk: bool)
    | Finalize(mode: int, ok: bool)
    | Prepare2pc(ok: bool)
    | DestroyObject(ok: bool)
    | DestroySlot(ok: bool)

  datatype Outcome = Done | Failed | Crashed

  /* ----- Specification of one call ----- */

  function KindOf(mode: int): CallKind {
    if mode == FBP_TR_COMMIT then Commit
    else if mode == FBP_TR_ROLLBACK + FBP_TR_RETAIN then RollbackRetaining
    else if mode == FBP_TR_COMMIT + FBP_TR_RETAIN then CommitRetaining
    else Rollback
  }

  function Retains(kind: CallKind): bool {
    kind == CommitRetaining || kind == RollbackRetaining
  }

  function StartStep(w: Wrapper, srv: Server, ok: bool, infoOk: bool): (Wrapper, Server, Outcome) {
    if w.tra.Some? || !ok then (w, srv, Failed)
    else
      var t := |srv.status|;
      var w' := w.(tra := Some(t));
      if infoOk then (w'.(id := t + 1), srv.Begin(), Done) else (w', srv.Begin(), Failed)
  }

  /** The server keeps a passed handle, ends its transaction, or starts one only if none was passed. */
  function ExecuteStep(w: Wrapper, srv: Server, reply: SqlReply, infoOk: bool): (Wrapper, Server, Outcome)
    requires w.tra.Some? ==> srv.Knows(w.tra.value)
  {
    match w.tra
    case Some(t) =>
      if reply == SqlFails then (w, srv.Call(t, Sql, srv.status[t]), Failed)
      else if reply == SqlEnds then (w.(tra := None, id := 0), srv.Call(t, Sql, Finished), Done)
      else (w, srv.Call(t, Sql, srv.status[t]), Done)
    case None =>
      if reply == SqlFails then (w, srv, Failed)
      else if reply == SqlStarts then StartStep(w, srv, true, infoOk)
      else (w, srv, Done)
  }

  function FinalizeStep(w: Wrapper, srv: Server, mode: int, ok: bool): (Wrapper, Server, Outcome)
    requires w.tra.Some? ==> srv.Knows(w.tra.value)
  {
    match w.tra
    case None => (w, srv, Failed)
    case Some(t) =>
      var kind := KindOf(mode);
      if !ok then (w, srv.Call(t, kind, srv.status[t]), Failed)
      else if Retains(kind) then (w, srv.Call(t, kind, srv.status[t]), Done)
      else (w.(tra := None), srv.Call(t, kind, Finished), Done)
  }

  function PrepareStep(w: Wrapper, srv: Server, ok: bool): (Wrapper, Server, Outcome)
    requires w.tra.Some? ==> srv.Knows(w.tra.value)
  {
    match w.tra
    case None => (w, srv, Crashed)
    case Some(t) =>
      if ok then (w.(isPrepared2pc := true), srv.Call(t, Prepare, Prepared), Done)
      else (w, srv.Call(t, Prepare, srv.status[t]), Failed)
  }

  /** The C++ destructor: one rollback attempt, then the handle is gone. */
  function ReleaseStep(w: Wrapper, srv: Server, ok: bool): (Wrapper, Server, Outcome)
    requires w.tra.Some? ==> srv.Knows(w.tra.value)
  {
    var gone := w.(tra := None, slotAlive := false);
    match w.tra
    case None => (gone, srv, Done)
    case Some(t) => (gone, srv.Call(t, Release, if ok then Finished else srv.status[t]), if ok then Done else Failed)
  }

  function Step(w: Wrapper, srv: Server, c: Call): (r: (Wrapper, Server, Outcome))
    requires w.tra.Some? ==> srv.Knows(w.tra.value)
  {
    if w.origin == Stray || !w.slotAlive || (!w.objectAlive && !c.DestroySlot?) then (w, srv, Failed)
    else match c
      case Start(ok, infoOk) => StartStep(w, srv, ok, infoOk)
      case Execute(reply, infoOk) => ExecuteStep(w, srv, reply, infoOk)
      case Finalize(mode, ok) => FinalizeStep(w, srv, mode, ok)
      case Prepare2pc(ok) => PrepareStep(w, srv, ok)
      case DestroyObject(ok) =>
        var w' := w.(objectAlive := false);
        if w.isPrepared2pc then (w', srv, Done) else ReleaseStep(w', srv, ok)
      case DestroySlot(ok) => ReleaseStep(w, srv, ok)
  }

  /* ----- The object ----- */

  class Attachment {
    var server: Server

    constructor ()
      ensures server == Server([], [])
    {
      server := Server([], []);
    }
  }

  class Transaction {
    const dba: Attachment
    const origin: Origin
    var tra: Option<nat>
    var id: nat
    var isPrepared2pc: bool
    var objectAlive: bool
    var slotAlive: bool

    constructor (dba: Attachment)
      ensures this.dba == dba && Abs() == NewWrapper
    {
      this.dba, origin := dba, Constructed;
      tra, id, isPrepared2pc, objectAlive, slotAlive := None, 0, false, true, true;
    }

    /** What reconnecting makes of a transaction that the server handed back. */
    constructor Reconnect(dba: Attachment, t: nat, infoOk: bool)
      requires dba.server.Knows(t) && dba.server.status[t] == Prepared
      ensures this.dba == dba && Abs() == ReconnectedWrapper(t, infoOk) && Valid()
    {
      this.dba := dba;
      origin := if infoOk then Reconnected else Stray;
      tra, id, isPrepared2pc, objectAlive, slotAlive := None, 0, false, infoOk, true;
      new;
      tra := Some(t);
      var queried := QueryInfo(infoOk);
    }

    ghost function Abs(): Wrapper
      reads this
    {
      Wrapper(tra, id, isPrepared2pc, objectAlive, slotAlive, origin)
    }

    /** A wrapper holds unfinished transactions only. */
    ghost predicate Valid()
      reads this, dba
    {
      && (tra.Some? ==> dba.server.Knows(tra.value) && dba.server.status[tra.value] != Finished)
      && (origin == Stray ==> !objectAlive)
    }

    /** False means that the information call failed. */
    method QueryInfo(infoOk: bool) returns (ok: bool)
      modifies this`id
      ensures ok == (tra.Some? ==> infoOk)
      ensures id == if tra == None then 0 else if infoOk then tra.value + 1 else old(id)
    {
      if tra.Some? {
        if !infoOk {
          return false;
        }
        id := tra.value + 1;
      } else {
        id := 0;
      }
      ok := true;
    }

    method StartTransaction(ok: bool, infoOk: bool) returns (o: Outcome)
      requires Valid() && objectAlive && slotAlive
      modifies this, dba
      ensures Valid() && (Abs(), dba.server, o) == Step(old(Abs()), old(dba.server), Start(ok, infoOk))
      ensures o == if old(tra) == None && ok && infoOk then Done else Failed
      ensures tra == if old(tra) == None && ok then Some(|old(dba.server).status|) else old(tra)
      ensures id == if o == Done then |old(dba.server).status| + 1 else old(id)
      ensures dba.server.log == old(dba.server).log
      ensures dba.server.status
              == if old(tra) == None && ok then old(dba.server).status + [Active] else old(dba.server).status
    {
      if tra.Some? {
        return Failed;
      }
      if !ok {
        return Failed;
      }
      tra := Some(|dba.server.status|);
      dba.server := dba.server.Begin();
      var queried := QueryInfo(infoOk);
      o := if queried then Done else Failed;
    }

    method ExecuteSql(reply: SqlReply, infoOk: bool) returns (o: Outcome)
      requires Valid() && objectAlive && slotAlive
      modifies this, dba
      ensures Valid() && (Abs(), dba.server, o) == Step(old(Abs()), old(dba.server), Execute(reply, infoOk))
      ensures o == if reply == SqlFails || (old(tra) == None && reply == SqlStarts && !infoOk) then Failed else Done
      ensures old(tra).Some? ==>
                && tra == (if reply == SqlEnds then None else old(tra))
                && id == (if reply == SqlEnds then 0 else old(id))
                && dba.server.log == old(dba.server).log + [Logged(old(tra).value, Sql, reply == SqlEnds)]
      ensures old(tra) == None ==>
                && tra == (if reply == SqlStarts then Some(|old(dba.server).status|) else None)
                && id == (if reply == SqlStarts && infoOk then |old(dba.server).status| + 1 else old(id))
                && dba.server.log == old(dba.server).log
    {
      var newTra := tra;
      if tra.Some? {
        var t := tra.value;
        var ends := reply == SqlEnds;
        dba.server := dba.server.Call(t, Sql, if ends then Finished else dba.server.status[t]);
        newTra := if ends then None else tra;
      } else if reply == SqlStarts {
        newTra := Some(|dba.server.status|);
        dba.server := dba.server.Begin();
      }
      if reply == SqlFails {
        return Failed;
      }
      if newTra != tra {
        tra := newTra;
        var queried := QueryInfo(infoOk);
        return if queried then Done else Failed;
      }
      o := Done;
    }

    method FinalizeTransaction(mode: int, ok: bool) returns (o: Outcome)
      requires Valid() && objectAlive && slotAlive
      modifies this, dba
      ensures Valid() && (Abs(), dba.server, o) == Step(old(Abs()), old(dba.server), Finalize(mode, ok))
      ensures o == if old(tra).Some? && ok then Done else Failed
      ensures old(tra) == None ==> tra == None && dba.server == old(dba.server)
      ensures old(tra).Some? ==>
                var kind := if mode == 2 then Commit
                            else if mode == 6 then CommitRetaining
                            else if mode == 5 then RollbackRetaining
                            else Rollback;
                var ends := ok && mode != 5 && mode != 6;
                && dba.server.log == old(dba.server).log + [Logged(old(tra).value, kind, ends)]
                && tra == (if ends then None else old(tra))
    {
      if mode == FBP_TR_COMMIT {
        o := EndingCall(Commit, ok);
      } else if mode == FBP_TR_ROLLBACK + FBP_TR_RETAIN {
        o := RetainingCall(RollbackRetaining, ok);
      } else if mode == FBP_TR_COMMIT + FBP_TR_RETAIN {
        o := RetainingCall(CommitRetaining, ok);
      } else {
        o := EndingCall(Rollback, ok);
      }
    }

    /** `commit` and `rollback`. */
    method EndingCall(kind: CallKind, ok: bool) returns (o: Outcome)
      requires Valid()
      modifies this`tra, dba
      ensures old(tra) == None ==> o == Failed && tra == None && dba.server == old(dba.server)
      ensures old(tra).Some? ==>
                var t, srv := old(tra.value), old(dba.server);
                && o == (if ok then Done else Failed)
                && tra == (if ok then None else old(tra))
                && dba.server == srv.Call(t, kind, if ok then Finished else srv.status[t])
    {
      if tra == None {
        return Failed;
      }
      var t := tra.value;
      dba.server := dba.server.Call(t, kind, if ok then Finished else dba.server.status[t]);
      if !ok {
        return Failed;
      }
      tra := None;
      o := Done;
    }

    /** `commit_ret` and `rollback_ret`. */
    method RetainingCall(kind: CallKind, ok: bool) returns (o: Outcome)
      requires Valid()
      modifies dba
      ensures old(tra) == None ==> o == Failed && dba.server == old(dba.server)
      ensures old(tra).Some? ==>
                var t, srv := old(tra.value), old(dba.server);
                o == (if ok then Done else Failed) && dba.server == srv.Call(t, kind, srv.status[t])
    {
      if tra == None {
        return Failed;
      }
      var t := tra.value;
      dba.server := dba.server.Call(t, kind, dba.server.status[t]);
      o := if ok then Done else Failed;
    }

    method PrepareTransaction(ok: bool) returns (o: Outcome)
      requires Valid() && objectAlive && slotAlive
      modifies this, dba
      ensures Valid() && (Abs(), dba.server, o) == Step(old(Abs()), old(dba.server), Prepare2pc(ok))
      ensures o == if old(tra) == None then Crashed else if ok then Done else Failed
      ensures tra == old(tra) && isPrepared2pc == (old(isPrepared2pc) || o == Done)
      ensures old(tra).Some? ==>
                && dba.server.log == old(dba.server).log + [Logged(old(tra).value, Prepare, false)]
                && (ok ==> dba.server.status[old(tra).value] == Prepared)
    {
      if tra == None {
        return Crashed;
      }
      var t := tra.value;
      dba.server := dba.server.Call(t, Prepare, if ok then Prepared else dba.server.status[t]);
      if !ok {
        return Failed;
      }
      isPrepared2pc := true;
      o := Done;
    }

    /** `free_obj`: a prepared object leaves its slot to the database. */
    method FreeObject(ok: bool) returns (o: Outcome)
      requires Valid() && objectAlive && slotAlive
      modifies this, dba
      ensures Valid() && (Abs(), dba.server, o) == Step(old(Abs()), old(dba.server), DestroyObject(ok))
      ensures !objectAlive && slotAlive == old(isPrepared2pc)
      ensures if old(isPrepared2pc) || old(tra) == None then dba.server == old(dba.server)
              else dba.server.log == old(dba.server).log + [Logged(old(tra).value, Release, ok)]
    {
      objectAlive := false;
      if !isPrepared2pc {
        o := Destruct(ok);
      } else {
        o := Done;
      }
    }

    /** The destructor, run when the slot is reset or the database goes. */
    method Destruct(ok: bool) returns (o: Outcome)
      requires Valid() && slotAlive
      modifies this, dba
      ensures Valid() && (Abs(), dba.server, o) == ReleaseStep(old(Abs()), old(dba.server), ok)
      ensures tra == None && !slotAlive && o == if old(tra).Some? && !ok then Failed else Done
      ensures if old(tra) == None then dba.server == old(dba.server)
              else dba.server.log == old(dba.server).log + [Logged(old(tra).value, Release, ok)]
                   && (ok ==> dba.server.status[old(tra).value] == Finished)
    {
      o := Done;
      if tra.Some? {
        var t := tra.value;
        dba.server := dba.server.Call(t, Release, if ok then Finished else dba.server.status[t]);
        o := if ok then Done else Failed;
      }
      tra := None;
      slotAlive := false;
    }
  }
}
