/** The transaction builder and the parameter buffer made from it. */
module TransactionBuilder {
  import opened MachineTypes

  datatype Settings = Settings(
    readOnly: bool,
    ignoreLimbo: bool,
    autoCommit: bool,
    noAutoUndo: bool,
    isolationMode: int,
    lockTimeout: int,
    snapshotAtNumber: int)

  /** Items of a transaction parameter buffer; `Bug` is the fatal branch. */
  datatype Item =
    | Read | Write
    | IgnoreLimbo | AutoCommit | NoAutoUndo
    | Consistency | Concurrency | ReadCommitted
    | AtSnapshotNumber(n: int)
    | RecVersion | NoRecVersion | ReadConsistency
    | NoWait | Wait | LockTimeout(seconds: int)
    | Bug

  const Fresh := Settings(false, false, false, false, 1, -1, 0)

  /** What the setters keep. */
  predicate Valid(s: Settings) {
    && 0 <= s.isolationMode <= 4
    && -1 <= s.lockTimeout <= 0x7FFF
    && 0 <= s.snapshotAtNumber < TWO_64
    && (s.snapshotAtNumber != 0 ==> s.isolationMode == 1)
  }

  /* ----- The builder's methods ----- */

  datatype Setter =
    | SetReadOnly(enable: bool)
    | SetIgnoreLimbo(enable: bool)
    | SetAutoCommit(enable: bool)
    | SetNoAutoUndo(enable: bool)
    | SetWait(timeout: Int64)
    | SnapshotTableStability
    | Snapshot(atNumber: Int64)
    | RecordVersion
    | NoRecordVersion
    | ReadConsistent

  function Apply(s: Settings, c: Setter): Settings {
    match c
    case SetReadOnly(b) => s.(readOnly := b)
    case SetIgnoreLimbo(b) => s.(ignoreLimbo := b)
    case SetAutoCommit(b) => s.(autoCommit := b)
    case SetNoAutoUndo(b) => s.(noAutoUndo := b)
    case SetWait(t) => if t < -1 || t > 0x7FFF then s else s.(lockTimeout := t)
    case SnapshotTableStability => s.(isolationMode := 0, snapshotAtNumber := 0)
    case Snapshot(n) => s.(isolationMode := 1, snapshotAtNumber := ToUint64(n))
    case RecordVersion => s.(isolationMode := 2, snapshotAtNumber := 0)
    case NoRecordVersion => s.(isolationMode := 3, snapshotAtNumber := 0)
    case ReadConsistent => s.(isolationMode := 4, snapshotAtNumber := 0)
  }

  function ApplyAll(s: Settings, cs: seq<Setter>): Settings {
    if cs == [] then s else Apply(ApplyAll(s, cs[..|cs| - 1]), cs[|cs| - 1])
  }

  class TBuilder {
    var readOnly: bool
    var ignoreLimbo: bool
    var autoCommit: bool
    var noAutoUndo: bool
    var isolationMode: int
    var lockTimeout: int
    var snapshotAtNumber: int

    constructor ()
      ensures Abs() == Settings(false, false, false, false, 1, -1, 0)
    {
      readOnly, ignoreLimbo, autoCommit, noAutoUndo := false, false, false, false;
      isolationMode, snapshotAtNumber := 1, 0;
      lockTimeout := -1;
    }

    function Abs(): Settings
      reads this
    {
      Settings(readOnly, ignoreLimbo, autoCommit, noAutoUndo, isolationMode, lockTimeout, snapshotAtNumber)
    }

    /** The isolation setters share this step. */
    method UpdateIsolationMode(mode: int)
      modifies this
      ensures Abs() == old(Abs()).(isolationMode := mode, snapshotAtNumber := 0)
    {
      isolationMode := mode;
      snapshotAtNumber := 0;
    }

    /** One call by a PHP program. False stands for the value error of an illegal timeout. */
    method Call(c: Setter) returns (ok: bool)
      modifies this
      ensures Abs() == Apply(old(Abs()), c)
      ensures ok == !(c.SetWait? && (c.timeout < -1 || c.timeout > 32767))
      ensures !ok ==> unchanged(this)
    {
      hide ToUint64;
      ok := true;
      match c {
        case SetReadOnly(enable) => readOnly := enable;
        case SetIgnoreLimbo(enable) => ignoreLimbo := enable;
        case SetAutoCommit(enable) => autoCommit := enable;
        case SetNoAutoUndo(enable) => noAutoUndo := enable;
        case SetWait(timeout) =>
          if timeout < -1 || timeout > 0x7FFF {
            return false;
          }
          lockTimeout := timeout;
        case SnapshotTableStability => UpdateIsolationMode(0);
        case Snapshot(atNumber) =>
          UpdateIsolationMode(1);
          snapshotAtNumber := ToUint64(atNumber);
        case RecordVersion => UpdateIsolationMode(2);
        case NoRecordVersion => UpdateIsolationMode(3);
        case ReadConsistent => UpdateIsolationMode(4);
      }
    }
  }

  /** `build_tpb`. Without a builder no buffer is sent. */
  method BuildTpb(builder: TBuilder?) returns (r: Option<seq<Item>>)
    ensures r == if builder == null then None else Some(Encode(builder.Abs()))
    ensures builder == null ==> r == None
    ensures builder != null ==> r.Some? && Says(r.value, builder.Abs())
  {
    if builder == null {
      return None;
    }
    hide Says;
    var s := builder.Abs();
    EncodeSays(s);
    var tpb := BuildFlags(s);
    tpb := BuildIsolation(tpb, s);
    tpb := BuildWait(tpb, s.lockTimeout);
    r := Some(tpb);
  }

  method BuildFlags(s: Settings) returns (tpb: seq<Item>)
    ensures tpb == FlagItems(s)
  {
    tpb := [if s.readOnly then Read else Write];
    if s.ignoreLimbo {
      tpb := tpb + [IgnoreLimbo];
    }
    if s.autoCommit {
      tpb := tpb + [AutoCommit];
    }
    if s.noAutoUndo {
      tpb := tpb + [NoAutoUndo];
    }
  }

  method BuildIsolation(tpb0: seq<Item>, s: Settings) returns (tpb: seq<Item>)
    ensures tpb == tpb0 + IsolationItems(s)
  {
    tpb := tpb0;
    if s.isolationMode == 0 {
      tpb := tpb + [Consistency];
    } else if s.isolationMode == 1 {
      tpb := tpb + [Concurrency];
      if s.snapshotAtNumber != 0 {
        tpb := tpb + [AtSnapshotNumber(ToInt32(s.snapshotAtNumber))];
      }
    } else if s.isolationMode == 2 {
      tpb := tpb + [ReadCommitted];
      tpb := tpb + [RecVersion];
    } else if s.isolationMode == 3 {
      tpb := tpb + [ReadCommitted];
      tpb := tpb + [NoRecVersion];
    } else if s.isolationMode == 4 {
      tpb := tpb + [ReadCommitted];
      tpb := tpb + [ReadConsistency];
    } else {
      tpb := tpb + [Bug];
    }
  }

  method BuildWait(tpb0: seq<Item>, lockTimeout: int) returns (tpb: seq<Item>)
    ensures tpb == tpb0 + WaitItems(lockTimeout)
  {
    tpb := tpb0;
    if lockTimeout == 0 {
      tpb := tpb + [NoWait];
    } else if lockTimeout == -1 {
      tpb := tpb + [Wait];
    } else if lockTimeout > 0 {
      tpb := tpb + [Wait];
      tpb := tpb + [LockTimeout(lockTimeout)];
    } else {
      tpb := tpb + [Bug];
    }
  }

  /** The parameter buffer of a builder. */
  function Encode(s: Settings): seq<Item> {
    FlagItems(s) + IsolationItems(s) + WaitItems(s.lockTimeout)
  }

  function FlagItems(s: Settings): seq<Item> {
    [if s.readOnly then Read else Write]
    + (if s.ignoreLimbo then [IgnoreLimbo] else [])
    + (if s.autoCommit then [AutoCommit] else [])
    + (if s.noAutoUndo then [NoAutoUndo] else [])
  }

  function IsolationItems(s: Settings): seq<Item> {
    if s.isolationMode == 0 then [Consistency]
    else if s.isolationMode == 1 then
      if s.snapshotAtNumber != 0 then [Concurrency, AtSnapshotNumber(ToInt32(s.snapshotAtNumber))] else [Concurrency]
    else if s.isolationMode == 2 then [ReadCommitted, RecVersion]
    else if s.isolationMode == 3 then [ReadCommitted, NoRecVersion]
    else if s.isolationMode == 4 then [ReadCommitted, ReadConsistency]
    else [Bug]
  }

  function WaitItems(timeout: int): seq<Item> {
    if timeout == 0 then [NoWait]
    else if timeout == -1 then [Wait]
    else if timeout > 0 then [Wait, LockTimeout(timeout)]
    else [Bug]
  }

  /** Which items a buffer for these settings holds, item by item. */
  ghost predicate Says(tpb: seq<Item>, s: Settings) {
    && (Read in tpb <==> s.readOnly) && (Write in tpb <==> !s.readOnly)
    && (IgnoreLimbo in tpb <==> s.ignoreLimbo)
    && (AutoCommit in tpb <==> s.autoCommit)
    && (NoAutoUndo in tpb <==> s.noAutoUndo)
    && (Consistency in tpb <==> s.isolationMode == 0)
    && (Concurrency in tpb <==> s.isolationMode == 1)
    && (ReadCommitted in tpb <==> 2 <= s.isolationMode <= 4)
    && (RecVersion in tpb <==> s.isolationMode == 2)
    && (NoRecVersion in tpb <==> s.isolationMode == 3)
    && (ReadConsistency in tpb <==> s.isolationMode == 4)
    && (NoWait in tpb <==> s.lockTimeout == 0)
    && (Wait in tpb <==> s.lockTimeout == -1 || s.lockTimeout > 0)
    && (forall n :: LockTimeout(n) in tpb <==> s.lockTimeout == n > 0)
    && (forall n :: AtSnapshotNumber(n) in tpb
                    <==> s.isolationMode == 1 && s.snapshotAtNumber != 0 && n == ToInt32(s.snapshotAtNumber))
  }

  lemma EncodeSays(s: Settings)
    ensures Says(Encode(s), s)
  {
    hide Encode, FlagItems, IsolationItems, WaitItems, ToInt32;
    ItemsOf(s);
    PartsOf(s);
  }

  lemma PartsOf(s: Settings)
    ensures forall i ::
              i in Encode(s) <==> i in FlagItems(s) || i in IsolationItems(s) || i in WaitItems(s.lockTimeout)
  {
    hide FlagItems, IsolationItems, WaitItems;
  }

  lemma ItemsOf(s: Settings)
    ensures forall i :: i in FlagItems(s) <==>
              || i == (if s.readOnly then Read else Write) || (i.IgnoreLimbo? && s.ignoreLimbo)
              || (i.AutoCommit? && s.autoCommit) || (i.NoAutoUndo? && s.noAutoUndo)
    ensures forall i :: i in WaitItems(s.lockTimeout) <==>
              || (i.NoWait? && s.lockTimeout == 0) || (i.Wait? && (s.lockTimeout == -1 || s.lockTimeout > 0))
              || (i == LockTimeout(s.lockTimeout) && s.lockTimeout > 0) || (i.Bug? && s.lockTimeout < -1)
    ensures forall i :: i in IsolationItems(s) <==>
              || (i.Consistency? && s.isolationMode == 0) || (i.Concurrency? && s.isolationMode == 1)
              || (i.ReadCommitted? && 2 <= s.isolationMode <= 4) || (i.RecVersion? && s.isolationMode == 2)
              || (i.NoRecVersion? && s.isolationMode == 3) || (i.ReadConsistency? && s.isolationMode == 4)
              || (i == AtSnapshotNumber(ToInt32(s.snapshotAtNumber))
                  && s.isolationMode == 1 && s.snapshotAtNumber != 0)
              || (i.Bug? && !(0 <= s.isolationMode <= 4))
  {
    hide ToInt32;
  }

  /* ----- What a server makes of the buffer ----- */

  /** One item read in order; a later item may refine an earlier one. */
  function Interpret(s: Settings, i: Item): Settings {
    match i
    case Read => s.(readOnly := true)
    case Write => s.(readOnly := false)
    case IgnoreLimbo => s.(ignoreLimbo := true)
    case AutoCommit => s.(autoCommit := true)
    case NoAutoUndo => s.(noAutoUndo := true)
    case Consistency => s.(isolationMode := 0)
    case Concurrency => s.(isolationMode := 1)
    case ReadCommitted => s.(isolationMode := 3)
    case AtSnapshotNumber(n) => s.(snapshotAtNumber := n)
    case RecVersion => s.(isolationMode := 2)
    case NoRecVersion => s.(isolationMode := 3)
    case ReadConsistency => s.(isolationMode := 4)
    case NoWait => s.(lockTimeout := 0)
    case Wait => s.(lockTimeout := -1)
    case LockTimeout(t) => s.(lockTimeout := t)
    case Bug => s
  }

  function InterpretAll(s: Settings, items: seq<Item>): Settings {
    if items == [] then s else Interpret(InterpretAll(s, items[..|items| - 1]), items[|items| - 1])
  }

  lemma {:induction false} InterpretConcat(s: Settings, a: seq<Item>, b: seq<Item>)
    ensures InterpretAll(s, a + b) == InterpretAll(InterpretAll(s, a), b)
  {
    if b == [] {
      assert a + b == a;
    } else {
      var n := |b| - 1;
      assert (a + b)[..|a + b| - 1] == a + b[..n];
      InterpretConcat(s, a, b[..n]);
    }
  }

  lemma InterpretOne(s: Settings, i: Item)
    ensures InterpretAll(s, [i]) == Interpret(s, i)
  {
    assert [i][..0] == [];
  }

  lemma InterpretTwo(s: Settings, i: Item, j: Item)
    ensures InterpretAll(s, [i, j]) == Interpret(Interpret(s, i), j)
  {
    assert [i] + [j] == [i, j];
    InterpretConcat(s, [i], [j]);
    InterpretOne(s, i);
    InterpretOne(Interpret(s, i), j);
  }

  lemma InterpretFlag(s: Settings, on: bool, i: Item)
    ensures InterpretAll(s, if on then [i] else []) == if on then Interpret(s, i) else s
  {
    InterpretOne(s, i);
  }

  /** The settings as the buffer can carry them: the snapshot number passes through a 32-bit argument. */
  function Carried(s: Settings): Settings {
    s.(snapshotAtNumber := ToInt32(s.snapshotAtNumber))
  }

  lemma EncodeInterpreted(s: Settings)
    requires Valid(s)
    ensures InterpretAll(Fresh, Encode(s)) == Carried(s)
  {
    hide InterpretAll;
    var first := if s.readOnly then Read else Write;
    var s1 := Interpret(Fresh, first);
    InterpretOne(Fresh, first);
    var f1 := if s.ignoreLimbo then [IgnoreLimbo] else [];
    var s2 := InterpretAll(s1, f1);
    InterpretFlag(s1, s.ignoreLimbo, IgnoreLimbo);
    InterpretConcat(Fresh, [first], f1);
    var f2 := if s.autoCommit then [AutoCommit] else [];
    var s3 := InterpretAll(s2, f2);
    InterpretFlag(s2, s.autoCommit, AutoCommit);
    InterpretConcat(Fresh, [first] + f1, f2);
    var f3 := if s.noAutoUndo then [NoAutoUndo] else [];
    var s4 := InterpretAll(s3, f3);
    InterpretFlag(s3, s.noAutoUndo, NoAutoUndo);
    InterpretConcat(Fresh, [first] + f1 + f2, f3);
    InterpretIsolation(s4, s);
    InterpretConcat(Fresh, [first] + f1 + f2 + f3, IsolationItems(s));
    var s5 := InterpretAll(s4, IsolationItems(s));
    InterpretWait(s5, s.lockTimeout);
    InterpretConcat(Fresh, [first] + f1 + f2 + f3 + IsolationItems(s), WaitItems(s.lockTimeout));
  }

  lemma InterpretIsolation(t: Settings, s: Settings)
    requires Valid(s) && t.snapshotAtNumber == 0
    ensures InterpretAll(t, IsolationItems(s))
            == t.(isolationMode := s.isolationMode, snapshotAtNumber := ToInt32(s.snapshotAtNumber))
  {
    hide InterpretAll;
    var items := IsolationItems(s);
    assert ToInt32(0) == 0;
    if |items| == 1 {
      InterpretOne(t, items[0]);
      assert items == [items[0]];
    } else {
      InterpretTwo(t, items[0], items[1]);
      assert items == [items[0], items[1]];
    }
  }

  lemma InterpretWait(t: Settings, timeout: int)
    requires -1 <= timeout
    ensures InterpretAll(t, WaitItems(timeout)) == t.(lockTimeout := timeout)
  {
    hide InterpretAll;
    var items := WaitItems(timeout);
    if |items| == 1 {
      InterpretOne(t, items[0]);
      assert items == [items[0]];
    } else {
      InterpretTwo(t, items[0], items[1]);
      assert items == [items[0], items[1]];
    }
  }

  /* ----- Any sequence of setters ----- */

  /** The setters keep mode, timeout and snapshot number in range. */
  lemma {:induction false} SettersKeepValid(cs: seq<Setter>)
    ensures Valid(ApplyAll(Fresh, cs))
  {
    if cs != [] {
      hide Apply, Valid;
      SettersKeepValid(cs[..|cs| - 1]);
      SetterKeepsValid(ApplyAll(Fresh, cs[..|cs| - 1]), cs[|cs| - 1]);
    }
  }

  lemma SetterKeepsValid(s: Settings, c: Setter)
    requires Valid(s)
    ensures Valid(Apply(s, c))
  {
  }

  /* ----- What a sequence of setters asks for ----- */

  /** Setters that override each other; an illegal timeout overrides nothing. */
  datatype Group = ReadOnlyFlag | IgnoreLimboFlag | AutoCommitFlag | NoAutoUndoFlag | LegalWait | Isolation

  predicate In(c: Setter, g: Group) {
    match g
    case ReadOnlyFlag => c.SetReadOnly?
    case IgnoreLimboFlag => c.SetIgnoreLimbo?
    case AutoCommitFlag => c.SetAutoCommit?
    case NoAutoUndoFlag => c.SetNoAutoUndo?
    case LegalWait => c.SetWait? && -1 <= c.timeout <= 32767
    case Isolation =>
      c.SnapshotTableStability? || c.Snapshot? || c.RecordVersion? || c.NoRecordVersion? || c.ReadConsistent?
  }

  /** Setter k is the last of its group. */
  ghost predicate LastOf(cs: seq<Setter>, k: int, g: Group) {
    0 <= k < |cs| && In(cs[k], g) && forall m :: k < m < |cs| ==> !In(cs[m], g)
  }

  ghost predicate NoneOf(cs: seq<Setter>, g: Group) {
    forall m :: 0 <= m < |cs| ==> !In(cs[m], g)
  }

  predicate Enables(c: Setter) {
    (c.SetReadOnly? || c.SetIgnoreLimbo? || c.SetAutoCommit? || c.SetNoAutoUndo?) && c.enable
  }

  /** The last setter of a flag turns it on. */
  ghost predicate TurnedOn(cs: seq<Setter>, g: Group) {
    exists k :: LastOf(cs, k, g) && Enables(cs[k])
  }

  /** The mode an isolation setter asks for, as the server reads modes. */
  function ModeOf(c: Setter): int
    requires In(c, Isolation)
  {
    match c
    case SnapshotTableStability => 0
    case Snapshot(_) => 1
    case RecordVersion => 2
    case NoRecordVersion => 3
    case _ => 4
  }

  /** The settings are those the last setter of each group asks for, or the defaults. */
  ghost predicate Asked(cs: seq<Setter>, s: Settings) {
    && (s.readOnly <==> TurnedOn(cs, ReadOnlyFlag))
    && (s.ignoreLimbo <==> TurnedOn(cs, IgnoreLimboFlag))
    && (s.autoCommit <==> TurnedOn(cs, AutoCommitFlag))
    && (s.noAutoUndo <==> TurnedOn(cs, NoAutoUndoFlag))
    && (forall k :: LastOf(cs, k, LegalWait) ==> s.lockTimeout == cs[k].timeout)
    && (NoneOf(cs, LegalWait) ==> s.lockTimeout == -1)
    && (forall k :: LastOf(cs, k, Isolation) ==>
          && s.isolationMode == ModeOf(cs[k])
          && s.snapshotAtNumber == if cs[k].Snapshot? then cs[k].atNumber % 0x1_0000_0000_0000_0000 else 0)
    && (NoneOf(cs, Isolation) ==> s.isolationMode == 1 && s.snapshotAtNumber == 0)
  }

  lemma LastStep(cs: seq<Setter>, k: int, g: Group)
    requires cs != []
    ensures LastOf(cs, k, g) <==> if In(cs[|cs| - 1], g) then k == |cs| - 1 else LastOf(cs[..|cs| - 1], k, g)
    ensures LastOf(cs[..|cs| - 1], k, g) ==> 0 <= k < |cs| - 1
  {
    hide In;
  }

  lemma NoneStep(cs: seq<Setter>, g: Group)
    requires cs != []
    ensures NoneOf(cs, g) <==> NoneOf(cs[..|cs| - 1], g) && !In(cs[|cs| - 1], g)
  {
    hide In;
    var n := |cs| - 1;
    assert forall m :: 0 <= m < n ==> cs[..n][m] == cs[m];
  }

  lemma TurnedOnStep(cs: seq<Setter>, g: Group)
    requires cs != []
    ensures TurnedOn(cs, g) <==>
            if In(cs[|cs| - 1], g) then Enables(cs[|cs| - 1]) else TurnedOn(cs[..|cs| - 1], g)
  {
    hide In, Enables, LastOf;
    var n := |cs| - 1;
    forall k
      ensures LastOf(cs, k, g) <==> if In(cs[n], g) then k == n else LastOf(cs[..n], k, g)
      ensures LastOf(cs[..n], k, g) ==> 0 <= k < n && cs[..n][k] == cs[k]
    {
      LastStep(cs, k, g);
    }
    if In(cs[n], g) {
      assert LastOf(cs, n, g);
    }
  }

  lemma AskedStep(cs: seq<Setter>, s: Settings)
    requires cs != [] && Asked(cs[..|cs| - 1], s)
    ensures Asked(cs, Apply(s, cs[|cs| - 1]))
  {
    hide LastOf, NoneOf, TurnedOn, ToUint64;
    var n, c := |cs| - 1, cs[|cs| - 1];
    TurnedOnStep(cs, ReadOnlyFlag);
    TurnedOnStep(cs, IgnoreLimboFlag);
    TurnedOnStep(cs, AutoCommitFlag);
    TurnedOnStep(cs, NoAutoUndoFlag);
    forall k
      ensures LastOf(cs, k, LegalWait) <==> if In(c, LegalWait) then k == n else LastOf(cs[..n], k, LegalWait)
      ensures LastOf(cs[..n], k, LegalWait) ==> 0 <= k < n && cs[..n][k] == cs[k]
      ensures LastOf(cs, k, Isolation) <==> if In(c, Isolation) then k == n else LastOf(cs[..n], k, Isolation)
      ensures LastOf(cs[..n], k, Isolation) ==> 0 <= k < n && cs[..n][k] == cs[k]
    {
      LastStep(cs, k, LegalWait);
      LastStep(cs, k, Isolation);
    }
    NoneStep(cs, LegalWait);
    NoneStep(cs, Isolation);
    if c.Snapshot? {
      Reduced(c.atNumber);
    }
  }

  lemma Reduced(n: int)
    ensures ToUint64(n) == n % 0x1_0000_0000_0000_0000
  {
  }

  lemma {:induction false} SettersAsk(cs: seq<Setter>)
    ensures Asked(cs, ApplyAll(Fresh, cs))
  {
    if cs != [] {
      hide Asked, Apply;
      SettersAsk(cs[..|cs| - 1]);
      AskedStep(cs, ApplyAll(Fresh, cs[..|cs| - 1]));
    }
  }

  /** The snapshot number the last isolation setter asks for fits `int`. */
  ghost predicate NumberFits(cs: seq<Setter>) {
    forall k :: LastOf(cs, k, Isolation) && cs[k].Snapshot? ==> 0 <= cs[k].atNumber <= 2147483647
  }

  /**
   After any sequence of setters the server reads from the buffer what the last setter of each group
   asked for, and the defaults where there is none, if and only if the snapshot number fits `int`.
   */
  lemma ServerReadsAsked(cs: seq<Setter>)
    ensures Asked(cs, InterpretAll(Settings(false, false, false, false, 1, -1, 0), Encode(ApplyAll(Fresh, cs))))
            <==> NumberFits(cs)
  {
    hide *;
    var s := ApplyAll(Fresh, cs);
    SettersAsk(cs);
    FreshIs();
    BuilderIsFaithful(cs);
    AskedFits(cs, s);
    SettersKeepValid(cs);
    EncodeInterpreted(s);
    if Asked(cs, InterpretAll(Fresh, Encode(s))) {
      OneNumberAsked(cs, s, InterpretAll(Fresh, Encode(s)));
    }
  }

  lemma FreshIs()
    ensures Fresh == Settings(false, false, false, false, 1, -1, 0)
  {
  }

  /** Settings asked for by the same setters agree. */
  lemma OneNumberAsked(cs: seq<Setter>, s: Settings, t: Settings)
    requires Asked(cs, s) && Asked(cs, t)
    ensures s == t
  {
    hide LastOf, NoneOf, In, TurnedOn;
    LastOrNone(cs, Isolation);
    LastOrNone(cs, LegalWait);
  }

  lemma AskedFits(cs: seq<Setter>, s: Settings)
    requires Asked(cs, s)
    ensures s.snapshotAtNumber <= INT32_MAX <==> NumberFits(cs)
  {
    hide NoneOf, LastOf, TurnedOn, In;
    LastOrNone(cs, Isolation);
    if NoneOf(cs, Isolation) {
      NoneHasNoLast(cs, Isolation);
    } else {
      var k :| LastOf(cs, k, Isolation);
      OneLast(cs, k, Isolation);
      LastInside(cs, k, Isolation);
      if cs[k].Snapshot? {
        NumberOf(cs[k].atNumber);
      }
    }
  }

  lemma LastInside(cs: seq<Setter>, k: int, g: Group)
    requires LastOf(cs, k, g)
    ensures 0 <= k < |cs| && In(cs[k], g)
  {
  }

  lemma NumberOf(n: Int64)
    ensures n % 0x1_0000_0000_0000_0000 <= INT32_MAX <==> 0 <= n <= 2147483647
  {
  }

  lemma OneLast(cs: seq<Setter>, k: int, g: Group)
    requires LastOf(cs, k, g)
    ensures forall m :: LastOf(cs, m, g) ==> m == k
  {
    hide In;
  }

  lemma NoneHasNoLast(cs: seq<Setter>, g: Group)
    requires NoneOf(cs, g)
    ensures forall k :: !LastOf(cs, k, g)
  {
    hide In;
  }

  lemma {:induction false} LastOrNone(cs: seq<Setter>, g: Group)
    ensures NoneOf(cs, g) || exists k :: LastOf(cs, k, g)
  {
    hide In;
    if cs != [] {
      var n := |cs| - 1;
      LastOrNone(cs[..n], g);
      NoneStep(cs, g);
      if In(cs[n], g) {
        assert LastOf(cs, n, g);
      } else if k :| LastOf(cs[..n], k, g) {
        LastStep(cs, k, g);
      }
    }
  }

  /** No sequence of setters leads the buffer into a fatal branch. */
  lemma NoBug(cs: seq<Setter>)
    ensures Bug !in Encode(ApplyAll(Fresh, cs))
  {
    SettersKeepValid(cs);
  }

  /** The buffer tells the server exactly the builder's settings if and only if the snapshot number fits `int`. */
  lemma BuilderIsFaithful(cs: seq<Setter>)
    ensures var s := ApplyAll(Fresh, cs);
            InterpretAll(Fresh, Encode(s)) == s <==> s.snapshotAtNumber <= INT32_MAX
  {
    SettersKeepValid(cs);
    EncodeInterpreted(ApplyAll(Fresh, cs));
  }
}
