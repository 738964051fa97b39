/**
 Tag-length-value replies: the user list of the service manager and a statement's record counters.
 Tag values are those of the Firebird client header.
 */
module InfoReplies {
  import opened MachineTypes
  import opened LittleEndian
  import opened Messages

  const INFO_END := 1
  const SPB_SEC_USERID := 5
  const SPB_SEC_GROUPID := 6
  const SPB_SEC_USERNAME := 7
  const SPB_SEC_FIRSTNAME := 10
  const SPB_SEC_MIDDLENAME := 11
  const SPB_SEC_LASTNAME := 12
  const SPB_SEC_ADMIN := 13
  const INFO_SVC_GET_USERS := 68

  const INFO_SQL_RECORDS := 23
  const REQ_SELECT_COUNT := 13
  const REQ_INSERT_COUNT := 14
  const REQ_UPDATE_COUNT := 15
  const REQ_DELETE_COUNT := 16

  /** `Overrun` stands for reading outside the reply or through a length C does not define. */
  datatype ReplyError = Overrun | UnknownTag | NoUserYet | WrongReply | ServerError

  /** `isc_portable_integer`, which gives 0 for lengths it does not support. */
  function PortableInteger(bs: seq<byte>): int {
    if |bs| > 8 then 0 else Signed(bs)
  }

  lemma SliceOfTail(s: seq<byte>, p: nat, a: nat, b: nat)
    requires p + b <= |s| && a <= b
    ensures s[p..][a..b] == s[p + a..p + b] && s[p..][b..] == s[p + b..]
  {
  }

  /* ----- Users ----- */

  datatype UserInfo = UserInfo(
    username: Option<PhpString>,
    firstname: Option<PhpString>,
    middlename: Option<PhpString>,
    lastname: Option<PhpString>,
    admin: Option<int>)

  const NewUser := UserInfo(None, None, None, None, None)

  predicate IsTextTag(tag: byte) {
    tag == SPB_SEC_USERNAME || tag == SPB_SEC_FIRSTNAME || tag == SPB_SEC_MIDDLENAME || tag == SPB_SEC_LASTNAME
  }

  function SetText(u: UserInfo, tag: byte, s: PhpString): UserInfo {
    if tag == SPB_SEC_USERNAME then u.(username := Some(s))
    else if tag == SPB_SEC_FIRSTNAME then u.(firstname := Some(s))
    else if tag == SPB_SEC_MIDDLENAME then u.(middlename := Some(s))
    else u.(lastname := Some(s))
  }

  /** One turn of the parser's loop: an end, or `used` bytes read and new values of its variables. */
  datatype Turn =
    | Stop(error: ReplyError)
    | End(found: seq<UserInfo>)
    | Next(used: nat, user: Option<UserInfo>, users: seq<UserInfo>)

  /** The users finished so far when the next user starts or the list ends. */
  function Finished(user: Option<UserInfo>, users: seq<UserInfo>): seq<UserInfo> {
    if user.Some? then users + [user.value] else users
  }

  function ParseElement(rest: seq<byte>, user: Option<UserInfo>, users: seq<UserInfo>): (t: Turn)
    ensures t.Next? ==> 0 < t.used <= |rest|
    ensures t.End? ==> rest != []
  {
    if rest == [] then Stop(Overrun)
    else
      var tag := rest[0];
      var users' := if tag == SPB_SEC_USERNAME then Finished(user, users) else users;
      var user' := if tag == SPB_SEC_USERNAME then Some(NewUser) else user;
      if tag == INFO_END then End(Finished(user, users))
      else if IsTextTag(tag) then
        if |rest| < 3 then Stop(Overrun)
        else
          var len := PortableInteger(rest[1..3]);
          if len < 0 || 3 + len > |rest| then Stop(Overrun)
          else if user' == None then Stop(NoUserYet)
          else Next(3 + len, Some(SetText(user'.value, tag, Octets(rest[3..3 + len]))), users')
      else if tag == SPB_SEC_ADMIN then
        if |rest| < 5 then Stop(Overrun)
        else if user' == None then Stop(NoUserYet)
        else Next(5, Some(user'.value.(admin := Some(PortableInteger(rest[1..5])))), users')
      else if tag == SPB_SEC_USERID || tag == SPB_SEC_GROUPID then
        if |rest| < 5 then Stop(Overrun) else Next(5, user', users')
      else Stop(UnknownTag)
  }

  /** The parser from any point on: the users, and how many bytes of `rest` stay unread. */
  function ParseUsers(rest: seq<byte>, user: Option<UserInfo>, users: seq<UserInfo>)
    : Result<(seq<UserInfo>, nat), ReplyError>
  {
    match ParseElement(rest, user, users)
    case Stop(e) => Err(e)
    case End(found) => Ok((found, |rest| - 1))
    case Next(used, u, us) => ParseUsers(rest[used..], u, us)
  }

  method GetUsers(resp: seq<byte>) returns (r: Result<(seq<UserInfo>, nat), ReplyError>)
    ensures r == if |resp| < 3 then Err(Overrun)
                 else if resp[0] != INFO_SVC_GET_USERS then Err(WrongReply)
                 else ParseUsers(resp[3..], None, [])
  {
    hide ParseElement;
    if |resp| < 3 {
      return Err(Overrun);
    }
    if resp[0] != INFO_SVC_GET_USERS {
      return Err(WrongReply);
    }
    var p := 3;
    var user: Option<UserInfo>, users: seq<UserInfo> := None, [];
    while true
      invariant 3 <= p <= |resp|
      invariant ParseUsers(resp[p..], user, users) == ParseUsers(resp[3..], None, [])
      decreases |resp| - p
    {
      var turn := ReadElement(resp, p, user, users);
      match turn {
        case Stop(e) => return Err(e);
        case End(found) => return Ok((found, |resp| - p - 1));
        case Next(used, u, us) =>
          SliceOfTail(resp, p, 0, used);
          p, user, users := p + used, u, us;
      }
    }
  }

  /** The body of the loop. */
  method ReadElement(resp: seq<byte>, p0: nat, user0: Option<UserInfo>, users0: seq<UserInfo>) returns (t: Turn)
    requires p0 <= |resp|
    ensures t == ParseElement(resp[p0..], user0, users0)
  {
    hide PortableInteger, SetText, Octets;
    var p, user, users := p0, user0, users0;
    if p == |resp| {
      return Stop(Overrun);
    }
    var tag := resp[p];
    p := p + 1;
    if tag == SPB_SEC_USERNAME || tag == INFO_END {
      if user.Some? {
        users := users + [user.value];
      }
    }
    if tag == SPB_SEC_USERNAME {
      user := Some(NewUser);
    }
    if tag == INFO_END {
      return End(users);
    }
    if IsTextTag(tag) {
      if |resp| - p < 2 {
        return Stop(Overrun);
      }
      SliceOfTail(resp, p0, 1, 3);
      var len := PortableInteger(resp[p..p + 2]);
      p := p + 2;
      if len < 0 || len > |resp| - p {
        return Stop(Overrun);
      }
      if user == None {
        return Stop(NoUserYet);
      }
      SliceOfTail(resp, p0, 3, 3 + len);
      user := Some(SetText(user.value, tag, Octets(resp[p..p + len])));
      p := p + len;
    } else if tag == SPB_SEC_ADMIN {
      if |resp| - p < 4 {
        return Stop(Overrun);
      }
      if user == None {
        return Stop(NoUserYet);
      }
      SliceOfTail(resp, p0, 1, 5);
      user := Some(user.value.(admin := Some(PortableInteger(resp[p..p + 4]))));
      p := p + 4;
    } else if tag == SPB_SEC_USERID || tag == SPB_SEC_GROUPID {
      if |resp| - p < 4 {
        return Stop(Overrun);
      }
      p := p + 4;
    } else {
      return Stop(UnknownTag);
    }
    t := Next(p - p0, user, users);
  }

  /** What the server sends about a user after the name: attributes in any order, later ones overriding. */
  datatype Attribute =
    | FirstName(s: PhpString)
    | MiddleName(s: PhpString)
    | LastName(s: PhpString)
    | Admin(n: int)
    | UserId(n: int)
    | GroupId(n: int)
  {
    predicate Encodable() {
      match this
      case FirstName(s) => |s| < 0x8000
      case MiddleName(s) => |s| < 0x8000
      case LastName(s) => |s| < 0x8000
      case Admin(n) => -INT32_MAX - 1 <= n <= INT32_MAX
      case _ => true
    }

    function Encoding(): seq<byte> {
      match this
      case FirstName(s) => TextEncoding(SPB_SEC_FIRSTNAME, s)
      case MiddleName(s) => TextEncoding(SPB_SEC_MIDDLENAME, s)
      case LastName(s) => TextEncoding(SPB_SEC_LASTNAME, s)
      case Admin(n) => [SPB_SEC_ADMIN] + LeBytes(4, n)
      case UserId(n) => [SPB_SEC_USERID] + LeBytes(4, n)
      case GroupId(n) => [SPB_SEC_GROUPID] + LeBytes(4, n)
    }

    function ApplyTo(u: UserInfo): UserInfo {
      match this
      case FirstName(s) => u.(firstname := Some(s))
      case MiddleName(s) => u.(middlename := Some(s))
      case LastName(s) => u.(lastname := Some(s))
      case Admin(n) => u.(admin := Some(n))
      case _ => u
    }
  }

  datatype UserRecord = UserRecord(name: PhpString, attributes: seq<Attribute>)

  function TextEncoding(tag: byte, s: PhpString): seq<byte> {
    [tag] + (LeBytes(2, |s|) + Bytes(s))
  }

  function AttributesEncoding(attrs: seq<Attribute>): seq<byte> {
    if attrs == [] then [] else attrs[0].Encoding() + AttributesEncoding(attrs[1..])
  }

  function UsersEncoding(us: seq<UserRecord>): seq<byte> {
    if us == [] then []
    else TextEncoding(SPB_SEC_USERNAME, us[0].name) + (AttributesEncoding(us[0].attributes) + UsersEncoding(us[1..]))
  }

  function ApplyAll(u: UserInfo, attrs: seq<Attribute>): UserInfo
    decreases |attrs|
  {
    if attrs == [] then u else ApplyAll(attrs[0].ApplyTo(u), attrs[1..])
  }

  /** The user information a record stands for. */
  function Meaning(u: UserRecord): UserInfo {
    ApplyAll(NewUser.(username := Some(u.name)), u.attributes)
  }

  function Meanings(us: seq<UserRecord>): seq<UserInfo> {
    seq(|us|, i requires 0 <= i < |us| => Meaning(us[i]))
  }

  ghost predicate Encodable(us: seq<UserRecord>) {
    forall i :: 0 <= i < |us| ==>
      |us[i].name| < 0x8000 && forall a :: a in us[i].attributes ==> a.Encodable()
  }

  /** A text element is read whole, whatever follows. */
  lemma ParseText(tag: byte, s: PhpString, rest: seq<byte>, user: Option<UserInfo>, users: seq<UserInfo>)
    requires IsTextTag(tag) && |s| < 0x8000
    requires tag != SPB_SEC_USERNAME ==> user.Some?
    ensures ParseUsers(TextEncoding(tag, s) + rest, user, users) ==
            if tag == SPB_SEC_USERNAME then
              ParseUsers(rest, Some(NewUser.(username := Some(s))), Finished(user, users))
            else ParseUsers(rest, Some(SetText(user.value, tag, s)), users)
  {
    hide LeBytes, Signed, Octets, Bytes;
    var all := TextEncoding(tag, s) + rest;
    var head, body := LeBytes(2, |s|), Bytes(s);
    assert all == [tag] + head + body + rest;
    assert all[1..3] == head && all[3..3 + |s|] == body && all[3 + |s|..] == rest;
    Widths();
    SignedRoundTrip(2, |s|);
  }

  lemma ParseNumber(tag: byte, n: int, rest: seq<byte>, user: UserInfo, users: seq<UserInfo>)
    requires tag == SPB_SEC_ADMIN || tag == SPB_SEC_USERID || tag == SPB_SEC_GROUPID
    requires tag == SPB_SEC_ADMIN ==> -INT32_MAX - 1 <= n <= INT32_MAX
    ensures ParseUsers([tag] + LeBytes(4, n) + rest, Some(user), users) ==
            ParseUsers(rest, Some(if tag == SPB_SEC_ADMIN then user.(admin := Some(n)) else user), users)
  {
    hide LeBytes, Signed, Octets, Bytes;
    var all := [tag] + LeBytes(4, n) + rest;
    assert all[1..5] == LeBytes(4, n) && all[5..] == rest;
    if tag == SPB_SEC_ADMIN {
      Widths();
      SignedRoundTrip(4, n);
    }
  }

  lemma ParseAttribute(a: Attribute, rest: seq<byte>, user: UserInfo, users: seq<UserInfo>)
    requires a.Encodable()
    ensures ParseUsers(a.Encoding() + rest, Some(user), users) == ParseUsers(rest, Some(a.ApplyTo(user)), users)
  {
    hide ParseUsers, LeBytes, TextEncoding;
    match a {
      case FirstName(s) => ParseText(SPB_SEC_FIRSTNAME, s, rest, Some(user), users);
      case MiddleName(s) => ParseText(SPB_SEC_MIDDLENAME, s, rest, Some(user), users);
      case LastName(s) => ParseText(SPB_SEC_LASTNAME, s, rest, Some(user), users);
      case Admin(n) => ParseNumber(SPB_SEC_ADMIN, n, rest, user, users);
      case UserId(n) => ParseNumber(SPB_SEC_USERID, n, rest, user, users);
      case GroupId(n) => ParseNumber(SPB_SEC_GROUPID, n, rest, user, users);
    }
  }

  lemma {:induction false} ParseAttributes(attrs: seq<Attribute>, rest: seq<byte>, user: UserInfo, users: seq<UserInfo>)
    requires forall a :: a in attrs ==> a.Encodable()
    ensures ParseUsers(AttributesEncoding(attrs) + rest, Some(user), users)
            == ParseUsers(rest, Some(ApplyAll(user, attrs)), users)
    decreases |attrs|
  {
    hide ParseUsers;
    if attrs == [] {
      assert AttributesEncoding(attrs) + rest == rest;
    } else {
      var more := AttributesEncoding(attrs[1..]);
      assert AttributesEncoding(attrs) + rest == attrs[0].Encoding() + (more + rest);
      ParseAttribute(attrs[0], more + rest, user, users);
      ParseAttributes(attrs[1..], rest, attrs[0].ApplyTo(user), users);
    }
  }

  /** The parser inverts the encoding of any list of users, in order, and stops right after the end tag. */
  lemma {:induction false} ParseEncodedUsers(us: seq<UserRecord>, rest: seq<byte>, user: Option<UserInfo>,
                                             users: seq<UserInfo>)
    requires Encodable(us)
    ensures ParseUsers(UsersEncoding(us) + ([INFO_END] + rest), user, users)
            == Ok((Finished(user, users) + Meanings(us), |rest|))
    decreases |us|
  {
    var end := [INFO_END] + rest;
    hide ParseUsers, TextEncoding, Meaning, AttributesEncoding, Finished;
    if us == [] {
      assert UsersEncoding(us) + end == end;
      assert Finished(user, users) + Meanings(us) == Finished(user, users);
      ParseEnd(rest, user, users);
    } else {
      var u, later, done := us[0], UsersEncoding(us[1..]), Finished(user, users);
      var attributes := AttributesEncoding(u.attributes);
      Regroup(TextEncoding(SPB_SEC_USERNAME, u.name), attributes, later, end);
      ParseText(SPB_SEC_USERNAME, u.name, attributes + (later + end), user, users);
      ParseAttributes(u.attributes, later + end, NewUser.(username := Some(u.name)), done);
      assert Meaning(u) == ApplyAll(NewUser.(username := Some(u.name)), u.attributes) by {
        MeaningIs(u);
      }
      ParseEncodedUsers(us[1..], rest, Some(Meaning(u)), done);
      FinishedIs(Meaning(u), done);
      assert done + [Meaning(u)] + Meanings(us[1..]) == done + Meanings(us);
    }
  }

  lemma Regroup(a: seq<byte>, b: seq<byte>, c: seq<byte>, d: seq<byte>)
    ensures (a + (b + c)) + d == a + (b + (c + d))
  {
  }

  lemma ParseEnd(rest: seq<byte>, user: Option<UserInfo>, users: seq<UserInfo>)
    ensures ParseUsers([INFO_END] + rest, user, users) == Ok((Finished(user, users), |rest|))
  {
  }

  lemma FinishedIs(u: UserInfo, users: seq<UserInfo>)
    ensures Finished(Some(u), users) == users + [u]
  {
  }

  lemma MeaningIs(u: UserRecord)
    ensures Meaning(u) == ApplyAll(NewUser.(username := Some(u.name)), u.attributes)
  {
  }

  /** The whole reply: tag, two length bytes, the users, the end tag, and whatever follows. */
  lemma UsersRoundTrip(us: seq<UserRecord>, length: seq<byte>, rest: seq<byte>)
    requires Encodable(us) && |length| == 2
    ensures var resp := [INFO_SVC_GET_USERS] + length + UsersEncoding(us) + ([INFO_END] + rest);
            && |resp| >= 3 && resp[0] == INFO_SVC_GET_USERS
            && ParseUsers(resp[3..], None, []) == Ok((Meanings(us), |rest|))
  {
    hide ParseUsers, UsersEncoding, Meanings;
    var resp := [INFO_SVC_GET_USERS] + length + UsersEncoding(us) + ([INFO_END] + rest);
    assert resp[3..] == UsersEncoding(us) + ([INFO_END] + rest);
    ParseEncodedUsers(us, rest, None, []);
    assert [] + Meanings(us) == Meanings(us);
  }

  /* ----- Record counters ----- */

  datatype Counts = Counts(inserts: int, updates: int, deletes: int, selects: int)

  function Add32(a: int, b: int): int {
    (a + b) % 0x1_0000_0000
  }

  predicate IsCountTag(tag: byte) {
    tag == REQ_INSERT_COUNT || tag == REQ_UPDATE_COUNT || tag == REQ_DELETE_COUNT || tag == REQ_SELECT_COUNT
  }

  function AddCount(c: Counts, tag: byte, n: int): Counts {
    if tag == REQ_INSERT_COUNT then c.(inserts := Add32(c.inserts, n))
    else if tag == REQ_UPDATE_COUNT then c.(updates := Add32(c.updates, n))
    else if tag == REQ_DELETE_COUNT then c.(deletes := Add32(c.deletes, n))
    else c.(selects := Add32(c.selects, n))
  }

  /** One counter at the front of `rest`: its tag, its value in 32 bits, the bytes used. */
  function ParseCount(rest: seq<byte>): (r: Result<(byte, int, nat), ReplyError>)
    ensures r.Ok? ==> 0 < r.value.2 <= |rest|
  {
    if |rest| < 3 then Err(Overrun)
    else
      var len := PortableInteger(rest[1..3]);
      if len < 0 || 3 + len > |rest| then Err(Overrun)
      else if !IsCountTag(rest[0]) then Err(UnknownTag)
      else Ok((rest[0], PortableInteger(rest[3..3 + len]) % 0x1_0000_0000, 3 + len))
  }

  function ParseCounts(rest: seq<byte>, c: Counts): Result<Counts, ReplyError> {
    if rest == [] then Err(Overrun)
    else if rest[0] == INFO_END then Ok(c)
    else
      match ParseCount(rest)
      case Err(e) => Err(e)
      case Ok((tag, n, used)) => ParseCounts(rest[used..], AddCount(c, tag, n))
  }

  method ReadCount(resp: seq<byte>, p: nat) returns (r: Result<(byte, int, nat), ReplyError>)
    requires p < |resp|
    ensures r == ParseCount(resp[p..])
  {
    hide PortableInteger;
    if |resp| - p < 3 {
      return Err(Overrun);
    }
    SliceOfTail(resp, p, 1, 3);
    var len := PortableInteger(resp[p + 1..p + 3]);
    if len < 0 || len > |resp| - p - 3 {
      return Err(Overrun);
    }
    if !IsCountTag(resp[p]) {
      return Err(UnknownTag);
    }
    SliceOfTail(resp, p, 3, 3 + len);
    r := Ok((resp[p], PortableInteger(resp[p + 3..p + 3 + len]) % 0x1_0000_0000, 3 + len));
  }

  /** The counters of a whole reply. */
  function Statistics(resp: seq<byte>): Result<Counts, ReplyError>
    requires |resp| >= 3
  {
    ParseCounts(if resp[0] == INFO_SQL_RECORDS then resp[3..] else resp, Counts(0, 0, 0, 0))
  }

  /** What the statement shows as affected. */
  function Affected(c: Counts): int {
    (c.inserts + c.updates + c.deletes) % TWO_32
  }

  /** The statement's counters after an execute. */
  class StatementInfo {
    var insertCount: int
    var updateCount: int
    var deleteCount: int
    var selectCount: int
    var affectedCount: int

    /** The reply fills a buffer of 64 bytes. If the call fails the counters are already cleared. */
    method QueryStatistics(resp: seq<byte>, serverOk: bool) returns (r: Result<(), ReplyError>)
      requires |resp| == 64
      modifies this
      ensures !serverOk ==>
                && r == Err(ServerError) && affectedCount == 0
                && Counts(insertCount, updateCount, deleteCount, selectCount) == Counts(0, 0, 0, 0)
      ensures serverOk ==>
              match Statistics(resp)
              case Err(e) => r == Err(e) && affectedCount == 0
              case Ok(c) =>
                && r == Ok(()) && Counts(insertCount, updateCount, deleteCount, selectCount) == c
                && affectedCount == Affected(c)
    {
      hide ParseCount, Add32;
      insertCount, updateCount, deleteCount, selectCount, affectedCount := 0, 0, 0, 0, 0;
      if !serverOk {
        return Err(ServerError);
      }
      var p := 0;
      if resp[0] == INFO_SQL_RECORDS {
        p := 3;
      }
      ghost var start := resp[p..];
      while p < |resp| && resp[p] != INFO_END
        invariant p <= |resp| && affectedCount == 0
        invariant ParseCounts(resp[p..], Counts(insertCount, updateCount, deleteCount, selectCount))
               == ParseCounts(start, Counts(0, 0, 0, 0))
      {
        var item := ReadCount(resp, p);
        if item.Err? {
          return Err(item.error);
        }
        var (tag, count, used) := item.value;
        SliceOfTail(resp, p, 0, used);
        p := p + used;
        if tag == REQ_INSERT_COUNT {
          insertCount := Add32(insertCount, count);
        } else if tag == REQ_UPDATE_COUNT {
          updateCount := Add32(updateCount, count);
        } else if tag == REQ_DELETE_COUNT {
          deleteCount := Add32(deleteCount, count);
        } else {
          selectCount := Add32(selectCount, count);
        }
      }
      if p == |resp| {
        return Err(Overrun);
      }
      AddThree(insertCount, updateCount, deleteCount);
      affectedCount := Add32(Add32(insertCount, updateCount), deleteCount);
      r := Ok(());
    }
  }

  /** One counter as the server writes it: a tag, the width, and the number in that many bytes. */
  datatype Counter = Counter(tag: byte, width: nat, n: nat) {
    predicate Valid() {
      IsCountTag(tag) && 4 <= width <= 8
    }

    function Encoding(): seq<byte> {
      [tag] + LeBytes(2, width) + LeBytes(width, n)
    }
  }

  function CountersEncoding(cs: seq<Counter>): seq<byte> {
    if cs == [] then [] else cs[0].Encoding() + CountersEncoding(cs[1..])
  }

  /** The plain sum of the counters of one kind. */
  function SumOf(cs: seq<Counter>, tag: byte): nat {
    if cs == [] then 0 else (if cs[0].tag == tag then cs[0].n else 0) + SumOf(cs[1..], tag)
  }

  function AddAll(c: Counts, cs: seq<Counter>): Counts {
    Counts(
      Add32(c.inserts, SumOf(cs, REQ_INSERT_COUNT)),
      Add32(c.updates, SumOf(cs, REQ_UPDATE_COUNT)),
      Add32(c.deletes, SumOf(cs, REQ_DELETE_COUNT)),
      Add32(c.selects, SumOf(cs, REQ_SELECT_COUNT)))
  }

  lemma DropMultiple32(x: int, q: int)
    ensures (x + 0x1_0000_0000 * q) % 0x1_0000_0000 == x % 0x1_0000_0000
  {
    var r := x / 0x1_0000_0000;
    assert x == x % 0x1_0000_0000 + 0x1_0000_0000 * r;
    assert x + 0x1_0000_0000 * q == x % 0x1_0000_0000 + 0x1_0000_0000 * (r + q);
  }

  /** Reducing a summand early does not change the sum modulo 2^32. */
  lemma AddReduced(x: int, c: int)
    ensures Add32(x % 0x1_0000_0000, c) == Add32(x, c) && Add32(c, x % 0x1_0000_0000) == Add32(c, x)
  {
    var q := x / 0x1_0000_0000;
    assert x == x % 0x1_0000_0000 + 0x1_0000_0000 * q;
    DropMultiple32(x % 0x1_0000_0000 + c, q);
  }

  lemma AddAgain(a: int, b: int, c: int)
    ensures Add32(Add32(a, b % 0x1_0000_0000), c) == Add32(a, b + c)
  {
    AddReduced(b, a);
    AddReduced(a + b, c);
  }

  lemma AddThree(a: int, b: int, c: int)
    ensures Add32(Add32(a, b), c) == (a + b + c) % 0x1_0000_0000
  {
    AddReduced(a + b, c);
  }

  /** Four bytes or more give the number back modulo 2^32, whatever their top bit says. */
  lemma CountRead(width: nat, n: nat)
    requires 4 <= width <= 8
    ensures PortableInteger(LeBytes(width, n)) % 0x1_0000_0000 == n % 0x1_0000_0000
  {
    hide LeBytes, Unsigned, Shift;
    UnsignedOfBytes(width, n);
    Widths();
    var f, k := Pow256(width - 4), Shift(width, n);
    Pow256Add(4, width - 4);
    MulAssoc(f, k);
    MulAssoc(f, k + 1);
    var r := PortableInteger(LeBytes(width, n));
    assert n == r + 0x1_0000_0000 * (f * k) || n == r + 0x1_0000_0000 * (f * (k + 1));
    DropMultiple32(r, f * k);
    DropMultiple32(r, f * (k + 1));
  }

  lemma MulAssoc(f: int, k: int)
    ensures 0x1_0000_0000 * f * k == 0x1_0000_0000 * (f * k)
    ensures f * (k + 1) == f * k + f
  {
  }

  lemma {:induction false} Pow256Add(a: nat, b: nat)
    ensures Pow256(a + b) == Pow256(a) * Pow256(b)
  {
    if a != 0 {
      Pow256Add(a - 1, b);
    }
  }

  lemma ParseCounter(x: Counter, rest: seq<byte>, c: Counts)
    requires x.Valid()
    ensures ParseCounts(x.Encoding() + rest, c) == ParseCounts(rest, AddCount(c, x.tag, x.n % 0x1_0000_0000))
  {
    hide LeBytes, PortableInteger, AddCount;
    var all := x.Encoding() + rest;
    assert all[1..3] == LeBytes(2, x.width);
    assert all[3..3 + x.width] == LeBytes(x.width, x.n) && all[3 + x.width..] == rest;
    WidthRead(x.width);
    CountRead(x.width, x.n);
  }

  lemma WidthRead(width: nat)
    requires width <= 8
    ensures PortableInteger(LeBytes(2, width)) == width
  {
    Widths();
    SignedRoundTrip(2, width);
  }

  /** A well-formed counter list yields, per kind, the sum of its counters modulo 2^32. */
  lemma {:induction false} ParseEncodedCounts(cs: seq<Counter>, rest: seq<byte>, c: Counts)
    requires forall i :: 0 <= i < |cs| ==> cs[i].Valid()
    requires 0 <= c.inserts < TWO_32 && 0 <= c.updates < TWO_32 && 0 <= c.deletes < TWO_32 && 0 <= c.selects < TWO_32
    ensures ParseCounts(CountersEncoding(cs) + ([INFO_END] + rest), c) == Ok(AddAll(c, cs))
    decreases |cs|
  {
    var end := [INFO_END] + rest;
    if cs == [] {
      assert CountersEncoding(cs) + end == end;
    } else {
      hide ParseCounts;
      var x, more := cs[0], CountersEncoding(cs[1..]);
      var next := AddCount(c, x.tag, x.n % 0x1_0000_0000);
      assert CountersEncoding(cs) + end == x.Encoding() + (more + end);
      ParseCounter(x, more + end, c);
      ParseEncodedCounts(cs[1..], rest, next);
      AddFirst(c, cs);
    }
  }

  lemma AddFirst(c: Counts, cs: seq<Counter>)
    requires cs != [] && cs[0].Valid()
    ensures AddAll(AddCount(c, cs[0].tag, cs[0].n % 0x1_0000_0000), cs[1..]) == AddAll(c, cs)
  {
    hide Add32;
    var x, n := cs[0], cs[0].n;
    AddAgain(c.inserts, n, SumOf(cs[1..], REQ_INSERT_COUNT));
    AddAgain(c.updates, n, SumOf(cs[1..], REQ_UPDATE_COUNT));
    AddAgain(c.deletes, n, SumOf(cs[1..], REQ_DELETE_COUNT));
    AddAgain(c.selects, n, SumOf(cs[1..], REQ_SELECT_COUNT));
  }

  /**
   The whole reply: tag, two length bytes, the counters in any order, the end tag, and whatever follows.
   Each kind is summed modulo 2^32, and so is what the statement shows as affected.
   */
  lemma StatisticsRoundTrip(cs: seq<Counter>, length: seq<byte>, rest: seq<byte>)
    requires |length| == 2 && forall i :: 0 <= i < |cs| ==> cs[i].Valid()
    ensures var resp := [INFO_SQL_RECORDS] + length + CountersEncoding(cs) + ([INFO_END] + rest);
            var inserts, updates, deletes, selects :=
              SumOf(cs, REQ_INSERT_COUNT), SumOf(cs, REQ_UPDATE_COUNT),
              SumOf(cs, REQ_DELETE_COUNT), SumOf(cs, REQ_SELECT_COUNT);
            && Statistics(resp) == Ok(Counts(inserts % TWO_32, updates % TWO_32, deletes % TWO_32, selects % TWO_32))
            && Affected(Statistics(resp).value) == (inserts + updates + deletes) % TWO_32
  {
    hide ParseCounts, SumOf, CountersEncoding, Statistics, AddAll, Affected, Add32;
    RecordsReply(cs, length, rest);
    ParseEncodedCounts(cs, rest, Counts(0, 0, 0, 0));
    FromZero(cs);
  }

  lemma RecordsReply(cs: seq<Counter>, length: seq<byte>, rest: seq<byte>)
    requires |length| == 2
    ensures Statistics([INFO_SQL_RECORDS] + length + CountersEncoding(cs) + ([INFO_END] + rest))
            == ParseCounts(CountersEncoding(cs) + ([INFO_END] + rest), Counts(0, 0, 0, 0))
  {
    hide ParseCounts, CountersEncoding;
    var resp := [INFO_SQL_RECORDS] + length + CountersEncoding(cs) + ([INFO_END] + rest);
    assert resp[0] == INFO_SQL_RECORDS && resp[3..] == CountersEncoding(cs) + ([INFO_END] + rest);
  }

  /** Counters that start at 0 end at the sums, and the affected count is the sum of three of them. */
  lemma FromZero(cs: seq<Counter>)
    ensures var c := AddAll(Counts(0, 0, 0, 0), cs);
            var inserts, updates := SumOf(cs, REQ_INSERT_COUNT), SumOf(cs, REQ_UPDATE_COUNT);
            var deletes := SumOf(cs, REQ_DELETE_COUNT);
            && c == Counts(inserts % TWO_32, updates % TWO_32, deletes % TWO_32, SumOf(cs, REQ_SELECT_COUNT) % TWO_32)
            && Affected(c) == (inserts + updates + deletes) % TWO_32
  {
    hide SumOf;
    SumReduced(SumOf(cs, REQ_INSERT_COUNT), SumOf(cs, REQ_UPDATE_COUNT), SumOf(cs, REQ_DELETE_COUNT));
  }

  lemma SumReduced(a: int, b: int, c: int)
    ensures (a % TWO_32 + b % TWO_32 + c % TWO_32) % TWO_32 == (a + b + c) % TWO_32
  {
    AddReduced(a, b % TWO_32 + c % TWO_32);
    AddReduced(b, a + c % TWO_32);
    AddReduced(c, a + b);
  }
}
