/** The converse of the reply parsers' round trips: whatever they accept is an encoding, and they refuse the rest. */
module ReplyConverse {
  import opened MachineTypes
  import opened LittleEndian
  import opened Messages
  import opened InfoReplies

  /* ----- Integers of two and four bytes ----- */

  lemma SignedOfTwo(bs: seq<byte>)
    requires |bs| == 2
    ensures -0x8000 <= Signed(bs) < 0x8000
  {
    Widths();
  }

  lemma SignedOfFour(bs: seq<byte>)
    requires |bs| == 4
    ensures -INT32_MAX - 1 <= Signed(bs) <= INT32_MAX
  {
    Widths();
  }

  lemma BytesOfOctets(bs: seq<byte>)
    ensures Bytes(Octets(bs)) == bs
  {
  }

  /* ----- User lists ----- */

  /** One element of a user list: the name that starts a user, or an attribute. */
  datatype Element = Name(s: PhpString) | Of(a: Attribute)

  function ElementEncoding(e: Element): seq<byte> {
    match e
    case Name(s) => [7] + (LeBytes(2, |s|) + Bytes(s))
    case Of(FirstName(s)) => [10] + (LeBytes(2, |s|) + Bytes(s))
    case Of(MiddleName(s)) => [11] + (LeBytes(2, |s|) + Bytes(s))
    case Of(LastName(s)) => [12] + (LeBytes(2, |s|) + Bytes(s))
    case Of(Admin(n)) => [13] + LeBytes(4, n)
    case Of(UserId(n)) => [5] + LeBytes(4, n)
    case Of(GroupId(n)) => [6] + LeBytes(4, n)
  }

  function ElementsEncoding(es: seq<Element>): seq<byte> {
    if es == [] then [] else ElementEncoding(es[0]) + ElementsEncoding(es[1..])
  }

  /** Lengths fit 16 bits, administrator marks 32; before the first name only numbers that are skipped. */
  ghost predicate Legal(es: seq<Element>, named: bool) {
    es == [] ||
    match es[0]
    case Name(s) => |s| < 0x8000 && Legal(es[1..], true)
    case Of(a) => a.Encodable() && (named || a.UserId? || a.GroupId?) && Legal(es[1..], named)
  }

  /** The users a list of elements stands for, after those already read. */
  function UsersOf(es: seq<Element>, user: Option<UserInfo>, users: seq<UserInfo>): seq<UserInfo>
    decreases |es|
  {
    if es == [] then (if user.Some? then users + [user.value] else users)
    else
      match es[0]
      case Name(s) =>
        var before := if user.Some? then users + [user.value] else users;
        UsersOf(es[1..], Some(UserInfo(Some(s), None, None, None, None)), before)
      case Of(a) => UsersOf(es[1..], if user.Some? then Some(a.ApplyTo(user.value)) else None, users)
  }

  lemma TextElement(rest: seq<byte>, len: nat)
    requires |rest| >= 3 + len && PortableInteger(rest[1..3]) == len
    ensures len < 0x8000
    ensures rest == [rest[0]] + (LeBytes(2, len) + Bytes(Octets(rest[3..3 + len]))) + rest[3 + len..]
  {
    hide LeBytes, Signed, Octets, Bytes;
    SignedOfTwo(rest[1..3]);
    BytesOfSigned(rest[1..3]);
    BytesOfOctets(rest[3..3 + len]);
  }

  lemma NumberElement(rest: seq<byte>)
    requires |rest| >= 5
    ensures rest == [rest[0]] + LeBytes(4, Signed(rest[1..5])) + rest[5..]
    ensures -INT32_MAX - 1 <= Signed(rest[1..5]) <= INT32_MAX
  {
    hide LeBytes, Signed;
    SignedOfFour(rest[1..5]);
    BytesOfSigned(rest[1..5]);
  }

  /** The element the parser reads, if it goes on. */
  lemma ReadIsElement(rest: seq<byte>, user: Option<UserInfo>, users: seq<UserInfo>) returns (e: Element)
    requires ParseElement(rest, user, users).Next?
    ensures var Next(used, u, us) := ParseElement(rest, user, users);
            && rest == ElementEncoding(e) + rest[used..] && Legal([e], user.Some?)
            && (user.Some? || e.Name? <==> u.Some?)
            && forall more :: UsersOf([e] + more, user, users) == UsersOf(more, u, us)
  {
    hide LeBytes, Signed, Octets, Bytes;
    var tag := rest[0];
    if IsTextTag(tag) {
      var len := PortableInteger(rest[1..3]);
      var s := Octets(rest[3..3 + len]);
      TextElement(rest, len);
      e := if tag == 7 then Name(s) else if tag == 10 then Of(FirstName(s))
           else if tag == 11 then Of(MiddleName(s)) else Of(LastName(s));
    } else {
      var n := Signed(rest[1..5]);
      NumberElement(rest);
      e := if tag == 13 then Of(Admin(n)) else if tag == 5 then Of(UserId(n)) else Of(GroupId(n));
    }
    forall more ensures ([e] + more)[0] == e && ([e] + more)[1..] == more {
    }
  }

  lemma LegalStep(e: Element, es: seq<Element>, named: bool)
    requires Legal([e], named) && Legal(es, named || e.Name?)
    ensures Legal([e] + es, named)
    ensures ElementsEncoding([e] + es) == ElementEncoding(e) + ElementsEncoding(es)
  {
    assert ([e] + es)[1..] == es;
  }

  /**
   A user list is accepted only if it is a legal sequence of the known elements closed by the end tag, and
   then the users found are those the elements stand for.
   */
  lemma {:induction false} AcceptedUsers(rest: seq<byte>, user: Option<UserInfo>, users: seq<UserInfo>)
    returns (es: seq<Element>)
    requires ParseUsers(rest, user, users).Ok?
    ensures var (found, unread) := ParseUsers(rest, user, users).value;
            && unread < |rest| && Legal(es, user.Some?)
            && rest == ElementsEncoding(es) + ([1] + rest[|rest| - unread..])
            && found == UsersOf(es, user, users)
    decreases |rest|
  {
    hide ElementEncoding, ElementsEncoding, ParseElement, ParseUsers, UsersOf, Legal;
    NoElements(user);
    ParsingGoesOn(rest, user, users);
    EndIsTag(rest, user, users);
    match ParseElement(rest, user, users) {
      case End(found) =>
        es := [];
        assert rest == [rest[0]] + rest[1..];
      case Next(used, u, us) =>
        var e := ReadIsElement(rest, user, users);
        var more := AcceptedUsers(rest[used..], u, us);
        es := [e] + more;
        OneMoreElement(rest, user, users, e, more);
    }
  }

  lemma OneMoreElement(rest: seq<byte>, user: Option<UserInfo>, users: seq<UserInfo>, e: Element, more: seq<Element>)
    requires ParseElement(rest, user, users).Next? && ParseUsers(rest, user, users).Ok?
    requires var Next(used, u, us) := ParseElement(rest, user, users);
             && used <= |rest| && rest == ElementEncoding(e) + rest[used..]
             && Legal([e], user.Some?) && Legal(more, u.Some?) && (user.Some? || e.Name? <==> u.Some?)
             && UsersOf([e] + more, user, users) == UsersOf(more, u, us)
             && var (found, unread) := ParseUsers(rest, user, users).value;
                && unread < |rest[used..]| && found == UsersOf(more, u, us)
                && rest[used..] == ElementsEncoding(more) + ([1] + rest[used..][|rest[used..]| - unread..])
    ensures var (found, unread) := ParseUsers(rest, user, users).value;
            && unread < |rest| && Legal([e] + more, user.Some?) && found == UsersOf([e] + more, user, users)
            && rest == ElementsEncoding([e] + more) + ([1] + rest[|rest| - unread..])
  {
    hide ElementEncoding, ElementsEncoding, ParseElement, ParseUsers, UsersOf, Legal;
    var used, unread := ParseElement(rest, user, users).used, ParseUsers(rest, user, users).value.1;
    LegalStep(e, more, user.Some?);
    JoinEncodings(rest, used, ElementEncoding(e), ElementsEncoding(more), unread);
  }

  lemma ParsingGoesOn(rest: seq<byte>, user: Option<UserInfo>, users: seq<UserInfo>)
    ensures ParseUsers(rest, user, users) ==
            match ParseElement(rest, user, users)
            case Stop(e) => Err(e)
            case End(found) => Ok((found, |rest| - 1))
            case Next(used, u, us) => ParseUsers(rest[used..], u, us)
  {
  }

  lemma JoinEncodings(rest: seq<byte>, used: nat, one: seq<byte>, more: seq<byte>, unread: nat)
    requires used <= |rest| && rest == one + rest[used..] && unread < |rest[used..]|
    requires rest[used..] == more + ([1] + rest[used..][|rest[used..]| - unread..])
    ensures rest == (one + more) + ([1] + rest[|rest| - unread..])
  {
    assert rest[used..][|rest[used..]| - unread..] == rest[|rest| - unread..];
  }

  lemma NoElements(user: Option<UserInfo>)
    ensures ElementsEncoding([]) == [] && Legal([], user.Some?)
  {
  }

  lemma EndIsTag(rest: seq<byte>, user: Option<UserInfo>, users: seq<UserInfo>)
    ensures ParseElement(rest, user, users).End? ==>
              rest[0] == 1 && ParseElement(rest, user, users).found == UsersOf([], user, users)
  {
  }

  /** Every legal sequence of elements closed by the end tag is accepted, whatever follows. */
  lemma {:induction false} LegalUsersAccepted(es: seq<Element>, tail: seq<byte>, user: Option<UserInfo>,
                                              users: seq<UserInfo>)
    requires Legal(es, user.Some?)
    ensures ParseUsers(ElementsEncoding(es) + ([1] + tail), user, users) == Ok((UsersOf(es, user, users), |tail|))
    decreases |es|
  {
    hide ElementEncoding, ParseElement, ParseUsers;
    var end := [1] + tail;
    if es == [] {
      assert ElementsEncoding(es) + end == end;
      EndRead(tail, user, users);
      ParsingGoesOn(end, user, users);
    } else {
      var more := ElementsEncoding(es[1..]) + end;
      assert ElementsEncoding(es) + end == ElementEncoding(es[0]) + more;
      var u, us := ElementRead(es[0], more, user, users);
      ParsingGoesOn(ElementEncoding(es[0]) + more, user, users);
      LegalUsersAccepted(es[1..], tail, u, us);
    }
  }

  lemma EndRead(tail: seq<byte>, user: Option<UserInfo>, users: seq<UserInfo>)
    ensures ParseElement([1] + tail, user, users) == End(UsersOf([], user, users))
  {
  }

  lemma ElementRead(e: Element, more: seq<byte>, user: Option<UserInfo>, users: seq<UserInfo>)
    returns (u: Option<UserInfo>, us: seq<UserInfo>)
    requires Legal([e], user.Some?)
    ensures ParseElement(ElementEncoding(e) + more, user, users) == Next(|ElementEncoding(e)|, u, us)
    ensures (ElementEncoding(e) + more)[|ElementEncoding(e)|..] == more
    ensures u.Some? <==> user.Some? || e.Name?
    ensures u == match e
                 case Name(s) => Some(UserInfo(Some(s), None, None, None, None))
                 case Of(a) => if user.Some? then Some(a.ApplyTo(user.value)) else None
    ensures us == if e.Name? && user.Some? then users + [user.value] else users
  {
    hide LeBytes, Signed, Octets, Bytes;
    u := match e
         case Name(s) => Some(UserInfo(Some(s), None, None, None, None))
         case Of(a) => if user.Some? then Some(a.ApplyTo(user.value)) else None;
    us := if e.Name? && user.Some? then users + [user.value] else users;
    var all := ElementEncoding(e) + more;
    match e {
      case Name(s) => TextRead(7, s, more);
      case Of(FirstName(s)) => TextRead(10, s, more);
      case Of(MiddleName(s)) => TextRead(11, s, more);
      case Of(LastName(s)) => TextRead(12, s, more);
      case Of(Admin(n)) => NumberRead(13, n, more);
      case Of(UserId(n)) => NumberWidth(5, n, more);
      case Of(GroupId(n)) => NumberWidth(6, n, more);
    }
  }

  lemma TextRead(tag: byte, s: PhpString, more: seq<byte>)
    requires |s| < 0x8000
    ensures var one := [tag] + (LeBytes(2, |s|) + Bytes(s));
            var all := one + more;
            && |one| == 3 + |s| <= |all| && all[0] == tag && PortableInteger(all[1..3]) == |s|
            && Octets(all[3..3 + |s|]) == s && all[3 + |s|..] == more
  {
    hide LeBytes, Signed, Octets, Bytes;
    var all := [tag] + (LeBytes(2, |s|) + Bytes(s)) + more;
    assert all[1..3] == LeBytes(2, |s|) && all[3..3 + |s|] == Bytes(s) && all[3 + |s|..] == more;
    Widths();
    SignedRoundTrip(2, |s|);
  }

  lemma NumberWidth(tag: byte, n: int, more: seq<byte>)
    ensures var all := [tag] + LeBytes(4, n) + more;
            |all| >= 5 && all[0] == tag && all[1..5] == LeBytes(4, n) && all[5..] == more
  {
    hide LeBytes;
  }

  lemma NumberRead(tag: byte, n: int, more: seq<byte>)
    requires -INT32_MAX - 1 <= n <= INT32_MAX
    ensures var all := [tag] + LeBytes(4, n) + more;
            |all| >= 5 && all[0] == tag && PortableInteger(all[1..5]) == n && all[5..] == more
  {
    hide LeBytes, Signed;
    NumberWidth(tag, n, more);
    Widths();
    SignedRoundTrip(4, n);
  }

  /* ----- Counters ----- */

  /** A counter as it stands in a reply: tag and the bytes of its number. */
  datatype Raw = Raw(tag: byte, number: seq<byte>)

  function RawEncoding(rs: seq<Raw>): seq<byte> {
    if rs == [] then [] else [rs[0].tag] + LeBytes(2, |rs[0].number|) + rs[0].number + RawEncoding(rs[1..])
  }

  ghost predicate Known(rs: seq<Raw>) {
    forall i :: 0 <= i < |rs| ==> 13 <= rs[i].tag <= 16 && |rs[i].number| < 0x8000
  }

  /** The numbers of one kind added up; numbers of more than eight bytes count as 0. */
  function RawSum(rs: seq<Raw>, tag: byte): int {
    if rs == [] then 0
    else (if rs[0].tag == tag && |rs[0].number| <= 8 then Signed(rs[0].number) else 0) + RawSum(rs[1..], tag)
  }

  /**
   A counter list is accepted only if it is a sequence of the four known counters closed by the end tag,
   and then each kind grows by the sum of its numbers modulo 2^32.
   */
  lemma {:induction false} AcceptedCounts(rest: seq<byte>, c: Counts) returns (rs: seq<Raw>)
    requires ParseCounts(rest, c).Ok?
    requires 0 <= c.inserts < TWO_32 && 0 <= c.updates < TWO_32 && 0 <= c.deletes < TWO_32 && 0 <= c.selects < TWO_32
    ensures var after := ParseCounts(rest, c).value;
            && Known(rs) && RawEncoding(rs) + [1] <= rest
            && after.selects == (c.selects + RawSum(rs, 13)) % 0x1_0000_0000
            && after.inserts == (c.inserts + RawSum(rs, 14)) % 0x1_0000_0000
            && after.updates == (c.updates + RawSum(rs, 15)) % 0x1_0000_0000
            && after.deletes == (c.deletes + RawSum(rs, 16)) % 0x1_0000_0000
    decreases |rest|
  {
    hide LeBytes, Signed, ParseCount, ParseCounts, AddCount, RawSum, Known;
    CountingGoesOn(rest, c);
    if rest[0] == INFO_END {
      rs := [];
      NoCounters(c);
      assert RawEncoding(rs) + [1] == rest[..1];
    } else {
      hide RawEncoding;
      var (tag, n, used) := ParseCount(rest).value;
      RawCounter(rest);
      var number := rest[3..used];
      CountGrows(c, tag, number, []);
      var more := AcceptedCounts(rest[used..], AddCount(c, tag, n));
      rs := [Raw(tag, number)] + more;
      RawIsPrefix(rest, used, tag, number, more);
      CountGrows(c, tag, number, more);
      OneMoreKnown(tag, number, more);
    }
  }

  lemma CountingGoesOn(rest: seq<byte>, c: Counts)
    requires ParseCounts(rest, c).Ok?
    ensures rest != []
    ensures if rest[0] == INFO_END then ParseCounts(rest, c) == Ok(c)
            else
              && ParseCount(rest).Ok?
              && var (tag, n, used) := ParseCount(rest).value;
                 ParseCounts(rest, c) == ParseCounts(rest[used..], AddCount(c, tag, n))
  {
    hide ParseCount, AddCount;
  }

  lemma NoCounters(c: Counts)
    requires 0 <= c.inserts < TWO_32 && 0 <= c.updates < TWO_32 && 0 <= c.deletes < TWO_32 && 0 <= c.selects < TWO_32
    ensures Known([])
    ensures (c.selects + RawSum([], 13)) % TWO_32 == c.selects && (c.inserts + RawSum([], 14)) % TWO_32 == c.inserts
    ensures (c.updates + RawSum([], 15)) % TWO_32 == c.updates && (c.deletes + RawSum([], 16)) % TWO_32 == c.deletes
  {
  }

  lemma OneMoreKnown(tag: byte, number: seq<byte>, more: seq<Raw>)
    requires Known(more) && 13 <= tag <= 16 && |number| < 0x8000
    ensures Known([Raw(tag, number)] + more)
  {
  }

  lemma RawCounter(rest: seq<byte>)
    requires ParseCount(rest).Ok?
    ensures var (tag, n, used) := ParseCount(rest).value;
            && 3 <= used <= |rest| && used - 3 < 0x8000 && 13 <= tag <= 16
            && rest == [tag] + LeBytes(2, used - 3) + rest[3..used] + rest[used..]
            && n == (if used - 3 <= 8 then Signed(rest[3..used]) else 0) % 0x1_0000_0000
  {
    hide LeBytes, Signed;
    SignedOfTwo(rest[1..3]);
    BytesOfSigned(rest[1..3]);
  }

  lemma RawIsPrefix(rest: seq<byte>, used: nat, tag: byte, number: seq<byte>, more: seq<Raw>)
    requires used <= |rest| && rest == [tag] + LeBytes(2, |number|) + number + rest[used..]
    requires RawEncoding(more) + [1] <= rest[used..]
    ensures RawEncoding([Raw(tag, number)] + more) + [1] <= rest
  {
    hide LeBytes;
    var head := [tag] + LeBytes(2, |number|) + number;
    assert ([Raw(tag, number)] + more)[1..] == more;
    assert RawEncoding([Raw(tag, number)] + more) + [1] == head + (RawEncoding(more) + [1]);
  }

  lemma CountGrows(c: Counts, tag: byte, number: seq<byte>, more: seq<Raw>)
    ensures var n := (if |number| <= 8 then Signed(number) else 0);
            var next, rs := AddCount(c, tag, n % 0x1_0000_0000), [Raw(tag, number)] + more;
            && (13 <= tag <= 16 && 0 <= c.selects < TWO_32 && 0 <= c.inserts < TWO_32
                && 0 <= c.updates < TWO_32 && 0 <= c.deletes < TWO_32 ==>
                  && 0 <= next.selects < TWO_32 && 0 <= next.inserts < TWO_32
                  && 0 <= next.updates < TWO_32 && 0 <= next.deletes < TWO_32
                  && (c.selects + RawSum(rs, 13)) % 0x1_0000_0000 == (next.selects + RawSum(more, 13)) % 0x1_0000_0000
                  && (c.inserts + RawSum(rs, 14)) % 0x1_0000_0000 == (next.inserts + RawSum(more, 14)) % 0x1_0000_0000
                  && (c.updates + RawSum(rs, 15)) % 0x1_0000_0000 == (next.updates + RawSum(more, 15)) % 0x1_0000_0000
                  && (c.deletes + RawSum(rs, 16)) % 0x1_0000_0000 == (next.deletes + RawSum(more, 16)) % 0x1_0000_0000)
  {
    hide Signed, Add32, RawSum;
    var n := if |number| <= 8 then Signed(number) else 0;
    SumStep(tag, number, more, 13);
    SumStep(tag, number, more, 14);
    SumStep(tag, number, more, 15);
    SumStep(tag, number, more, 16);
    GrowsBy(c.selects, n, RawSum(more, 13));
    GrowsBy(c.inserts, n, RawSum(more, 14));
    GrowsBy(c.updates, n, RawSum(more, 15));
    GrowsBy(c.deletes, n, RawSum(more, 16));
  }

  lemma SumStep(tag: byte, number: seq<byte>, more: seq<Raw>, kind: byte)
    ensures RawSum([Raw(tag, number)] + more, kind)
            == (if tag == kind && |number| <= 8 then Signed(number) else 0) + RawSum(more, kind)
  {
    hide Signed;
    assert ([Raw(tag, number)] + more)[1..] == more;
  }

  lemma GrowsBy(a: int, n: int, more: int)
    ensures 0 <= Add32(a, n % 0x1_0000_0000) < 0x1_0000_0000
    ensures (a + (n + more)) % 0x1_0000_0000 == (Add32(a, n % 0x1_0000_0000) + more) % 0x1_0000_0000
  {
    AddReduced(n, a);
    AddReduced(a + n, more);
  }

  /** Every sequence of known counters closed by the end tag is accepted, also with numbers of other widths. */
  lemma {:induction false} KnownCountsAccepted(rs: seq<Raw>, tail: seq<byte>, c: Counts)
    requires Known(rs)
    ensures ParseCounts(RawEncoding(rs) + ([1] + tail), c).Ok?
    decreases |rs|
  {
    hide ParseCount;
    var end := [1] + tail;
    if rs == [] {
      assert RawEncoding(rs) + end == end;
    } else {
      hide RawEncoding;
      var more := RawEncoding(rs[1..]) + end;
      RawSplits(rs, end);
      RawRead(rs[0], more);
      var all := [rs[0].tag] + LeBytes(2, |rs[0].number|) + rs[0].number + more;
      var (tag, n, used) := ParseCount(all).value;
      assert all[used..] == more;
      KnownCountsAccepted(rs[1..], tail, AddCount(c, tag, n));
    }
  }

  lemma RawSplits(rs: seq<Raw>, end: seq<byte>)
    requires rs != []
    ensures RawEncoding(rs) + end
            == [rs[0].tag] + LeBytes(2, |rs[0].number|) + rs[0].number + (RawEncoding(rs[1..]) + end)
  {
    hide LeBytes;
  }

  lemma RawRead(r: Raw, more: seq<byte>)
    requires 13 <= r.tag <= 16 && |r.number| < 0x8000
    ensures var result := ParseCount([r.tag] + LeBytes(2, |r.number|) + r.number + more);
            && result.Ok? && result.value.2 == 3 + |r.number|
            && result.value.1 == (if |r.number| <= 8 then Signed(r.number) else 0) % 0x1_0000_0000
  {
    hide LeBytes, Signed;
    var all := [r.tag] + LeBytes(2, |r.number|) + r.number + more;
    assert all[1..3] == LeBytes(2, |r.number|) && all[3..3 + |r.number|] == r.number;
    Widths();
    SignedRoundTrip(2, |r.number|);
  }
}
