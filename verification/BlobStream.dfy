/**
 Blob objects: the client's copy of position and length against the server's stream, and the
 two whole-string helpers of a transaction. Server calls are told to fail by a parameter.
 */
module BlobStream {
  import opened MachineTypes

  type BlobId = n: int | 0 <= n < TWO_64

  datatype BlobError = InvalidPointer | ReadFromWritable | WriteToReadOnly | ServerError | AllocationFailed

  /**
   The server's side of an open blob. It returns as much as it has, clamps seeks to the data, and refuses
   to read from a blob being created and to write to another.
   */
  datatype Stream = Stream(id: BlobId, data: PhpString, at: nat, created: bool) {
    predicate Valid() {
      at <= |data|
    }

    /** Where a seek lands: mode 1 counts from the current place, mode 2 from the end. */
    function Target(mode: int, offset: int): (t: nat)
      ensures t <= |data|
    {
      var base := if mode == 1 then at else if mode == 2 then |data| else 0;
      var t := base + offset;
      if t < 0 then 0 else if t > |data| then |data| else t
    }
  }

  /** Blobs closed so far, by identifier. */
  class BlobServer {
    var stored: map<BlobId, PhpString>

    constructor ()
      ensures stored == map[]
    {
      stored := map[];
    }
  }

  /** How many bytes one get asks for. */
  function ReadLength(maxLen: int, remaining: int): int {
    if maxLen <= 0 || maxLen > remaining then ToInt32(remaining) else maxLen
  }

  /** The server's blobs after an open one is closed. */
  function AfterClose(stored: map<BlobId, PhpString>, s: Stream): map<BlobId, PhpString> {
    if s.created then stored[s.id := s.data] else stored
  }

  class Blob {
    var blob: Option<Stream>
    var id: BlobId
    var totalLength: int
    var position: int
    var isWritable: bool

    constructor ()
      ensures blob == None && totalLength == 0 && position == 0 && !isWritable
    {
      blob := None;
      id := 0;
      totalLength, position := 0, 0;
      isWritable := false;
    }

    /** Open for reading, with the length the server reported and the place both sides agree on. */
    ghost predicate Opened()
      reads this
    {
      && blob.Some? && !isWritable && blob.value.Valid() && !blob.value.created
      && totalLength == ToInt32(|blob.value.data|)
      && position == blob.value.at
      && (position == 0 || position <= totalLength)
    }

    /** Open for writing: position and length count the bytes put, in 32 bits. */
    ghost predicate Created()
      reads this
    {
      && blob.Some? && isWritable && blob.value.created && blob.value.at == |blob.value.data|
      && position == totalLength == ToInt32(|blob.value.data|)
      && id == blob.value.id
    }

    /**
     The server picks the identifier, or fails. If the information call after that fails, the blob is
     open and its identifier known, but the object is not writable.
     */
    method Create(newId: Option<BlobId>, infoOk: bool) returns (r: Result<BlobId, BlobError>)
      modifies this
      ensures r == if newId.Some? && infoOk then Ok(newId.value) else Err(ServerError)
      ensures newId == None ==> unchanged(this)
      ensures newId.Some? ==>
                && blob == Some(Stream(newId.value, [], 0, true)) && id == newId.value && position == old(position)
                && (infoOk ==> isWritable && totalLength == 0 && (Created() <==> old(position) == 0))
                && (!infoOk ==> isWritable == old(isWritable) && totalLength == old(totalLength))
    {
      if newId == None {
        return Err(ServerError);
      }
      blob := Some(Stream(newId.value, [], 0, true));
      id := newId.value;
      if !infoOk {
        return Err(ServerError);
      }
      totalLength := 0;
      isWritable := true;
      r := Ok(id);
    }

    /**
     The position survives an earlier use of the object, so both sides agree only if it was 0. A failing
     information call leaves the blob open under the old identifier and bookkeeping.
     */
    method Open(server: BlobServer, blobId: BlobId, infoOk: bool) returns (r: Result<(), BlobError>)
      modifies this
      ensures r == if blobId in server.stored && infoOk then Ok(()) else Err(ServerError)
      ensures blobId !in server.stored ==> unchanged(this)
      ensures blobId in server.stored ==>
                && blob == Some(Stream(blobId, server.stored[blobId], 0, false)) && position == old(position)
                && (infoOk ==> id == blobId && !isWritable && totalLength == ToInt32(|server.stored[blobId]|)
                               && (Opened() <==> old(position) == 0))
                && (!infoOk ==> id == old(id) && isWritable == old(isWritable) && totalLength == old(totalLength))
    {
      if blobId !in server.stored {
        return Err(ServerError);
      }
      blob := Some(Stream(blobId, server.stored[blobId], 0, false));
      if !infoOk {
        return Err(ServerError);
      }
      totalLength := ToInt32(|server.stored[blobId]|);
      id := blobId;
      isWritable := false;
      r := Ok(());
    }

    /**
     The string returned has the length asked for. If the server has less, which needs a position out of
     step with it, the rest of the string is whatever memory held.
     */
    method GetContents(maxLen: Int32, serverOk: bool) returns (r: Result<PhpString, BlobError>)
      requires blob.Some? ==> blob.value.Valid()
      modifies this
      ensures r.Err? ==> unchanged(this)
      ensures isWritable == old(isWritable) && totalLength == old(totalLength) && id == old(id)
      ensures var m := ReadLength(maxLen, old(totalLength) - old(position));
              && (r == Err(ReadFromWritable) <==> old(isWritable))
              && (r == Err(AllocationFailed) <==> !old(isWritable) && m < 0)
              && (r == Err(InvalidPointer) <==> !old(isWritable) && m >= 0 && old(blob) == None)
              && (r.Ok? <==> !old(isWritable) && m >= 0 && old(blob).Some? && serverOk && !old(blob).value.created)
              && (r.Ok? ==>
                    var s := old(blob.value);
                    var n := if m <= |s.data| - s.at then m else |s.data| - s.at;
                    && |r.value| == m && r.value[..n] == s.data[s.at..s.at + n]
                    && blob == Some(s.(at := s.at + n)) && position == ToInt32(old(position) + n))
      ensures var remaining := old(totalLength) - old(position);
              && (r.Ok? && 0 < maxLen <= remaining ==> |r.value| == maxLen)
              && (r.Ok? && (maxLen <= 0 || maxLen > remaining) && 0 <= remaining < 0x8000_0000 ==>
                    |r.value| == remaining)
      ensures old(Opened()) ==>
                var s := old(blob.value);
                var m := ReadLength(maxLen, ToInt32(|s.data|) - s.at);
                if m < 0 then r == Err(AllocationFailed)
                else if !serverOk then r == Err(ServerError)
                else s.at + m <= |s.data| && r == Ok(s.data[s.at..s.at + m])
                     && blob == Some(s.(at := s.at + m)) && Opened()
                     && (|s.data| <= INT32_MAX ==> s.at + m == PlaceAfter(s, ReadCall.Get(maxLen)))
    {
      hide ToInt32, ReadLength;
      if isWritable {
        return Err(ReadFromWritable);
      }
      var max := ReadLength(maxLen, totalLength - position);
      ReadLengthIs(maxLen, totalLength - position);
      if max < 0 {
        return Err(AllocationFailed);
      }
      if blob == None {
        return Err(InvalidPointer);
      }
      var s := blob.value;
      if !serverOk || s.created {
        return Err(ServerError);
      }
      var text := new Octet[max];
      var len := if max <= |s.data| - s.at then max else |s.data| - s.at;
      forall i | 0 <= i < len {
        text[i] := s.data[s.at + i];
      }
      assert text[..len] == s.data[s.at..s.at + len];
      r := Ok(text[..]);
      blob := Some(s.(at := s.at + len));
      position := ToInt32(position + len);
      if old(Opened()) {
        ReportedLength(|s.data|);
        ReadFits(totalLength, old(position), maxLen);
        FitsInt32(old(position) + len);
        FitsInt32(maxLen);
        assert len == max && text[..] == text[..len];
      }
    }

    method PutContents(buf: PhpString, bufSize: int, serverOk: bool) returns (r: Result<(), BlobError>)
      requires 0 <= bufSize <= |buf|
      modifies this
      ensures r.Err? ==> unchanged(this)
      ensures r == if !old(isWritable) then Err(WriteToReadOnly)
                   else if old(blob) == None then Err(InvalidPointer)
                   else if serverOk && old(blob).value.created then Ok(()) else Err(ServerError)
      ensures r.Ok? ==>
                var s := old(blob.value);
                && blob == Some(s.(data := s.data + buf[..bufSize], at := s.at + bufSize))
                && position == ToInt32(old(position) + bufSize) && totalLength == ToInt32(old(totalLength) + bufSize)
                && id == old(id) && isWritable == old(isWritable)
                && (old(Created()) ==> Created())
    {
      if !isWritable {
        return Err(WriteToReadOnly);
      }
      if blob == None {
        return Err(InvalidPointer);
      }
      var s := blob.value;
      if !serverOk || !s.created {
        return Err(ServerError);
      }
      blob := Some(s.(data := s.data + buf[..bufSize], at := s.at + bufSize));
      AddInt32(|s.data|, bufSize);
      position := ToInt32(position + bufSize);
      totalLength := ToInt32(totalLength + bufSize);
      r := Ok(());
    }

    method Seek(mode: Int32, offset: Int32, serverOk: bool) returns (r: Result<int, BlobError>)
      modifies this
      ensures r.Err? ==> unchanged(this)
      ensures old(blob) == None ==> r == Err(InvalidPointer)
      ensures old(blob).Some? && !serverOk ==> r == Err(ServerError)
      ensures old(blob).Some? && serverOk ==>
                var s := old(blob.value);
                var t := s.Target(mode, offset);
                && r == Ok(ToInt32(t)) && blob == Some(s.(at := t)) && position == ToInt32(t)
                && (var place := if mode == 1 then s.at + offset else if mode == 2 then |s.data| + offset else offset;
                    && (0 <= place <= |s.data| ==> t == place)
                    && (place < 0 ==> t == 0) && (place > |s.data| ==> t == |s.data|))
                && (old(Opened()) && |s.data| <= INT32_MAX ==> Opened())
    {
      if blob == None {
        return Err(InvalidPointer);
      }
      if !serverOk {
        return Err(ServerError);
      }
      var s := blob.value;
      var t := s.Target(mode, offset);
      blob := Some(s.(at := t));
      position := ToInt32(t);
      r := Ok(position);
    }

    /** Closing a created blob makes it readable under its identifier. */
    method Close(server: BlobServer, serverOk: bool) returns (r: Result<(), BlobError>)
      modifies this, server
      ensures r.Err? ==> unchanged(this) && unchanged(server)
      ensures old(blob) == None ==> r == Err(InvalidPointer)
      ensures old(blob).Some? ==> r == if serverOk then Ok(()) else Err(ServerError)
      ensures r.Ok? ==>
                && blob == None && position == old(position) && totalLength == old(totalLength)
                && id == old(id) && isWritable == old(isWritable)
                && server.stored == if old(blob.value).created
                                    then old(server.stored)[old(blob.value).id := old(blob.value).data]
                                    else old(server.stored)
    {
      if blob == None {
        return Err(InvalidPointer);
      }
      if !serverOk {
        return Err(ServerError);
      }
      server.stored := AfterClose(server.stored, blob.value);
      blob := None;
      r := Ok(());
    }

    /** `get` as a PHP program calls it. */
    method Get(maxLen: Int64, serverOk: bool) returns (r: Result<PhpString, BlobError>)
      requires blob.Some? ==> blob.value.Valid()
      modifies this
      ensures r.Err? ==> unchanged(this)
      ensures old(Opened()) && |old(blob.value.data)| <= INT32_MAX && serverOk ==>
                var s := old(blob.value);
                var t := PlaceAfter(s, ReadCall.Get(maxLen));
                && r == Ok(s.data[s.at..t]) && blob == Some(s.(at := t)) && Opened()
                && (0 < maxLen <= |s.data| - s.at ==> t == s.at + maxLen)
                && (-0x8000_0000 <= maxLen <= 0 || |s.data| - s.at < maxLen < 0x8000_0000 ==> t == |s.data|)
    {
      hide ToInt32, ReadLength;
      if Opened() {
        if -0x8000_0000 <= maxLen < 0x8000_0000 {
          FitsInt32(maxLen);
        }
        ReadLengthIs(ToInt32(maxLen), |blob.value.data| - blob.value.at);
        ReportedLength(|blob.value.data|);
        ReadFits(totalLength, position, ToInt32(maxLen));
      }
      FitsInt32(ToInt32(maxLen));
      r := GetContents(ToInt32(maxLen), serverOk);
    }

    /** A cancelled blob leaves no trace on the server. */
    method Cancel(serverOk: bool) returns (r: Result<(), BlobError>)
      modifies this
      ensures r.Err? ==> unchanged(this)
      ensures r == if old(blob) == None then Err(InvalidPointer) else if serverOk then Ok(()) else Err(ServerError)
      ensures r.Ok? ==> blob == None
    {
      if blob == None {
        return Err(InvalidPointer);
      }
      if !serverOk {
        return Err(ServerError);
      }
      blob := None;
      r := Ok(());
    }

    /** The destructor closes what is still open, so a created blob that was neither closed nor cancelled is kept. */
    method Destruct(server: BlobServer, closeOk: bool)
      modifies this, server
      ensures blob == None
      ensures server.stored == if old(blob).Some? && closeOk && old(blob.value).created
                               then old(server.stored)[old(blob.value).id := old(blob.value).data]
                               else old(server.stored)
    {
      if blob.Some? {
        if closeOk {
          server.stored := AfterClose(server.stored, blob.value);
        }
        blob := None;
      }
    }
  }

  lemma ReadLengthIs(maxLen: int, remaining: int)
    ensures 0 < maxLen <= remaining ==> ReadLength(maxLen, remaining) == maxLen
    ensures !(0 < maxLen <= remaining) && 0 <= remaining <= INT32_MAX ==> ReadLength(maxLen, remaining) == remaining
  {
  }

  lemma FitsInt32(n: int)
    requires -INT32_MAX - 1 <= n <= INT32_MAX
    ensures ToInt32(n) == n
  {
  }

  /** A read of non-negative length stays within the reported length. */
  lemma ReadFits(total: int, position: int, maxLen: int)
    requires -INT32_MAX - 1 <= total <= INT32_MAX
    requires position == 0 || 0 <= position <= total
    ensures var m := ReadLength(maxLen, total - position);
            (m >= 0 ==> position + m <= total) && (0 <= position <= total ==> m >= 0)
  {
  }

  lemma ReportedLength(length: nat)
    ensures ToInt32(length) <= length
    ensures length <= INT32_MAX ==> ToInt32(length) == length
  {
  }

  lemma AddInt32(a: int, b: int)
    ensures ToInt32(ToInt32(a) + b) == ToInt32(a + b)
  {
    var k := a / 0x1_0000_0000;
    assert a == a % 0x1_0000_0000 + 0x1_0000_0000 * k;
  }

  /* ----- Whole strings ----- */

  /** What is stored for a string: its length passes through `unsigned int`. */
  function StoredText(s: PhpString): PhpString {
    s[..|s| % TWO_32]
  }

  /** What reading a stored blob in one get yields. */
  function FetchedText(data: PhpString): Result<PhpString, BlobError> {
    var n := ToInt32(|data|);
    if n < 0 then Err(AllocationFailed) else Ok(data[..n])
  }

  /** `create_blob_from_string`. The server picks an identifier it does not use yet, or fails. */
  method CreateBlobFromString(server: BlobServer, data: PhpString, newId: Option<BlobId>)
    returns (r: Result<BlobId, BlobError>)
    requires newId.Some? ==> newId.value !in server.stored
    modifies server
    ensures r == if newId.Some? then Ok(newId.value) else Err(ServerError)
    ensures server.stored == if newId.Some? then old(server.stored)[newId.value := data[..|data| % 0x1_0000_0000]]
                             else old(server.stored)
  {
    var blob := new Blob();
    var create := blob.Create(newId, true);
    if create.Err? {
      return Err(create.error);
    }
    var put := blob.PutContents(data, |data| % TWO_32, true);
    assert [] + data[..|data| % TWO_32] == StoredText(data);
    var close := blob.Close(server, true);
    r := Ok(blob.id);
  }

  /** The text of a stored blob, if the server answers. */
  function BlobText(stored: map<BlobId, PhpString>, id: BlobId, serverOk: bool): Result<PhpString, BlobError> {
    if !serverOk || id !in stored then Err(ServerError) else FetchedText(stored[id])
  }

  /** `get_blob_contents`. */
  method GetBlobContents(server: BlobServer, id: BlobId, serverOk: bool) returns (r: Result<PhpString, BlobError>)
    ensures r == BlobText(server.stored, id, serverOk)
    ensures r == Err(ServerError) <==> !serverOk || id !in server.stored
    ensures serverOk && id in server.stored ==>
              var data := server.stored[id];
              var n := |data| % 0x1_0000_0000;
              r == if n < 0x8000_0000 then Ok(data[..n]) else Err(AllocationFailed)
  {
    var blob := new Blob();
    var open := blob.Open(server, id, serverOk);
    if open.Err? {
      return Err(open.error);
    }
    r := blob.GetContents(0, true);
  }

  /** Storing a string and fetching it gives it back if and only if it is shorter than 2^31 bytes. */
  method StoreAndFetch(server: BlobServer, s: PhpString, newId: BlobId) returns (r: Result<PhpString, BlobError>)
    requires newId !in server.stored
    modifies server
    ensures r == Ok(s) <==> |s| < 0x8000_0000
  {
    var created := CreateBlobFromString(server, s, Some(newId));
    r := GetBlobContents(server, created.value, true);
    assert |s| < 0x8000_0000 ==> s[..|s|] == s;
  }

  /** A string survives create and fetch exactly when it is shorter than 2^31 bytes. */
  lemma StringRoundTrip(s: PhpString)
    ensures FetchedText(StoredText(s)) == Ok(s) <==> |s| < 0x8000_0000
  {
    var t := StoredText(s);
    if |s| < 0x8000_0000 {
      assert t == s && s[..|s|] == s;
    } else {
      assert |t| < TWO_32;
      assert FetchedText(t).Ok? ==> |FetchedText(t).value| <= INT32_MAX;
    }
  }

  /* ----- Runs of gets and seeks on an opened blob ----- */

  /** Calls by a PHP program, whose integers are cut to 32 bits on the way. */
  datatype ReadCall = Get(maxLen: Int64) | SeekTo(mode: Int64, offset: Int64)

  /** The place after one call. */
  function PlaceAfter(s: Stream, c: ReadCall): (t: nat)
    requires s.Valid() && |s.data| <= INT32_MAX
    ensures t <= |s.data|
  {
    match c
    case Get(m) => s.at + ReadLength(ToInt32(m), |s.data| - s.at)
    case SeekTo(mode, offset) => s.Target(ToInt32(mode), ToInt32(offset))
  }

  /** The texts returned by the gets of a run, in order. */
  function Texts(s: Stream, calls: seq<ReadCall>): seq<PhpString>
    requires s.Valid() && |s.data| <= INT32_MAX
    decreases |calls|
  {
    if calls == [] then []
    else
      var t := PlaceAfter(s, calls[0]);
      (if calls[0].Get? then [s.data[s.at..t]] else []) + Texts(s.(at := t), calls[1..])
  }

  function PlaceAfterAll(s: Stream, calls: seq<ReadCall>): (t: nat)
    requires s.Valid() && |s.data| <= INT32_MAX
    ensures t <= |s.data|
    decreases |calls|
  {
    if calls == [] then s.at else PlaceAfterAll(s.(at := PlaceAfter(s, calls[0])), calls[1..])
  }

  function Joined(ts: seq<PhpString>): PhpString {
    if ts == [] then [] else ts[0] + Joined(ts[1..])
  }

  lemma GetMovesOn(s: Stream, c: ReadCall)
    requires s.Valid() && |s.data| <= INT32_MAX && c.Get?
    ensures s.at <= PlaceAfter(s, c)
  {
    hide ToInt32;
    FitsInt32(|s.data| - s.at);
  }

  /** Gets alone return the data piece by piece: nothing twice, nothing skipped. */
  lemma {:induction false} GetsJoin(s: Stream, calls: seq<ReadCall>)
    requires s.Valid() && |s.data| <= INT32_MAX
    requires forall i :: 0 <= i < |calls| ==> calls[i].Get?
    ensures s.at <= PlaceAfterAll(s, calls)
    ensures Joined(Texts(s, calls)) == s.data[s.at..PlaceAfterAll(s, calls)]
    decreases |calls|
  {
    hide PlaceAfter;
    if calls != [] {
      var t := PlaceAfter(s, calls[0]);
      var next := s.(at := t);
      GetMovesOn(s, calls[0]);
      GetsJoin(next, calls[1..]);
      assert Texts(s, calls)[1..] == Texts(next, calls[1..]);
      assert s.data[s.at..t] + s.data[t..PlaceAfterAll(next, calls[1..])] == s.data[s.at..PlaceAfterAll(s, calls)];
    }
  }

  /** After any run, rewinding and one unlimited get return the whole blob. */
  lemma {:induction false} RewindReadsAll(s: Stream, calls: seq<ReadCall>, m: Int64)
    requires s.Valid() && |s.data| <= INT32_MAX && (ToInt32(m) <= 0 || ToInt32(m) >= |s.data|)
    ensures Texts(s, calls + [SeekTo(0, 0), Get(m)]) == Texts(s, calls) + [s.data]
    decreases |calls|
  {
    var tail := [SeekTo(0, 0), Get(m)];
    if calls == [] {
      assert calls + tail == tail && tail[1..] == [Get(m)];
      var start := s.(at := 0);
      assert PlaceAfter(start, Get(m)) == |s.data|;
      assert [Get(m)][1..] == [] && Texts(start.(at := |s.data|), []) == [];
      assert s.data[0..|s.data|] == s.data;
      assert Texts(start, [Get(m)]) == [s.data];
    } else {
      assert (calls + tail)[1..] == calls[1..] + tail;
      RewindReadsAll(s.(at := PlaceAfter(s, calls[0])), calls[1..], m);
    }
  }
}
