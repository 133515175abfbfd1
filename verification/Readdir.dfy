/**
  IXLandSystem/fs/readdir.c, __ixland_getdents64_impl. A directory is a fixed list of entries; telldir
  answers the number of entries read so far, and seekdir goes back to such a number. The stream of a call
  is opened on a duplicate of the descriptor, which shares its position with the host's open directory.
 */
module Readdir {
  import opened Wrappers
  import opened Sequences
  import opened Dirents

  /** EHOST is whatever error dup, fdopendir or readdir of the host reports. */
  datatype Errno = EOK | EFAULT | EINVAL | EBADF | EHOST

  /** The offset of the descriptor table entry, and the position of the host's open directory behind it. */
  datatype Place = Place(offset: nat, host: nat)

  predicate Inside(listing: seq<Entry>, p: Place) {
    p.offset <= |listing| && p.host <= |listing|
  }

  /** Where the stream of a call starts to read: seekdir is called only for an offset that is not 0. */
  function Start(p: Place): nat {
    if p.offset > 0 then p.offset else p.host
  }

  /** The next call goes on at the saved offset. */
  predicate InStep(p: Place) {
    Start(p) == p.offset
  }

  /** The part of a descriptor table entry that matters here, with the host's position behind real_fd. */
  class DirEntry {
    var offset: nat
    var hostPos: nat

    constructor (offset: nat, hostPos: nat)
      ensures At() == Place(offset, hostPos)
    {
      this.offset, this.hostPos := offset, hostPos;
    }

    function At(): Place
      reads this
    {
      Place(offset, hostPos)
    }
  }

  /** Where the packing loop ends: at the first record that does not fit, or where readdir ends. */
  function Reach(listing: seq<Entry>, from: nat, limit: nat, room: nat): (to: nat)
    requires from <= limit <= |listing|
    ensures from <= to <= limit
    decreases |listing| - from
  {
    if from == limit || AlignedLen(listing[from]) > room then from
    else Reach(listing, from + 1, limit, room - AlignedLen(listing[from]))
  }

  /** readdir fails at the entry of number fault, if it gets there. */
  predicate Faulty(listing: seq<Entry>, from: nat, fault: Option<nat>) {
    fault.Some? && from <= fault.value <= |listing|
  }

  /** Where readdir ends: at a fault or at the end of the directory. */
  function Limit(listing: seq<Entry>, from: nat, fault: Option<nat>): (limit: nat)
    requires from <= |listing|
    ensures from <= limit <= |listing|
  {
    if Faulty(listing, from, fault) then fault.value else |listing|
  }

  /** A call, and what the host does during it: where readdir fails, and how far its stream reads ahead. */
  datatype Call = Call(count: nat, fault: Option<nat>, ahead: nat)

  datatype Reply = Filled(bytes: seq<byte>, offset: nat) | Failed(error: Errno)

  function Answer(listing: seq<Entry>, p: Place, call: Call): (r: Reply)
    requires ValidListing(listing) && Inside(listing, p)
    ensures r.Filled? ==> p.offset <= r.offset <= |listing|
  {
    var from := Start(p);
    var limit := Limit(listing, from, call.fault);
    var to := Reach(listing, from, limit, call.count);
    if call.count == 0 then Failed(EINVAL)
    else if from < to then Filled(Pack(listing, from, to), to)
    else if from < limit then Failed(EINVAL)
    else if Faulty(listing, from, call.fault) then Failed(EHOST)
    else Filled([], p.offset)
  }

  /** How far the host's position gets when readdir has read seen entries. */
  function Ahead(listing: seq<Entry>, seen: nat, ahead: nat): (host: nat)
    requires seen <= |listing|
    ensures seen <= host <= |listing|
  {
    if seen + ahead < |listing| then seen + ahead else |listing|
  }

  /** The host's position after a call that has opened its stream; a record that did not fit has been read, too. */
  function HostAfter(listing: seq<Entry>, p: Place, call: Call): (host: nat)
    requires Inside(listing, p)
    ensures Start(p) <= host <= |listing|
  {
    var limit := Limit(listing, Start(p), call.fault);
    var to := Reach(listing, Start(p), limit, call.count);
    Ahead(listing, if to < limit then to + 1 else to, call.ahead)
  }

  // -- the call --

  /** Stores and memcpy: the bytes go into the buffer at place at. */
  method Write(buf: array<byte>, at: nat, bytes: seq<byte>)
    requires at + |bytes| <= buf.Length
    modifies buf
    ensures buf[..] == old(buf[..at]) + bytes + old(buf[at + |bytes|..])
  {
    ghost var was := buf[..];
    var i := 0;
    while i < |bytes|
      invariant 0 <= i <= |bytes| && buf[..at] == was[..at] && buf[at..at + i] == bytes[..i] && buf[at + i..] == was[at + i..]
    {
      buf[at + i] := bytes[i];
      i := i + 1;
    }
    assert buf[..] == buf[..at] + buf[at..at + i] + buf[at + i..];
  }

  /** After base the buffer holds what has been written so far, and elsewhere it is as it was. */
  ghost predicate Holds(buf: seq<byte>, was: seq<byte>, base: nat, written: seq<byte>) {
    base + |written| <= |was| && buf == was[..base] + written + was[base + |written|..]
  }

  /** More bytes, behind those already written. */
  method PutMore(buf: array<byte>, at: nat, bytes: seq<byte>, ghost was: seq<byte>, ghost base: nat, ghost written: seq<byte>)
    requires Holds(buf[..], was, base, written) && at == base + |written| && at + |bytes| <= buf.Length
    modifies buf
    ensures Holds(buf[..], was, base, written + bytes)
  {
    Write(buf, at, bytes);
  }

  /** One record; the part of the buffer behind it is as it was. */
  method PutRecord(buf: array<byte>, at: nat, e: Entry, off: nat)
    requires ValidEntry(e) && off < TWO_64 && at + AlignedLen(e) <= buf.Length
    modifies buf
    ensures Holds(buf[..], old(buf[..]), at, Record(e, off))
  {
    ghost var was := buf[..];
    var recordLen := RecordLen(e);
    var alignedLen := AlignedLen(e);
    var ino, o, len, name, zeros := Put(e.ino, 8), Put(off, 8), Put(alignedLen, 2), e.name + [0], Zeros(alignedLen - recordLen);
    ghost var head := PutHead(buf, at, ino, o, len, MapDtype(e.dtype));
    PutMore(buf, at + NAME_OFFSET, name, was, at, head);
    if alignedLen > recordLen {
      PutMore(buf, at + recordLen, zeros, was, at, head + name);
    } else {
      assert head + name + zeros == head + name;
    }
    assert Holds(buf[..], was, at, head + name + zeros);
    assert head + name + zeros == Record(e, off) by {
      RecordIs(e, off);
    }
  }

  method PutHead(buf: array<byte>, at: nat, ino: seq<byte>, off: seq<byte>, len: seq<byte>, dtype: byte) returns (ghost head: seq<byte>)
    requires |ino| == 8 && |off| == 8 && |len| == 2 && at + NAME_OFFSET <= buf.Length
    modifies buf
    ensures head == ino + off + len + [dtype] && Holds(buf[..], old(buf[..]), at, head)
  {
    ghost var was := buf[..];
    assert Holds(buf[..], was, at, []);
    PutMore(buf, at, ino, was, at, []);
    assert [] + ino == ino;
    PutMore(buf, at + 8, off, was, at, ino);
    PutMore(buf, at + 16, len, was, at, ino + off);
    PutMore(buf, at + 18, [dtype], was, at, ino + off + len);
    head := ino + off + len + [dtype];
  }

  /** The buffer begins with the records of from..pos, and behind them it is as it was. */
  ghost predicate Packed(buf: seq<byte>, listing: seq<Entry>, from: nat, pos: nat, was: seq<byte>, written: nat) {
    && ValidListing(listing) && from <= pos <= |listing| && written == |Pack(listing, from, pos)| <= |was|
    && buf == Pack(listing, from, pos) + was[written..]
  }

  /** The packing loop, from the position from on. */
  method PackEntries(dirp: array<byte>, count: nat, listing: seq<Entry>, from: nat, limit: nat) returns (written: nat, pos: nat, full: bool)
    requires ValidListing(listing) && from <= limit <= |listing| && count <= dirp.Length
    modifies dirp
    ensures pos == Reach(listing, from, limit, count) && (full <==> pos < limit)
    ensures written <= count && Packed(dirp[..], listing, from, pos, old(dirp[..]), written)
  {
    ghost var was := dirp[..];
    written, pos := 0, from;
    while true
      invariant from <= pos <= limit && written <= count
      invariant Reach(listing, pos, limit, count - written) == Reach(listing, from, limit, count)
      invariant Packed(dirp[..], listing, from, pos, was, written)
      decreases limit - pos
    {
      if pos == limit {
        assert Reach(listing, pos, limit, count - written) == pos;
        return written, pos, false;
      }
      var native := listing[pos];
      var alignedLen := AlignedLen(native);
      if alignedLen > count - written {
        assert Reach(listing, pos, limit, count - written) == pos;
        return written, pos, true;
      }
      PutNext(dirp, written, listing, from, pos, was);
      pos := pos + 1;
      written := written + alignedLen;
    }
  }

  method PutNext(dirp: array<byte>, written: nat, listing: seq<Entry>, ghost from: nat, pos: nat, ghost was: seq<byte>)
    requires Packed(dirp[..], listing, from, pos, was, written) && pos < |listing| && |was| == dirp.Length
    requires written + AlignedLen(listing[pos]) <= dirp.Length
    modifies dirp
    ensures Packed(dirp[..], listing, from, pos + 1, was, written + AlignedLen(listing[pos]))
  {
    ghost var before := dirp[..];
    PutRecord(dirp, written, listing[pos], pos + 1);
    assert before[..written] == Pack(listing, from, pos);
    assert before[written + AlignedLen(listing[pos])..] == was[written + AlignedLen(listing[pos])..];
  }

  /**
    getdents64. entry is what the descriptor leads to, if it is open; opens says whether the host lets the
    directory be opened. A call that fails leaves the offset and the buffer alone, but a stream that was
    opened has moved the host's position.
   */
  method Getdents64(entry: DirEntry?, dirp: array?<byte>, count: nat, listing: seq<Entry>, opens: bool, fault: Option<nat>, ahead: nat)
    returns (r: int, e: Errno)
    requires ValidListing(listing) && (dirp != null ==> count <= dirp.Length) && (entry != null ==> Inside(listing, entry.At()))
    modifies entry, dirp
    ensures dirp == null ==> r == -1 && e == EFAULT
    ensures dirp != null && (count == 0 || entry == null || !opens) ==>
      r == -1 && e == (if count == 0 then EINVAL else if entry == null then EBADF else EHOST) && dirp[..] == old(dirp[..])
    ensures entry != null && (dirp == null || count == 0 || !opens) ==> entry.At() == old(entry.At())
    ensures dirp != null && count > 0 && entry != null && opens ==>
      var p, call := old(entry.At()), Call(count, fault, ahead);
      && entry.hostPos == HostAfter(listing, p, call)
      && match Answer(listing, p, call)
         case Filled(bytes, offset) => r == |bytes| <= count && entry.offset == offset && dirp[..] == bytes + old(dirp[..])[|bytes|..]
         case Failed(error) => r == -1 && e == error && entry.offset == p.offset && dirp[..] == old(dirp[..])
  {
    if dirp == null {
      return -1, EFAULT;
    }
    if count == 0 {
      return -1, EINVAL;
    }
    if entry == null {
      return -1, EBADF;
    }
    if !opens {
      return -1, EHOST;
    }
    var from := if entry.offset > 0 then entry.offset else entry.hostPos;
    var limit := Limit(listing, from, fault);
    var written, pos, full := PackEntries(dirp, count, listing, from, limit);
    entry.hostPos := Ahead(listing, if full then pos + 1 else pos, ahead);
    if full && written == 0 {
      return -1, EINVAL;
    }
    if !full && Faulty(listing, from, fault) && written == 0 {
      return -1, EHOST;
    }
    if written > 0 {
      entry.offset := pos;
    }
    return written, EOK;
  }

  // -- series of calls --

  /** After a call the offset has moved only if the call succeeds, but the host's position has if it got to reading. */
  function Next(listing: seq<Entry>, p: Place, call: Call): (p': Place)
    requires ValidListing(listing) && Inside(listing, p)
    ensures Inside(listing, p') && p.offset <= p'.offset
  {
    var a := Answer(listing, p, call);
    Place(if a.Filled? then a.offset else p.offset, if call.count == 0 then p.host else HostAfter(listing, p, call))
  }

  function Final(listing: seq<Entry>, p: Place, calls: seq<Call>): (p': Place)
    requires ValidListing(listing) && Inside(listing, p)
    ensures Inside(listing, p') && p.offset <= p'.offset
    decreases calls
  {
    if calls == [] then p else Final(listing, Next(listing, p, calls[0]), calls[1..])
  }

  /** What a reader makes of the buffer of a call. */
  function Delivered(listing: seq<Entry>, p: Place, call: Call): seq<Seen>
    requires ValidListing(listing) && Inside(listing, p)
  {
    var a := Answer(listing, p, call);
    if a.Filled? then Decode(a.bytes) else []
  }

  /** What a reader makes of the buffers of a series of calls, one after the other. */
  function Read(listing: seq<Entry>, p: Place, calls: seq<Call>): seq<Seen>
    requires ValidListing(listing) && Inside(listing, p)
    decreases calls
  {
    if calls == [] then []
    else Delivered(listing, p, calls[0]) + Read(listing, Next(listing, p, calls[0]), calls[1..])
  }

  /** Where the first call of the series starts that moves the offset, or where the next call would. */
  function Begin(listing: seq<Entry>, p: Place, calls: seq<Call>): nat
    requires ValidListing(listing) && Inside(listing, p)
    decreases calls
  {
    if calls == [] || Next(listing, p, calls[0]).offset > 0 then Start(p)
    else Begin(listing, Next(listing, p, calls[0]), calls[1..])
  }

  /**
    What one call delivers: exactly the entries from where its stream starts up to the new offset, in whole
    records; or nothing, with the offset where it was.
   */
  lemma CallDelivers(listing: seq<Entry>, p: Place, call: Call)
    requires ValidListing(listing) && Inside(listing, p)
    ensures var off := Next(listing, p, call).offset;
      if off == p.offset then Delivered(listing, p, call) == []
      else Start(p) < off && Delivered(listing, p, call) == Listed(listing, Start(p), off)
    ensures var a := Answer(listing, p, call);
      a.Filled? ==> |a.bytes| <= call.count && exists n: nat :: |a.bytes| == 8 * n
  {
    var from := Start(p);
    DecodeNothing(listing, from);
    PackedIs(listing, from, Limit(listing, from, call.fault), call.count);
  }

  /** Which error a call fails with: too little room for the first record, or a fault at once. */
  lemma CallFails(listing: seq<Entry>, p: Place, call: Call)
    requires ValidListing(listing) && Inside(listing, p)
    ensures var a := Answer(listing, p, call);
      && (a == Failed(EINVAL) <==>
           || call.count == 0
           || (Start(p) < |listing| && call.fault != Some(Start(p)) && AlignedLen(listing[Start(p)]) > call.count))
      && (a == Failed(EHOST) <==> call.count > 0 && call.fault == Some(Start(p)))
      && (a.Failed? ==> a.error in {EINVAL, EHOST})
  {
  }

  /** What the packing loop writes: it fits, in whole records, and a reader finds the entries in it. */
  lemma PackedIs(listing: seq<Entry>, from: nat, limit: nat, room: nat)
    requires ValidListing(listing) && from <= limit <= |listing|
    ensures var to := Reach(listing, from, limit, room);
      var bytes := Pack(listing, from, to);
      |bytes| <= room && |bytes| == 8 * Total(listing, from, to) && Decode(bytes) == Listed(listing, from, to)
  {
    var to := Reach(listing, from, limit, room);
    ReachFits(listing, from, limit, room);
    DecodePack(listing, from, to);
    PackAligned(listing, from, to);
  }

  /** The records up to the place reached fit, and one more would not. */
  lemma {:induction false} ReachFits(listing: seq<Entry>, from: nat, limit: nat, room: nat)
    requires ValidListing(listing) && from <= limit <= |listing|
    ensures var to := Reach(listing, from, limit, room);
      |Pack(listing, from, to)| <= room && (to < limit ==> |Pack(listing, from, to)| + AlignedLen(listing[to]) > room)
    decreases |listing| - from
  {
    if from < limit && AlignedLen(listing[from]) <= room {
      ReachFits(listing, from + 1, limit, room - AlignedLen(listing[from]));
      PackFirst(listing, from, Reach(listing, from, limit, room));
    }
  }

  /**
    Any series of calls with buffers of any size, from any place: the records that are read, taken together,
    are the entries from one place in the directory up to the last offset, each once and in order. Nothing is
    ever lost behind that place; what lies before it has been read by the host, but not delivered.
   */
  lemma {:induction false} SeriesReads(listing: seq<Entry>, p: Place, calls: seq<Call>)
    requires ValidListing(listing) && Inside(listing, p)
    ensures var begin, last := Begin(listing, p, calls), Final(listing, p, calls);
      && Start(p) <= begin
      && if last.offset == 0 then begin == last.host && Read(listing, p, calls) == []
         else begin <= last.offset && Read(listing, p, calls) == Listed(listing, begin, last.offset)
    decreases calls
  {
    DecodeNothing(listing, Start(p));
    if calls != [] {
      var next := Next(listing, p, calls[0]);
      CallDelivers(listing, p, calls[0]);
      SeriesReads(listing, next, calls[1..]);
      if next.offset > 0 {
        DecodeNothing(listing, next.offset);
        ListedSplit(listing, Start(p), next.offset, Final(listing, next, calls[1..]).offset);
      }
    }
  }

  /**
    A call that loses nothing: not made at offset 0, or not reading, or with room for the first record;
    a host that fails at the very first entry must not have moved.
   */
  predicate Safe(listing: seq<Entry>, p: Place, call: Call) {
    || p.offset > 0 || call.count == 0 || listing == []
    || if call.fault == Some(0) then call.ahead == 0 else call.count >= AlignedLen(listing[0])
  }

  ghost predicate SafeSeries(listing: seq<Entry>, p: Place, calls: seq<Call>)
    requires ValidListing(listing) && Inside(listing, p)
    decreases calls
  {
    calls != [] ==> Safe(listing, p, calls[0]) && SafeSeries(listing, Next(listing, p, calls[0]), calls[1..])
  }

  /** Offset and host stay in step just when the call is safe. */
  lemma CallKeepsStepIff(listing: seq<Entry>, p: Place, call: Call)
    requires ValidListing(listing) && Inside(listing, p) && InStep(p)
    ensures InStep(Next(listing, p, call)) <==> Safe(listing, p, call)
  {
  }

  /** What the reader has got is the listing up to the last offset, and the next call goes on there. */
  ghost predicate NothingLost(listing: seq<Entry>, p: Place, calls: seq<Call>)
    requires ValidListing(listing) && Inside(listing, p)
  {
    var last := Final(listing, p, calls);
    InStep(last) && Read(listing, p, calls) == Listed(listing, p.offset, last.offset)
  }

  lemma SafeCallFirst(listing: seq<Entry>, p: Place, calls: seq<Call>)
    requires ValidListing(listing) && Inside(listing, p) && InStep(p) && calls != [] && Safe(listing, p, calls[0])
    ensures NothingLost(listing, p, calls) <==> NothingLost(listing, Next(listing, p, calls[0]), calls[1..])
  {
    var next, last := Next(listing, p, calls[0]), Final(listing, p, calls);
    DecodeNothing(listing, p.offset);
    CallDelivers(listing, p, calls[0]);
    ListedSplit(listing, p.offset, next.offset, last.offset);
    SameBehind(Delivered(listing, p, calls[0]), Read(listing, next, calls[1..]), Listed(listing, next.offset, last.offset));
  }

  lemma SameBehind<T>(a: seq<T>, b: seq<T>, c: seq<T>)
    ensures a + b == a + c <==> b == c
  {
    assert (a + b)[|a|..] == b && (a + c)[|a|..] == c;
  }

  lemma UnsafeCallFirst(listing: seq<Entry>, p: Place, calls: seq<Call>)
    requires ValidListing(listing) && Inside(listing, p) && InStep(p) && calls != [] && !Safe(listing, p, calls[0])
    ensures !NothingLost(listing, p, calls)
  {
    var next := Next(listing, p, calls[0]);
    assert next.offset == 0 && next.host > 0 by {
      CallKeepsStepIff(listing, p, calls[0]);
    }
    CallDelivers(listing, p, calls[0]);
    SeriesReads(listing, next, calls[1..]);
    assert Read(listing, p, calls) == Read(listing, next, calls[1..]);
  }

  /**
    A series reads exactly the listing up to its last offset, and can be resumed there, if and only if each
    of its calls is safe.
   */
  lemma {:induction false} SeriesReadsListingIff(listing: seq<Entry>, p: Place, calls: seq<Call>)
    requires ValidListing(listing) && Inside(listing, p) && InStep(p)
    ensures NothingLost(listing, p, calls) <==> SafeSeries(listing, p, calls)
    decreases calls
  {
    if calls == [] {
      DecodeNothing(listing, p.offset);
    } else if Safe(listing, p, calls[0]) {
      CallKeepsStepIff(listing, p, calls[0]);
      SafeCallFirst(listing, p, calls);
      SeriesReadsListingIff(listing, Next(listing, p, calls[0]), calls[1..]);
    } else {
      UnsafeCallFirst(listing, p, calls);
    }
  }

  /** Every call of the series succeeds. */
  ghost predicate AllSucceed(listing: seq<Entry>, p: Place, calls: seq<Call>)
    requires ValidListing(listing) && Inside(listing, p)
    decreases calls
  {
    calls != [] ==> Answer(listing, p, calls[0]).Filled? && AllSucceed(listing, Next(listing, p, calls[0]), calls[1..])
  }

  lemma {:induction false} SuccessIsSafe(listing: seq<Entry>, p: Place, calls: seq<Call>)
    requires ValidListing(listing) && Inside(listing, p) && InStep(p) && AllSucceed(listing, p, calls)
    ensures SafeSeries(listing, p, calls)
    decreases calls
  {
    if calls != [] {
      CallKeepsStepIff(listing, p, calls[0]);
      SuccessIsSafe(listing, Next(listing, p, calls[0]), calls[1..]);
    }
  }

  /**
    Successful calls with buffers of any size: what is read, taken together, is exactly the listing from the
    first offset to the last, each entry once and in order.
   */
  lemma SeriesReadsListing(listing: seq<Entry>, p: Place, calls: seq<Call>)
    requires ValidListing(listing) && Inside(listing, p) && InStep(p) && AllSucceed(listing, p, calls)
    ensures Read(listing, p, calls) == Listed(listing, p.offset, Final(listing, p, calls).offset)
  {
    SuccessIsSafe(listing, p, calls);
    SeriesReadsListingIff(listing, p, calls);
  }

  const MAX_RECORD := 1048

  /** A caller with room for the longest record is safe wherever the host does not fail. */
  lemma RoomIsSafe(listing: seq<Entry>, p: Place, call: Call)
    requires ValidListing(listing) && call.count >= MAX_RECORD && call.fault != Some(0)
    ensures Safe(listing, p, call)
  {
    assert listing != [] ==> ValidEntry(listing[0]);
  }

  /** A first call with a buffer of 8 bytes fails, and the next one starts behind the first entry. */
  lemma FirstEntryLost(e: Entry, f: Entry)
    requires ValidEntry(e) && ValidEntry(f)
    ensures Read([e, f], Place(0, 0), [Call(8, None, 0), Call(4096, None, 0)]) == [SeenAs(f, 2)]
  {
    var listing, small, big := [e, f], Call(8, None, 0), Call(4096, None, 0);
    var next := Next(listing, Place(0, 0), small);
    assert next == Place(0, 1);
    SeriesReads(listing, next, [big]);
    assert [small, big][1..] == [big] && [big][1..] == [];
    assert Reach(listing, 2, 2, 4096 - AlignedLen(f)) == 2;
    assert Next(listing, next, big).offset == 2;
    assert Delivered(listing, Place(0, 0), small) == [];
    DecodeNothing(listing, 2);
  }

  /** Once the offset has moved, the host's position no longer matters. */
  lemma {:induction false} HostForgotten(listing: seq<Entry>, p: Place, host: nat, calls: seq<Call>)
    requires ValidListing(listing) && Inside(listing, p) && p.offset > 0 && host <= |listing|
    ensures Read(listing, p, calls) == Read(listing, p.(host := host), calls)
    decreases calls
  {
    if calls != [] {
      var next, next' := Next(listing, p, calls[0]), Next(listing, p.(host := host), calls[0]);
      assert next.offset == next'.offset && next' == next.(host := next'.host);
      HostForgotten(listing, next, next'.host, calls[1..]);
    }
  }

  lemma ReadFirst(listing: seq<Entry>, p: Place, call: Call, calls: seq<Call>)
    requires ValidListing(listing) && Inside(listing, p)
    ensures var next := Next(listing, p, call);
      && Read(listing, p, [call] + calls) == Delivered(listing, p, call) + Read(listing, next, calls)
      && Final(listing, p, [call] + calls) == Final(listing, next, calls)
  {
    assert ([call] + calls)[1..] == calls;
  }

  /** Reading the two parts of a series, one after the other. */
  ghost function ReadTwice(listing: seq<Entry>, p: Place, calls: seq<Call>, more: seq<Call>): seq<Seen>
    requires ValidListing(listing) && Inside(listing, p)
  {
    Read(listing, p, calls) + Read(listing, Final(listing, p, calls), more)
  }

  lemma ReadTwiceFirst(listing: seq<Entry>, p: Place, call: Call, calls: seq<Call>, more: seq<Call>)
    requires ValidListing(listing) && Inside(listing, p)
    ensures ReadTwice(listing, p, [call] + calls, more)
      == Delivered(listing, p, call) + ReadTwice(listing, Next(listing, p, call), calls, more)
  {
    var next := Next(listing, p, call);
    ReadFirst(listing, p, call, calls);
    Associates(Delivered(listing, p, call), Read(listing, next, calls), Read(listing, Final(listing, next, calls), more));
  }

  lemma {:induction false} ReadSplit(listing: seq<Entry>, p: Place, calls: seq<Call>, more: seq<Call>)
    requires ValidListing(listing) && Inside(listing, p)
    ensures Read(listing, p, calls + more) == ReadTwice(listing, p, calls, more)
    decreases |calls|
  {
    if calls == [] {
      assert calls + more == more;
    } else {
      var call, rest := calls[0], calls[1..];
      assert calls == [call] + rest && calls + more == [call] + (rest + more);
      ReadSplit(listing, Next(listing, p, call), rest, more);
      ReadFirst(listing, p, call, rest + more);
      ReadTwiceFirst(listing, p, call, rest, more);
    }
  }

  /**
    A safe series can be cut at any point and resumed with nothing but the saved offset, wherever the host's
    position is by then; a series that has not got beyond offset 0 needs it at the beginning of the directory.
   */
  lemma SeriesResumes(listing: seq<Entry>, p: Place, calls: seq<Call>, more: seq<Call>, host: nat)
    requires ValidListing(listing) && Inside(listing, p) && InStep(p) && SafeSeries(listing, p, calls)
    requires host <= |listing| && InStep(Place(Final(listing, p, calls).offset, host))
    ensures Read(listing, p, calls + more)
      == Read(listing, p, calls) + Read(listing, Place(Final(listing, p, calls).offset, host), more)
  {
    var last := Final(listing, p, calls);
    ReadSplit(listing, p, calls, more);
    SeriesReadsListingIff(listing, p, calls);
    if last.offset > 0 {
      HostForgotten(listing, last, host, more);
    }
  }

  /** A call that meets no fault makes progress just when it has room for the record it starts at. */
  lemma CallMakesProgress(listing: seq<Entry>, p: Place, call: Call)
    requires ValidListing(listing) && Inside(listing, p) && Start(p) < |listing| && call.fault == None
    ensures Next(listing, p, call).offset > p.offset <==> call.count >= AlignedLen(listing[Start(p)])
    ensures Next(listing, p, call).offset > p.offset <==> Start(Next(listing, p, call)) > Start(p) && Delivered(listing, p, call) != []
  {
    CallDelivers(listing, p, call);
  }

  /** The call has room for any record of the directory and meets no fault. */
  predicate Ample(listing: seq<Entry>, call: Call) {
    call.fault == None && call.count > 0 && forall j :: 0 <= j < |listing| ==> call.count >= AlignedLen(listing[j])
  }

  /** With such calls all that the host has not yet read is delivered in the end; from the beginning, the whole directory. */
  lemma {:induction false} SeriesFinishes(listing: seq<Entry>, p: Place, calls: seq<Call>)
    requires ValidListing(listing) && Inside(listing, p) && |listing| <= Start(p) + |calls|
    requires forall i :: 0 <= i < |calls| ==> Ample(listing, calls[i])
    ensures Start(Final(listing, p, calls)) == |listing| && Read(listing, p, calls) == Listed(listing, Start(p), |listing|)
    decreases calls
  {
    DecodeNothing(listing, Start(p));
    if calls != [] {
      assert Ample(listing, calls[0]);
      var next := Next(listing, p, calls[0]);
      CallDelivers(listing, p, calls[0]);
      if Start(p) < |listing| {
        CallMakesProgress(listing, p, calls[0]);
        ListedSplit(listing, Start(p), Start(next), |listing|);
      } else {
        assert Start(next) == |listing|;
      }
      SeriesFinishes(listing, next, calls[1..]);
    }
  }
}
