/**
  The directory records of IXLandSystem/fs/dirent.h: how readdir.c lays them out in a buffer, and how a
  reader of the buffer takes them apart again by their d_reclen.
 */
module Dirents {
  import opened Sequences

  newtype byte = x: int | 0 <= x < 256

  const TWO_64 := 0x1_0000_0000_0000_0000

  // Unsigned numbers in memory, the lowest byte first.

  /** A number stored in a field of that many bytes; what does not fit is cut off. */
  function Put(n: nat, width: nat): (s: seq<byte>)
    ensures |s| == width
  {
    if width == 0 then [] else [(n % 256) as byte] + Put(n / 256, width - 1)
  }

  function Get(s: seq<byte>): nat {
    if s == [] then 0 else s[0] as nat + 256 * Get(s[1..])
  }

  /** How many numbers a field of that many bytes can hold. */
  function Range(width: nat): nat {
    if width == 0 then 1 else 256 * Range(width - 1)
  }

  lemma {:induction false} RoundTrip(n: nat, width: nat)
    requires n < Range(width)
    ensures Get(Put(n, width)) == n
  {
    if width > 0 {
      RoundTrip(n / 256, width - 1);
      assert Put(n, width)[1..] == Put(n / 256, width - 1);
    }
  }

  lemma Ranges()
    ensures Range(8) == TWO_64 && Range(2) == 0x1_0000
  {
  }

  const NAME_OFFSET := 19
  const NAME_MAX := 1023

  /** struct dirent of the host. */
  datatype Entry = Entry(ino: nat, dtype: byte, name: seq<byte>)

  predicate ValidEntry(e: Entry) {
    e.ino < TWO_64 && |e.name| <= NAME_MAX && 0 !in e.name
  }

  predicate ValidListing(listing: seq<Entry>) {
    |listing| < TWO_64 && forall i :: 0 <= i < |listing| ==> ValidEntry(listing[i])
  }

  /** ixland_map_dtype; the host's numbers are those of Darwin. */
  function MapDtype(dtype: byte): byte {
    match dtype
    case 1 => 1
    case 2 => 2
    case 4 => 4
    case 6 => 6
    case 8 => 8
    case 10 => 10
    case 12 => 12
    case 14 => 14
    case _ => 0
  }

  function RecordLen(e: Entry): nat {
    NAME_OFFSET + |e.name| + 1
  }

  /** The record length in units of eight bytes. */
  function Words(e: Entry): (n: nat)
    ensures RecordLen(e) <= 8 * n < RecordLen(e) + 8
  {
    (RecordLen(e) + 7) / 8
  }

  function AlignedLen(e: Entry): nat {
    8 * Words(e)
  }

  function Zeros(n: nat): (s: seq<byte>)
    ensures |s| == n
  {
    seq(n, _ => 0)
  }

  function Concat(parts: seq<seq<byte>>): seq<byte> {
    if parts == [] then [] else parts[0] + Concat(parts[1..])
  }

  /** The fields of a record, one after the other; only the name and the padding vary in length. */
  function Fields(e: Entry, off: nat): seq<seq<byte>>
    requires ValidEntry(e) && off < TWO_64
  {
    [Put(e.ino, 8), Put(off, 8), Put(AlignedLen(e), 2), [MapDtype(e.dtype)], e.name + [0], Zeros(AlignedLen(e) - RecordLen(e))]
  }

  /** The record of an entry that is followed by offset off. */
  function Record(e: Entry, off: nat): (s: seq<byte>)
    requires ValidEntry(e) && off < TWO_64
    ensures |s| == AlignedLen(e)
  {
    RecordIs(e, off);
    Concat(Fields(e, off))
  }

  lemma RecordIs(e: Entry, off: nat)
    requires ValidEntry(e) && off < TWO_64
    ensures Concat(Fields(e, off)) ==
      Put(e.ino, 8) + Put(off, 8) + Put(AlignedLen(e), 2) + [MapDtype(e.dtype)] + (e.name + [0]) + Zeros(AlignedLen(e) - RecordLen(e))
  {
    var f := Fields(e, off);
    assert f[1..][1..] == f[2..] && f[2..][1..] == f[3..] && f[3..][1..] == f[4..] && f[4..][1..] == f[5..] && f[5..][1..] == [];
    assert Concat(f[5..]) == f[5] && Concat(f[4..]) == f[4] + f[5] && Concat(f[3..]) == f[3] + (f[4] + f[5]);
    assert Concat(f[2..]) == f[2] + (f[3] + (f[4] + f[5])) && Concat(f[1..]) == f[1] + (f[2] + (f[3] + (f[4] + f[5])));
  }

  /** The records of the entries from..to, each with the offset that follows it. */
  function Pack(listing: seq<Entry>, from: nat, to: nat): seq<byte>
    requires ValidListing(listing) && from <= to <= |listing|
  {
    if from == to then [] else Pack(listing, from, to - 1) + Record(listing[to - 1], to)
  }

  // -- a reader of the buffer --

  datatype Seen = Seen(ino: nat, off: nat, dtype: byte, name: seq<byte>)

  function UpToZero(s: seq<byte>): seq<byte> {
    if s == [] || s[0] == 0 then [] else [s[0]] + UpToZero(s[1..])
  }

  function RecLen(buf: seq<byte>): nat
    requires |buf| > NAME_OFFSET
  {
    Get(buf[16..18])
  }

  /** The records of the buffer, each found at d_reclen behind the one before it. */
  function Decode(buf: seq<byte>): seq<Seen> {
    if |buf| <= NAME_OFFSET || RecLen(buf) <= NAME_OFFSET || RecLen(buf) > |buf| then []
    else [FirstSeen(buf)] + Decode(buf[RecLen(buf)..])
  }

  function FirstSeen(buf: seq<byte>): Seen
    requires |buf| > NAME_OFFSET && NAME_OFFSET < RecLen(buf) <= |buf|
  {
    Seen(Get(buf[..8]), Get(buf[8..16]), buf[18], UpToZero(buf[NAME_OFFSET..RecLen(buf)]))
  }

  /** What a reader should see of an entry that is followed by offset off. */
  function SeenAs(e: Entry, off: nat): Seen {
    Seen(e.ino, off, MapDtype(e.dtype), e.name)
  }

  /** What a reader should see of the entries from..to. */
  function Listed(listing: seq<Entry>, from: nat, to: nat): (s: seq<Seen>)
    requires from <= to <= |listing|
    ensures |s| == to - from
    decreases |listing| - from
  {
    if from == to then [] else [SeenAs(listing[from], from + 1)] + Listed(listing, from + 1, to)
  }

  lemma {:induction false} UpToZeroIs(name: seq<byte>, rest: seq<byte>)
    requires 0 !in name && (rest == [] || rest[0] == 0)
    ensures UpToZero(name + rest) == name
  {
    if name == [] {
      assert name + rest == rest;
    } else {
      assert name[0] in name;
      UpToZeroIs(name[1..], rest);
      assert (name + rest)[1..] == name[1..] + rest;
    }
  }

  /** The parts of a record where the reader looks for them. */
  lemma RecordParts(e: Entry, off: nat, rest: seq<byte>)
    requires ValidEntry(e) && off < TWO_64
    ensures var buf, n := Record(e, off) + rest, AlignedLen(e);
      && buf[..8] == Put(e.ino, 8) && buf[8..16] == Put(off, 8) && buf[16..18] == Put(n, 2)
      && buf[18] == MapDtype(e.dtype) && buf[NAME_OFFSET..n] == e.name + ([0] + Zeros(n - RecordLen(e)))
      && buf[n..] == rest
  {
    var name, zeros := e.name + [0], Zeros(AlignedLen(e) - RecordLen(e));
    RecordIs(e, off);
    Parts(Put(e.ino, 8), Put(off, 8), Put(AlignedLen(e), 2), [MapDtype(e.dtype)], name, zeros, rest);
    Associates(e.name, [0], zeros);
  }

  lemma Parts(ino: seq<byte>, off: seq<byte>, len: seq<byte>, dtype: seq<byte>, name: seq<byte>, zeros: seq<byte>, rest: seq<byte>)
    requires |ino| == |off| == 8 && |len| == 2 && |dtype| == 1
    ensures var buf, n := ino + off + len + dtype + name + zeros + rest, NAME_OFFSET + |name| + |zeros|;
      && buf[..8] == ino && buf[8..16] == off && buf[16..18] == len && buf[18] == dtype[0]
      && buf[NAME_OFFSET..n] == name + zeros && buf[n..] == rest
  {
  }

  lemma DecodeRecord(buf: seq<byte>, e: Entry, off: nat, rest: seq<byte>)
    requires ValidEntry(e) && off < TWO_64 && buf == Record(e, off) + rest
    ensures Decode(buf) == [SeenAs(e, off)] + Decode(rest)
  {
    RecordParts(e, off, rest);
    Ranges();
    RoundTrip(e.ino, 8);
    RoundTrip(off, 8);
    RoundTrip(AlignedLen(e), 2);
    UpToZeroIs(e.name, [0] + Zeros(AlignedLen(e) - RecordLen(e)));
  }

  /** Packing from the front. */
  lemma {:induction false} PackFirst(listing: seq<Entry>, from: nat, to: nat)
    requires ValidListing(listing) && from < to <= |listing|
    ensures Pack(listing, from, to) == Record(listing[from], from + 1) + Pack(listing, from + 1, to)
  {
    var first, last := Record(listing[from], from + 1), Record(listing[to - 1], to);
    if from + 1 == to {
      assert [] + last == last && first + [] == first;
    } else {
      PackFirst(listing, from, to - 1);
      Associates(first, Pack(listing, from + 1, to - 1), last);
    }
  }

  lemma {:induction false} ListedSplit(listing: seq<Entry>, from: nat, mid: nat, to: nat)
    requires from <= mid <= to <= |listing|
    ensures Listed(listing, from, to) == Listed(listing, from, mid) + Listed(listing, mid, to)
    decreases |listing| - from
  {
    if from < mid {
      ListedSplit(listing, from + 1, mid, to);
    }
  }

  /** The first record is read, and the reader goes on behind it. */
  lemma DecodeFirst(listing: seq<Entry>, from: nat, to: nat)
    requires ValidListing(listing) && from < to <= |listing|
    ensures Decode(Pack(listing, from, to)) == [SeenAs(listing[from], from + 1)] + Decode(Pack(listing, from + 1, to))
  {
    PackFirst(listing, from, to);
    DecodeRecord(Pack(listing, from, to), listing[from], from + 1, Pack(listing, from + 1, to));
  }

  lemma DecodeNothing(listing: seq<Entry>, from: nat)
    requires ValidListing(listing) && from <= |listing|
    ensures Pack(listing, from, from) == [] && Decode([]) == [] == Listed(listing, from, from)
  {
  }

  /** A reader finds exactly the entries that were packed. */
  lemma {:induction false} DecodePack(listing: seq<Entry>, from: nat, to: nat)
    requires ValidListing(listing) && from <= to <= |listing|
    ensures Decode(Pack(listing, from, to)) == Listed(listing, from, to)
    decreases |listing| - from
  {
    if from == to {
      DecodeNothing(listing, from);
    } else {
      DecodePack(listing, from + 1, to);
      DecodeFirst(listing, from, to);
    }
  }

  /** Every record takes up a multiple of eight bytes. */
  lemma {:induction false} PackAligned(listing: seq<Entry>, from: nat, to: nat)
    requires ValidListing(listing) && from <= to <= |listing|
    ensures |Pack(listing, from, to)| == 8 * Total(listing, from, to)
  {
    if from < to {
      PackAligned(listing, from, to - 1);
    }
  }

  function Total(listing: seq<Entry>, from: nat, to: nat): nat
    requires from <= to <= |listing|
  {
    if from == to then 0 else Total(listing, from, to - 1) + Words(listing[to - 1])
  }

  /**
    What a reader sees of each packed entry: its inode and name as they were, the offset behind it, and its
    type if that is one of the eight that the two systems number alike.
   */
  lemma EntriesReadBack(listing: seq<Entry>, from: nat, to: nat, i: nat)
    requires ValidListing(listing) && from <= to <= |listing| && i < to - from
    ensures var seen, e := Decode(Pack(listing, from, to)), listing[from + i];
      && |seen| == to - from && seen[i].ino == e.ino && seen[i].name == e.name && seen[i].off == from + i + 1
      && seen[i].dtype == if e.dtype in {1, 2, 4, 6, 8, 10, 12, 14} then e.dtype else 0
  {
    DecodePack(listing, from, to);
    ListedAt(listing, from, to, i);
  }

  lemma {:induction false} ListedAt(listing: seq<Entry>, from: nat, to: nat, i: nat)
    requires from <= to <= |listing| && i < to - from
    ensures Listed(listing, from, to)[i] == SeenAs(listing[from + i], from + i + 1)
    decreases i
  {
    if i > 0 {
      ListedAt(listing, from + 1, to, i - 1);
    }
  }
}
