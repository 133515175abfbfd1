/**
  The registrations of an epoll instance as values (IXLandSystem/fs/eventpoll.c): sixteen buckets of items,
  doubly linked, that refine a map from descriptors to items.
 */
module EpollIndex {
  import opened Links

  const HASH_SIZE := 16

  datatype Event = Event(events: bv32, data: int)

  class Item {
    const fd: nat
    var event: Event
    var edgeTriggered: bool
    var next: Item?
    var prev: Item?
    /** Never assigned after calloc. */
    const registeredEvents: bv32 := 0

    constructor (fd: nat, event: Event, edgeTriggered: bool)
      ensures this.fd == fd && this.event == event && this.edgeTriggered == edgeTriggered && next == null && prev == null
    {
      this.fd, this.event, this.edgeTriggered, next, prev := fd, event, edgeTriggered, null, null;
    }
  }

  /** epoll_hash: masking with hash_size - 1 is the remainder, because the size is a power of two. */
  function Hash(fd: nat): (b: nat)
    ensures b < HASH_SIZE
  {
    fd % HASH_SIZE
  }

  datatype Index = Index(heads: seq<Item?>, next: map<Item?, Item?>, prev: map<Item, Item?>, chains: seq<seq<Item>>, byFd: map<nat, Item>)

  ghost predicate Sits(x: Index, b: int, t: Item) {
    t in x.prev && Hash(t.fd) == b && t.fd in x.byFd && x.byFd[t.fd] == t
  }

  /** The i-th item of the bucket points back to the one before it. */
  ghost predicate BackOk(x: Index, chain: seq<Item>, i: int) {
    0 <= i < |chain| ==> chain[i] in x.prev && x.prev[chain[i]] == if i == 0 then null else chain[i - 1]
  }

  ghost predicate BucketOk(x: Index, b: int) {
    0 <= b < |x.heads| == |x.chains| ==>
      && Path(x.next, null, x.heads[b], x.chains[b])
      && (forall i {:trigger BackOk(x, x.chains[b], i)} :: BackOk(x, x.chains[b], i))
      && (forall t {:trigger Sits(x, b, t)} :: t in x.chains[b] ==> Sits(x, b, t))
  }

  ghost predicate EntryOk(x: Index, fd: nat) {
    fd in x.byFd && |x.chains| == HASH_SIZE ==> x.byFd[fd].fd == fd && x.byFd[fd] in x.chains[Hash(fd)]
  }

  /**
    Every bucket is a doubly linked list of items whose descriptors belong there; an item is found under
    its descriptor, and each registered descriptor has its item in its bucket.
   */
  ghost predicate Indexed(x: Index) {
    && |x.heads| == |x.chains| == HASH_SIZE
    && (forall b {:trigger BucketOk(x, b)} :: BucketOk(x, b))
    && (forall fd {:trigger EntryOk(x, fd)} :: EntryOk(x, fd))
  }

  function Put(x: Index, t: Item): Index
    requires |x.heads| == |x.chains| == HASH_SIZE
  {
    var b := Hash(t.fd);
    var prev := x.prev[t := null];
    var h := x.heads[b];
    Index(x.heads[b := t], x.next[t := h], if h == null then prev else prev[h := t],
      x.chains[b := [t] + x.chains[b]], x.byFd[t.fd := t])
  }

  function Cut(x: Index, t: Item, i: nat): Index
    requires |x.heads| == |x.chains| == HASH_SIZE && i < |x.chains[Hash(t.fd)]| && t in x.next
  {
    var b := Hash(t.fd);
    var s, n := x.chains[b], x.next[t];
    Index(if i == 0 then x.heads[b := n] else x.heads,
      if i == 0 then x.next else x.next[s[i - 1] := n],
      if n == null then x.prev else x.prev[n := if i == 0 then null else s[i - 1]],
      x.chains[b := Without(s, i)], x.byFd - {t.fd})
  }

  /** What else is there to say of the items of a bucket: where they are and where they are not. */
  lemma BucketItems(x: Index, b: int)
    requires Indexed(x) && 0 <= b < HASH_SIZE
    ensures NoDup(x.chains[b]) && Path(x.next, null, x.heads[b], x.chains[b])
    ensures forall t {:trigger t in x.chains[b]} :: t in x.chains[b] ==> Sits(x, b, t)
    ensures forall i {:trigger BackOk(x, x.chains[b], i)} :: BackOk(x, x.chains[b], i)
  {
    assert BucketOk(x, b);
    PathIsAcyclic(x.next, null, x.heads[b], x.chains[b]);
    forall t | t in x.chains[b] ensures Sits(x, b, t) { }
  }

  lemma PutKeeps(x: Index, t: Item)
    requires Indexed(x) && t.fd !in x.byFd && t !in x.next
    ensures Indexed(Put(x, t))
  {
    var x', h := Put(x, t), Hash(t.fd);
    forall b ensures BucketOk(x', b) {
      if 0 <= b < HASH_SIZE {
        BucketItems(x, b);
        BucketItems(x, h);
        if b == h {
          PutBucket(x, t);
        } else {
          OtherBucketPut(x, t, b);
        }
      }
    }
    forall fd ensures EntryOk(x', fd) {
      assert EntryOk(x, fd);
    }
  }

  lemma PutBucket(x: Index, t: Item)
    requires Indexed(x) && t.fd !in x.byFd && t !in x.next
    ensures BucketOk(Put(x, t), Hash(t.fd))
  {
    var x', b := Put(x, t), Hash(t.fd);
    var s := x.chains[b];
    BucketItems(x, b);
    assert t !in s;
    PathPrepend(x.next, null, x.heads[b], s, t);
    forall i ensures BackOk(x', [t] + s, i) {
      if 0 < i <= |s| {
        assert s[i - 1] in s && s[0] in s;
        assert BackOk(x, s, i - 1) && Sits(x, b, s[i - 1]);
      }
    }
    forall u | u in [t] + s ensures Sits(x', b, u) {
      assert u == t || Sits(x, b, u);
    }
  }

  lemma OtherBucketPut(x: Index, t: Item, b: int)
    requires Indexed(x) && t.fd !in x.byFd && t !in x.next && 0 <= b < HASH_SIZE && b != Hash(t.fd)
    ensures BucketOk(Put(x, t), b)
  {
    var x', h := Put(x, t), Hash(t.fd);
    var s := x.chains[b];
    BucketItems(x, b);
    BucketItems(x, h);
    if x.chains[h] != [] {
      assert x.heads[h] in x.chains[h];
    }
    forall u | u in s ensures Sits(x', b, u) && u != t && u != x.heads[h] {
      assert Sits(x, b, u);
    }
    PathFrame(x.next, x'.next, null, x.heads[b], s);
    forall i ensures BackOk(x', s, i) {
      assert BackOk(x, s, i);
      if 0 <= i < |s| {
        assert s[i] in s;
      }
    }
  }

  lemma CutKeeps(x: Index, t: Item, i: nat)
    requires Indexed(x) && i < |x.chains[Hash(t.fd)]| && x.chains[Hash(t.fd)][i] == t
    ensures t in x.next && Indexed(Cut(x, t, i)) && t.fd in x.byFd
  {
    var h := Hash(t.fd);
    BucketItems(x, h);
    PathAt(x.next, null, x.heads[h], x.chains[h], i);
    assert t in x.chains[h];
    var x' := Cut(x, t, i);
    forall b ensures BucketOk(x', b) {
      if 0 <= b < HASH_SIZE {
        if b == h {
          CutBucket(x, t, i);
        } else {
          OtherBucketCut(x, t, i, b);
        }
      }
    }
    forall fd ensures EntryOk(x', fd) {
      assert EntryOk(x, fd);
      if fd in x'.byFd && Hash(fd) == h {
        WithoutMembers(x.chains[h], i, x.byFd[fd]);
      }
    }
  }

  lemma CutBucket(x: Index, t: Item, i: nat)
    requires Indexed(x) && i < |x.chains[Hash(t.fd)]| && x.chains[Hash(t.fd)][i] == t && t in x.next
    ensures BucketOk(Cut(x, t, i), Hash(t.fd))
  {
    var x', b := Cut(x, t, i), Hash(t.fd);
    var s := x.chains[b];
    var r := Without(s, i);
    BucketItems(x, b);
    PathRemove(x.next, null, x.heads[b], s, i);
    PathAt(x.next, null, x.heads[b], s, i);
    forall j ensures BackOk(x', r, j) {
      if 0 <= j < |r| {
        assert BackOk(x, s, if j < i then j else j + 1);
      }
    }
    assert s[i] in s;
    forall u | u in r ensures Sits(x', b, u) {
      WithoutMembers(s, i, u);
      assert Sits(x, b, u) && Sits(x, b, t);
    }
  }

  lemma OtherBucketCut(x: Index, t: Item, i: nat, b: int)
    requires Indexed(x) && i < |x.chains[Hash(t.fd)]| && x.chains[Hash(t.fd)][i] == t && t in x.next
    requires 0 <= b < HASH_SIZE && b != Hash(t.fd)
    ensures BucketOk(Cut(x, t, i), b)
  {
    var x', h := Cut(x, t, i), Hash(t.fd);
    var s := x.chains[b];
    BucketItems(x, b);
    BucketItems(x, h);
    PathAt(x.next, null, x.heads[h], x.chains[h], i);
    forall u | u in s ensures Sits(x', b, u) && u !in x.chains[h] {
      assert Sits(x, b, u);
      assert !Sits(x, h, u);
    }
    PathFrame(x.next, x'.next, null, x.heads[b], s);
    forall j ensures BackOk(x', s, j) {
      assert BackOk(x, s, j);
      if 0 <= j < |s| {
        assert s[j] in s;
      }
    }
  }
}
