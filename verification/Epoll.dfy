/** IXLandSystem/fs/eventpoll.c: epoll_ctl and the hash index of registrations; kevent either succeeds or fails. */
module Epoll {
  import opened Wrappers
  import opened Links
  import opened EpollIndex

  const EPOLL_CTL_ADD := 1
  const EPOLL_CTL_DEL := 2
  const EPOLL_CTL_MOD := 3

  const READ_EVENTS: bv32 := 0xC3
  const WRITE_EVENTS: bv32 := 0x204
  const EPOLLONESHOT: bv32 := 0x4000_0000
  const EPOLLET: bv32 := 0x8000_0000

  datatype Errno = EOK | EBADF | EINVAL | EEXIST | ENOENT | EPERM

  /** epoll_build_kevents: the number of changes for the kernel queue. */
  function ChangeCount(events: bv32): nat {
    (if events & READ_EVENTS != 0 then 1 else 0) + (if events & WRITE_EVENTS != 0 then 1 else 0)
  }

  /** kevent is called when there are changes, and keventOk says how it ends. */
  predicate QueueRefuses(event: Event, keventOk: bool) {
    ChangeCount(event.events & !EPOLLONESHOT) > 0 && !keventOk
  }

  // -- what a call does to the registrations --

  /** A request of epoll_ctl that has got past the checks of its descriptors. */
  datatype Request = Request(op: int, fd: nat, event: Option<Event>, keventOk: bool)

  function Answer(reg: map<nat, Event>, q: Request): Errno {
    if q.op == EPOLL_CTL_ADD then
      if q.event.None? then EINVAL else if q.fd in reg then EEXIST else if QueueRefuses(q.event.value, q.keventOk) then EPERM else EOK
    else if q.op == EPOLL_CTL_DEL then
      if q.fd !in reg then ENOENT else EOK
    else if q.op == EPOLL_CTL_MOD then
      if q.event.None? then EINVAL else if q.fd !in reg then ENOENT else if QueueRefuses(q.event.value, q.keventOk) then EPERM else EOK
    else EINVAL
  }

  /** A refused ADD registers nothing; a refused MOD has already changed the event. */
  function After(reg: map<nat, Event>, q: Request): map<nat, Event> {
    var e := Answer(reg, q);
    if q.op == EPOLL_CTL_ADD && e == EOK then reg[q.fd := q.event.value]
    else if q.op == EPOLL_CTL_DEL && e == EOK then reg - {q.fd}
    else if q.op == EPOLL_CTL_MOD && (e == EOK || e == EPERM) then reg[q.fd := q.event.value]
    else reg
  }

  /**
    A call that fails changes the registrations if and only if it is a MOD of a registered descriptor to a
    different event, which the kernel queue refuses.
   */
  lemma ErrorsChangeNothing(reg: map<nat, Event>, q: Request)
    ensures Answer(reg, q) != EOK && After(reg, q) != reg <==>
      && q.op == EPOLL_CTL_MOD && q.fd in reg && q.event.Some? && QueueRefuses(q.event.value, q.keventOk)
      && reg[q.fd] != q.event.value
  {
    if q.op == EPOLL_CTL_MOD && q.fd in reg && q.event.Some? {
      assert reg[q.fd := q.event.value][q.fd] == q.event.value;
    }
  }

  /** Such a request: the descriptor was registered for input, and a MOD to output fails. */
  lemma RefusedModReplaces()
    ensures var reg, q := map[3 := Event(1, 0)], Request(EPOLL_CTL_MOD, 3, Some(Event(4, 0)), false);
      Answer(reg, q) == EPERM && After(reg, q) == map[3 := Event(4, 0)] != reg
  {
    var masked: bv32 := 4 & !EPOLLONESHOT;
    assert masked == 4 && masked & WRITE_EVENTS == 4;
    assert map[3 := Event(1, 0)][3] != map[3 := Event(4, 0)][3];
  }

  /** The queue has nothing to change for the new event of a MOD; a caller can tell. */
  predicate AsksNothing(q: Request) {
    q.op != EPOLL_CTL_MOD || q.event.None? || ChangeCount(q.event.value.events & !EPOLLONESHOT) == 0
  }

  /** The requests that succeed, when they are made one after the other. */
  function Succeeding(reg: map<nat, Event>, run: seq<Request>): seq<Request> {
    if run == [] then []
    else
      var n := |run| - 1;
      Succeeding(reg, run[..n]) + if Answer(AfterAll(reg, run[..n]), run[n]) == EOK then [run[n]] else []
  }

  /** If every MOD asks nothing of the queue, or is not refused, a run comes to what its successful requests come to. */
  lemma {:induction false} FailuresDropOut(reg: map<nat, Event>, run: seq<Request>)
    requires forall i :: 0 <= i < |run| ==> AsksNothing(run[i]) || run[i].keventOk
    ensures AfterAll(reg, run) == AfterAll(reg, Succeeding(reg, run))
  {
    if run != [] {
      var n := |run| - 1;
      var before := AfterAll(reg, run[..n]);
      FailuresDropOut(reg, run[..n]);
      assert AsksNothing(run[n]) || run[n].keventOk;
      ErrorsChangeNothing(before, run[n]);
      if Answer(before, run[n]) == EOK {
        AfterOneMore(reg, Succeeding(reg, run[..n]), run[n]);
      } else {
        assert Succeeding(reg, run) == Succeeding(reg, run[..n]);
      }
    }
  }

  function AfterAll(reg: map<nat, Event>, run: seq<Request>): map<nat, Event> {
    if run == [] then reg else After(AfterAll(reg, run[..|run| - 1]), run[|run| - 1])
  }

  function Lookup(reg: map<nat, Event>, fd: nat): Option<Event> {
    if fd in reg then Some(reg[fd]) else None
  }

  /** Which request is refused as what. */
  lemma AnswersTell(reg: map<nat, Event>, q: Request)
    ensures Answer(reg, q) == EEXIST <==> q.op == EPOLL_CTL_ADD && q.event.Some? && q.fd in reg
    ensures Answer(reg, q) == ENOENT <==>
      q.fd !in reg && (q.op == EPOLL_CTL_DEL || (q.op == EPOLL_CTL_MOD && q.event.Some?))
    ensures Answer(reg, q) == EINVAL <==>
      if q.op in {EPOLL_CTL_ADD, EPOLL_CTL_MOD} then q.event.None? else q.op != EPOLL_CTL_DEL
    ensures Answer(reg, q) == EPERM <==>
      && q.event.Some? && QueueRefuses(q.event.value, q.keventOk)
      && (if q.op == EPOLL_CTL_ADD then q.fd !in reg else q.op == EPOLL_CTL_MOD && q.fd in reg)
    ensures Answer(reg, q) in {EOK, EEXIST, ENOENT, EINVAL, EPERM}
  {
  }

  /** The i-th request of the run is about fd and took effect: it succeeded, or is a MOD that was refused too late. */
  ghost predicate Says(reg: map<nat, Event>, run: seq<Request>, fd: nat, i: int) {
    0 <= i < |run| && run[i].fd == fd &&
    var answer := Answer(AfterAll(reg, run[..i]), run[i]);
    answer == EOK || (run[i].op == EPOLL_CTL_MOD && answer == EPERM)
  }

  /** It is the last one that did. */
  ghost predicate SaysLast(reg: map<nat, Event>, run: seq<Request>, fd: nat, i: int) {
    Says(reg, run, fd, i) && forall j :: i < j < |run| ==> !Says(reg, run, fd, j)
  }

  lemma SaysEarlier(reg: map<nat, Event>, run: seq<Request>, fd: nat, n: nat, i: int)
    requires |run| == n + 1 && i < n
    ensures Says(reg, run, fd, i) <==> Says(reg, run[..n], fd, i)
  {
    if 0 <= i {
      assert run[..n][..i] == run[..i] && run[..n][i] == run[i];
    }
  }

  lemma OneRequest(reg: map<nat, Event>, q: Request, fd: nat)
    ensures Lookup(After(reg, q), fd) ==
      if q.fd == fd && (Answer(reg, q) == EOK || (q.op == EPOLL_CTL_MOD && Answer(reg, q) == EPERM))
      then if q.op == EPOLL_CTL_DEL then None else q.event
      else Lookup(reg, fd)
  {
  }

  /**
    After any run, what is registered for a descriptor is the event of the last ADD or MOD for it that took
    effect, unless a DEL has succeeded since ...
   */
  lemma {:induction false} RegistrationTellsHistory(reg: map<nat, Event>, run: seq<Request>, fd: nat, i: nat)
    requires SaysLast(reg, run, fd, i)
    ensures Lookup(AfterAll(reg, run), fd) == if run[i].op == EPOLL_CTL_DEL then None else run[i].event
    decreases run
  {
    var n := |run| - 1;
    OneRequest(AfterAll(reg, run[..n]), run[n], fd);
    if i < n {
      assert !Says(reg, run, fd, n);
      forall j | i <= j < n ensures Says(reg, run[..n], fd, j) <==> j == i {
        SaysEarlier(reg, run, fd, n, j);
      }
      RegistrationTellsHistory(reg, run[..n], fd, i);
    }
  }

  /** ... and if no request for it took effect, it is what was registered before. */
  lemma {:induction false} RegistrationUntouched(reg: map<nat, Event>, run: seq<Request>, fd: nat)
    requires forall i :: !Says(reg, run, fd, i)
    ensures Lookup(AfterAll(reg, run), fd) == Lookup(reg, fd)
    decreases run
  {
    if run != [] {
      var n := |run| - 1;
      OneRequest(AfterAll(reg, run[..n]), run[n], fd);
      assert !Says(reg, run, fd, n);
      forall j ensures !Says(reg, run[..n], fd, j) {
        if j < n {
          SaysEarlier(reg, run, fd, n, j);
        }
      }
      RegistrationUntouched(reg, run[..n], fd);
    }
  }

  /** The requests of the run for one descriptor. */
  function Only(run: seq<Request>, fd: nat): seq<Request> {
    if run == [] then []
    else Only(run[..|run| - 1], fd) + if run[|run| - 1].fd == fd then [run[|run| - 1]] else []
  }

  /** What is registered for a descriptor after any run depends on the requests for that descriptor alone. */
  lemma {:induction false} DescriptorsAreIndependent(reg: map<nat, Event>, run: seq<Request>, fd: nat)
    ensures Lookup(AfterAll(reg, run), fd) == Lookup(AfterAll(reg, Only(run, fd)), fd)
  {
    if run != [] {
      var n := |run| - 1;
      var q, mine := run[n], Only(run[..n], fd);
      DescriptorsAreIndependent(reg, run[..n], fd);
      if q.fd == fd {
        assert Only(run, fd) == mine + [q];
        AfterOneMore(reg, mine, q);
        OneRequest(AfterAll(reg, run[..n]), q, fd);
        OneRequest(AfterAll(reg, mine), q, fd);
      } else {
        assert Only(run, fd) == mine;
        OneRequest(AfterAll(reg, run[..n]), q, fd);
      }
    }
  }

  lemma AfterOneMore(reg: map<nat, Event>, run: seq<Request>, q: Request)
    ensures AfterAll(reg, run + [q]) == After(AfterAll(reg, run), q)
  {
    assert (run + [q])[..|run|] == run;
  }

  // -- the index --

  ghost predicate Shown(x: Index, reg: map<nat, Event>, t: Item)
    reads t`next, t`prev, t`event
  {
    && t in x.next && x.next[t] == t.next && t in x.prev && x.prev[t] == t.prev
    && t.fd in reg && reg[t.fd] == t.event && t.fd in x.byFd && x.byFd[t.fd] == t
  }

  ghost predicate AllShown(x: Index, reg: map<nat, Event>, live: set<Item>)
    reads live`next, live`prev, live`event
  {
    forall t {:trigger Shown(x, reg, t)} :: t in live ==> Shown(x, reg, t)
  }

  /** The live items are those that the descriptors lead to. */
  ghost predicate LiveOk(byFd: map<nat, Item>, live: set<Item>, fd: nat) {
    fd in byFd ==> byFd[fd] in live
  }

  ghost predicate AllLive(byFd: map<nat, Item>, live: set<Item>) {
    forall fd {:trigger LiveOk(byFd, live, fd)} :: LiveOk(byFd, live, fd)
  }

  class Instance {
    const items: array<Item?>
    var itemCount: int
    ghost var index: Index
    ghost var live: set<Item>
    /** The event registered for each descriptor. */
    ghost var reg: map<nat, Event>

    ghost predicate Valid()
      reads this, items, live`next, live`prev, live`event
    {
      && items[..] == index.heads && Indexed(index) && AllShown(index, reg, live)
      && AllLive(index.byFd, live) && index.byFd.Keys == reg.Keys && itemCount == |reg|
    }

    /** epoll_create1 */
    constructor ()
      ensures Valid() && fresh(items) && reg == map[] && live == {}
    {
      items := new Item?[HASH_SIZE](_ => null);
      itemCount := 0;
      index := Index(seq(HASH_SIZE, _ => null), map[], map[], seq(HASH_SIZE, _ => []), map[]);
      live, reg := {}, map[];
      new;
      forall b ensures BucketOk(index, b) { }
    }

    /** epoll_find_item: a registered descriptor has its item, and nothing else is found. */
    method FindItem(fd: nat) returns (item: Item?)
      requires Valid()
      ensures item == if fd in reg then index.byFd[fd] else null
      ensures item != null ==> item in live && item.fd == fd
    {
      var idx := Hash(fd);
      ghost var s := index.chains[idx];
      BucketItems(index, idx);
      item := items[idx];
      ghost var j := 0;
      assert s[0..] == s;
      while item != null
        invariant j <= |s| && item == if j < |s| then s[j] else null
        invariant forall i :: 0 <= i < j ==> s[i].fd != fd
        decreases |s| - j
      {
        assert item in s && Sits(index, idx, item) && LiveOk(index.byFd, live, item.fd);
        if item.fd == fd {
          return;
        }
        PathAt(index.next, null, index.heads[idx], s, j);
        assert Shown(index, reg, item);
        item := item.next;
        j := j + 1;
      }
      assert EntryOk(index, fd);
    }

    ghost method Record(x: Index, reg': map<nat, Event>, live': set<Item>)
      requires items[..] == x.heads && Indexed(x) && AllShown(x, reg', live')
      requires AllLive(x.byFd, live') && x.byFd.Keys == reg'.Keys && itemCount == |reg'|
      modifies this`index, this`live, this`reg
      ensures Valid() && reg == reg' && live == live'
    {
      index, reg, live := x, reg', live';
    }

    /** epoll_add_item */
    method AddItem(item: Item)
      requires Valid() && item !in index.next && item !in live && item.fd !in reg
      modifies this`itemCount, this`index, this`live, this`reg, items, live`prev, item`next, item`prev
      ensures Valid() && reg == old(reg)[item.fd := item.event] && live == old(live) + {item}
    {
      PutKeeps(index, item);
      LiveGrows(index.byFd, live, item);
      LinkIn(items, item, index, reg, live);
      itemCount := itemCount + 1;
      Record(Put(index, item), reg[item.fd := item.event], live + {item});
    }

    /** epoll_remove_item */
    method RemoveItem(item: Item)
      requires Valid() && item.fd in reg && index.byFd[item.fd] == item
      modifies this`itemCount, this`index, this`live, this`reg, items, live`prev, live`next
      ensures Valid() && reg == old(reg) - {item.fd} && live == old(live) - {item}
    {
      ghost var i := Place(index, item);
      assert LiveOk(index.byFd, live, item.fd);
      Neighbours(index, item, i, live);
      assert (reg - {item.fd})[item.fd := reg[item.fd]] == reg;
      LinkOut(items, item, i, index, reg, live);
      itemCount := itemCount - 1;
      Record(Cut(index, item, i), reg - {item.fd}, live - {item});
    }
  }

  /** The new item goes to the head of its bucket. */
  method LinkIn(items: array<Item?>, item: Item, ghost x: Index, ghost reg: map<nat, Event>, ghost live: set<Item>)
    requires items[..] == x.heads && Indexed(x) && AllShown(x, reg, live) && AllLive(x.byFd, live)
    requires item !in x.next && item !in live && item.fd !in reg
    modifies items, live`prev, item`next, item`prev
    ensures items[..] == Put(x, item).heads && AllShown(Put(x, item), reg[item.fd := item.event], live + {item})
  {
    var idx := Hash(item.fd);
    HeadLive(x, idx, live);
    item.next := items[idx];
    item.prev := null;
    if items[idx] != null {
      items[idx].prev := item;
    }
    items[idx] := item;
    forall t | t in live + {item} ensures Shown(Put(x, item), reg[item.fd := item.event], t) {
      assert t == item || old(Shown(x, reg, t));
    }
  }

  lemma HeadLive(x: Index, b: int, live: set<Item>)
    requires Indexed(x) && AllLive(x.byFd, live) && 0 <= b < HASH_SIZE
    ensures x.heads[b] != null ==> x.heads[b] in live
  {
    BucketItems(x, b);
    if x.heads[b] != null {
      assert x.chains[b][0] in x.chains[b];
      assert Sits(x, b, x.heads[b]) && LiveOk(x.byFd, live, x.heads[b].fd);
    }
  }

  lemma LiveGrows(byFd: map<nat, Item>, live: set<Item>, t: Item)
    requires AllLive(byFd, live)
    ensures AllLive(byFd[t.fd := t], live + {t})
  {
    var byFd', live' := byFd[t.fd := t], live + {t};
    forall fd ensures LiveOk(byFd', live', fd) {
      assert LiveOk(byFd, live, fd);
    }
  }

  /** The neighbours of the item are linked to each other. */
  method LinkOut(items: array<Item?>, item: Item, ghost i: nat, ghost x: Index, ghost reg: map<nat, Event>, ghost live: set<Item>)
    requires items[..] == x.heads && |x.heads| == |x.chains| == HASH_SIZE && AllShown(x, reg, live) && item in live
    requires var s := x.chains[Hash(item.fd)];
      && i < |s| && item in x.next
      && x.next[item] == (if i + 1 < |s| then s[i + 1] else null) && (x.next[item] != null ==> x.next[item] in live - {item})
      && item in x.prev && x.prev[item] == (if i > 0 then s[i - 1] else null) && (x.prev[item] != null ==> x.prev[item] in live - {item})
    modifies items, live`prev, live`next
    ensures items[..] == Cut(x, item, i).heads && AllShown(Cut(x, item, i), reg - {item.fd}, live - {item})
  {
    assert Shown(x, reg, item);
    if item.prev != null {
      item.prev.next := item.next;
    } else {
      var idx := Hash(item.fd);
      items[idx] := item.next;
    }
    if item.next != null {
      item.next.prev := item.prev;
    }
    forall t | t in live - {item} ensures Shown(Cut(x, item, i), reg - {item.fd}, t) {
      assert old(Shown(x, reg, t));
    }
  }

  /** Where the item of a registered descriptor is. */
  lemma Place(x: Index, t: Item) returns (i: nat)
    requires Indexed(x) && t.fd in x.byFd && x.byFd[t.fd] == t
    ensures i < |x.chains[Hash(t.fd)]| && x.chains[Hash(t.fd)][i] == t
  {
    assert EntryOk(x, t.fd);
    i :| 0 <= i < |x.chains[Hash(t.fd)]| && x.chains[Hash(t.fd)][i] == t;
  }

  /** What its links say, and what remains without it. */
  lemma Neighbours(x: Index, t: Item, i: nat, live: set<Item>)
    requires Indexed(x) && AllLive(x.byFd, live) && i < |x.chains[Hash(t.fd)]| && x.chains[Hash(t.fd)][i] == t
    ensures var s := x.chains[Hash(t.fd)];
      && t in x.next && x.next[t] == (if i + 1 < |s| then s[i + 1] else null) && (x.next[t] != null ==> x.next[t] in live - {t})
      && t in x.prev && x.prev[t] == (if i > 0 then s[i - 1] else null) && (x.prev[t] != null ==> x.prev[t] in live - {t})
    ensures t.fd in x.byFd && Indexed(Cut(x, t, i)) && AllLive(Cut(x, t, i).byFd, live - {t})
  {
    var h := Hash(t.fd);
    var s := x.chains[h];
    BucketItems(x, h);
    CutKeeps(x, t, i);
    PathAt(x.next, null, x.heads[h], s, i);
    assert BackOk(x, s, i);
    if i + 1 < |s| {
      assert s[i + 1] in s;
      assert Sits(x, h, s[i + 1]) && LiveOk(x.byFd, live, s[i + 1].fd);
    }
    if i > 0 {
      assert s[i - 1] in s;
      assert Sits(x, h, s[i - 1]) && LiveOk(x.byFd, live, s[i - 1].fd);
    }
    forall fd ensures LiveOk(x.byFd - {t.fd}, live - {t}, fd) {
      assert LiveOk(x.byFd, live, fd) && EntryOk(x, fd);
    }
  }

  /** epoll_ctl once the descriptors have been checked. */
  method Control(epi: Instance, q: Request) returns (e: Errno)
    requires epi.Valid()
    modifies epi, epi.items, epi.live
    ensures epi.Valid() && e == Answer(old(epi.reg), q) && epi.reg == After(old(epi.reg), q)
    ensures var reg := old(epi.reg);
      if q.op == EPOLL_CTL_ADD then
        if q.event.None? then e == EINVAL && epi.reg == reg
        else if q.fd in reg then e == EEXIST && epi.reg == reg
        else if QueueRefuses(q.event.value, q.keventOk) then e == EPERM && epi.reg == reg
        else e == EOK && epi.reg == reg[q.fd := q.event.value]
      else if q.op == EPOLL_CTL_DEL then
        if q.fd !in reg then e == ENOENT && epi.reg == reg else e == EOK && epi.reg == reg - {q.fd}
      else if q.op == EPOLL_CTL_MOD then
        if q.event.None? then e == EINVAL && epi.reg == reg
        else if q.fd !in reg then e == ENOENT && epi.reg == reg
        else e == (if QueueRefuses(q.event.value, q.keventOk) then EPERM else EOK) && epi.reg == reg[q.fd := q.event.value]
      else e == EINVAL && epi.reg == reg
  {
    var item := epi.FindItem(q.fd);
    if q.op == EPOLL_CTL_ADD {
      if q.event.None? {
        return EINVAL;
      }
      if item != null {
        return EEXIST;
      }
      item := new Item(q.fd, q.event.value, q.event.value.events & EPOLLET != 0);
      if QueueRefuses(q.event.value, q.keventOk) {
        return EPERM;
      }
      epi.AddItem(item);
    } else if q.op == EPOLL_CTL_DEL {
      if item == null {
        return ENOENT;
      }
      epi.RemoveItem(item);
    } else if q.op == EPOLL_CTL_MOD {
      if q.event.None? {
        return EINVAL;
      }
      if item == null {
        return ENOENT;
      }
      Overwrite(epi, item, q.event.value);
      if QueueRefuses(q.event.value, q.keventOk) {
        return EPERM;
      }
    } else {
      return EINVAL;
    }
    e := EOK;
  }

  /** The event of a registered descriptor is replaced. */
  method Overwrite(epi: Instance, item: Item, event: Event)
    requires epi.Valid() && item in epi.live
    modifies epi`reg, item`event, item`edgeTriggered
    ensures epi.Valid() && epi.reg == old(epi.reg)[item.fd := event]
  {
    assert Shown(epi.index, epi.reg, item);
    item.event := event;
    item.edgeTriggered := event.events & EPOLLET != 0;
    epi.reg := epi.reg[item.fd := event];
    forall t | t in epi.live ensures Shown(epi.index, epi.reg, t) {
      assert old(Shown(epi.index, epi.reg, t));
    }
  }

  /** epoll_ctl: epi is what epfd leads to, and open says whether fd is open on the host. */
  method Ctl(epi: Instance?, epfd: int, op: int, fd: int, event: Option<Event>, open: bool, keventOk: bool) returns (e: Errno)
    requires epi != null ==> epi.Valid()
    modifies epi, if epi == null then {} else {epi.items}, if epi == null then {} else epi.live
    ensures epi == null ==> e == EBADF
    ensures epi != null ==> epi.Valid()
    ensures epi != null ==>
      if epfd == fd then e == EINVAL && epi.reg == old(epi.reg)
      else if fd < 0 || !open then e == EBADF && epi.reg == old(epi.reg)
      else var q := Request(op, fd, event, keventOk);
        e == Answer(old(epi.reg), q) && epi.reg == After(old(epi.reg), q)
  {
    if epi == null {
      return EBADF;
    }
    if epfd == fd {
      return EINVAL;
    }
    if fd < 0 || !open {
      return EBADF;
    }
    e := Control(epi, Request(op, fd, event, keventOk));
  }
}
