/**
  The task structure (IXLandSystem/kernel/task.h) and the table that finds tasks by pid
  (IXLandSystem/kernel/task.c): 1024 buckets of tasks chained by hash_next.
 */
module Tasks {
  import opened Wrappers
  import opened Links
  import opened Pids
  import opened Status

  const MAX_TASKS := 1024

  datatype TaskState = Running | Interruptible | Uninterruptible | Stopped | Zombie | Dead

  class Task {
    const pid: int
    var ppid: int
    var pgid: int
    var sid: int
    var state: TaskState
    var exitStatus: int
    var exited: bool
    var signaled: bool
    var termsig: int
    var stopped: bool
    var stopsig: int
    var continued: bool
    var parent: Task?
    var children: Task?
    var nextSibling: Task?
    var hashNext: Task?
    var waiters: int
    var refs: int
    /** rlimits[RLIMIT_NPROC].rlim_cur, cast to int */
    var nproc: int
    /** sighand->pending; None while the task has no sighand */
    var pending: Option<set<int>>

    /** A zeroed structure, and the fields that ixland_task_alloc sets. */
    constructor (pid: int)
      ensures this.pid == pid && ppid == 0 && pgid == pid && sid == pid
      ensures state == Running && Flags() == FRESH
      ensures parent == null && children == null && nextSibling == null && hashNext == null
      ensures waiters == 0 && refs == 1 && nproc == 0 && pending == None
    {
      this.pid := pid;
      ppid, pgid, sid := 0, pid, pid;
      state := Running;
      exitStatus, exited, signaled, termsig, stopped, stopsig, continued := 0, false, false, 0, false, 0, false;
      parent, children, nextSibling, hashNext := null, null, null, null;
      waiters, refs, nproc, pending := 0, 1, 0, None;
    }

    /** A task that nothing has happened to since it was allocated, except that it is in the table. */
    ghost predicate IsNew()
      reads this`ppid, this`pgid, this`sid, this`state, this`parent, this`children, this`nextSibling
      reads this`waiters, this`refs, this`nproc, this`pending
      reads this`exitStatus, this`exited, this`signaled, this`termsig, this`stopped, this`stopsig, this`continued
    {
      && ppid == 0 && pgid == sid == pid && state == Running && Flags() == FRESH
      && parent == null && children == null && nextSibling == null
      && waiters == 0 && refs == 1 && nproc == 0 && pending == None
    }

    function Flags(): Flags
      reads this`exitStatus, this`exited, this`signaled, this`termsig, this`stopped, this`stopsig, this`continued
    {
      Status.Flags(exited, exitStatus, signaled, termsig, stopped, stopsig, continued)
    }
  }

  /** task_hash; a negative pid would index the table out of its bounds. */
  function TaskHash(pid: int): (b: int)
    requires pid >= 0
    ensures 0 <= b < MAX_TASKS
  {
    pid % MAX_TASKS
  }

  ghost predicate Sits(t: Task, b: int, byPid: map<int, Task>) {
    IsPid(t.pid) && t.pid in byPid && byPid[t.pid] == t && TaskHash(t.pid) == b
  }

  /** Bucket b chains the tasks of chain, which all belong there. */
  ghost predicate BucketOk(head: Task?, next: map<Task?, Task?>, chain: seq<Task>, byPid: map<int, Task>, b: int) {
    && Path(next, null, head, chain)
    && forall t {:trigger Sits(t, b, byPid)} :: t in chain ==> Sits(t, b, byPid)
  }

  /** The pid p leads to a task of that pid, which is in the bucket of p. */
  ghost predicate EntryOk(chains: seq<seq<Task>>, byPid: map<int, Task>, p: int)
    requires |chains| == MAX_TASKS
  {
    p in byPid ==> IsPid(p) && byPid[p].pid == p && byPid[p] in chains[TaskHash(p)]
  }

  /**
    The buckets refine the map byPid: bucket b chains, through next, exactly the tasks chains[b]; a task
    is in the chain of its own pid's bucket and in no other; and each pid of the map leads to its task.
   */
  ghost predicate Indexes(heads: seq<Task?>, next: map<Task?, Task?>, chains: seq<seq<Task>>, byPid: map<int, Task>) {
    && |heads| == |chains| == MAX_TASKS
    && (forall b {:trigger BucketOk(heads[b], next, chains[b], byPid, b)} :: 0 <= b < MAX_TASKS ==>
         BucketOk(heads[b], next, chains[b], byPid, b))
    && (forall p {:trigger EntryOk(chains, byPid, p)} :: EntryOk(chains, byPid, p))
  }

  /** Every task of the table sits once and only in the bucket of its pid. */
  lemma SitsOnce(heads: seq<Task?>, next: map<Task?, Task?>, chains: seq<seq<Task>>, byPid: map<int, Task>, b: int, i: int, c: int, j: int)
    requires Indexes(heads, next, chains, byPid)
    requires 0 <= b < MAX_TASKS && 0 <= i < |chains[b]| && 0 <= c < MAX_TASKS && 0 <= j < |chains[c]|
    requires chains[b][i] == chains[c][j]
    ensures b == c && i == j
  {
    assert BucketOk(heads[b], next, chains[b], byPid, b) && BucketOk(heads[c], next, chains[c], byPid, c);
    assert Sits(chains[b][i], b, byPid) && Sits(chains[c][j], c, byPid);
    PathIsAcyclic(next, null, heads[b], chains[b]);
  }

  /** A bucket is not affected by what happens to tasks of other buckets. */
  lemma BucketFrame(head: Task?, next: map<Task?, Task?>, next': map<Task?, Task?>, chain: seq<Task>,
                    byPid: map<int, Task>, byPid': map<int, Task>, b: int)
    requires BucketOk(head, next, chain, byPid, b)
    requires forall t :: t in chain && t in next ==> t in next' && next'[t] == next[t]
    requires forall t :: t in chain ==> t.pid in byPid' && byPid'[t.pid] == t
    ensures BucketOk(head, next', chain, byPid', b)
  {
    PathFrame(next, next', null, head, chain);
    forall t | t in chain ensures Sits(t, b, byPid') {
      assert Sits(t, b, byPid);
    }
  }

  /** ixland_task_alloc puts the new task at the head of its bucket. */
  lemma IndexesInsert(heads: seq<Task?>, next: map<Task?, Task?>, chains: seq<seq<Task>>, byPid: map<int, Task>, t: Task)
    requires Indexes(heads, next, chains, byPid) && IsPid(t.pid) && t.pid !in byPid
    ensures var b := TaskHash(t.pid);
      Indexes(heads[b := t], next[t := heads[b]], chains[b := [t] + chains[b]], byPid[t.pid := t])
  {
    var h := TaskHash(t.pid);
    var heads', next', chains', byPid' := heads[h := t], next[t := heads[h]], chains[h := [t] + chains[h]], byPid[t.pid := t];
    forall b | 0 <= b < MAX_TASKS ensures BucketOk(heads'[b], next', chains'[b], byPid', b) {
      assert BucketOk(heads[b], next, chains[b], byPid, b);
      forall x | x in chains[b] ensures x != t && x.pid != t.pid && x.pid in byPid && byPid[x.pid] == x {
        assert Sits(x, b, byPid);
      }
      BucketFrame(heads[b], next, next', chains[b], byPid, byPid', b);
      if b == h {
        PathPrepend(next, null, heads[b], chains[b], t);
        BucketPrepend(heads[b], next', chains[b], byPid', b, t);
      }
    }
    forall p ensures EntryOk(chains', byPid', p) {
      assert EntryOk(chains, byPid, p);
    }
  }

  lemma BucketPrepend(head: Task?, next: map<Task?, Task?>, chain: seq<Task>, byPid: map<int, Task>, b: int, t: Task)
    requires BucketOk(head, next, chain, byPid, b) && Sits(t, b, byPid) && Path(next, null, t, [t] + chain)
    ensures BucketOk(t, next, [t] + chain, byPid, b)
  {
    forall x | x in [t] + chain ensures Sits(x, b, byPid) {
    }
  }

  /** ixland_task_free takes the i-th task of bucket b out. */
  lemma IndexesRemove(heads: seq<Task?>, next: map<Task?, Task?>, chains: seq<seq<Task>>, byPid: map<int, Task>, b: int, i: int)
    requires Indexes(heads, next, chains, byPid) && 0 <= b < MAX_TASKS && 0 <= i < |chains[b]|
    ensures chains[b][i] in next && (i > 0 ==> chains[b][i - 1] in next)
    ensures var t := chains[b][i];
      if i == 0 then Indexes(heads[b := next[t]], next, chains[b := Without(chains[b], i)], byPid - {t.pid})
      else Indexes(heads, next[chains[b][i - 1] := next[t]], chains[b := Without(chains[b], i)], byPid - {t.pid})
  {
    var t := chains[b][i];
    assert BucketOk(heads[b], next, chains[b], byPid, b);
    assert Sits(t, b, byPid);
    PathIsAcyclic(next, null, heads[b], chains[b]);
    PathRemove(next, null, heads[b], chains[b], i);
    var heads' := if i == 0 then heads[b := next[t]] else heads;
    var next' := if i == 0 then next else next[chains[b][i - 1] := next[t]];
    var chains', byPid' := chains[b := Without(chains[b], i)], byPid - {t.pid};
    forall c | 0 <= c < MAX_TASKS ensures BucketOk(heads'[c], next', chains'[c], byPid', c) {
      assert BucketOk(heads[c], next, chains[c], byPid, c);
      if c == b {
        forall x | x in chains'[b] ensures Sits(x, b, byPid') {
          WithoutMembers(chains[b], i, x);
          assert Sits(x, b, byPid);
        }
      } else {
        forall x | x in chains[c] ensures x != t && (i == 0 || x != chains[b][i - 1]) && x.pid in byPid' && byPid'[x.pid] == x {
          assert Sits(x, c, byPid);
          if i > 0 {
            assert Sits(chains[b][i - 1], b, byPid);
          }
        }
        BucketFrame(heads[c], next, next', chains[c], byPid, byPid', c);
      }
    }
    forall p ensures EntryOk(chains', byPid', p) {
      assert EntryOk(chains, byPid, p);
      if p in byPid' && TaskHash(p) == b {
        WithoutMembers(chains[b], i, byPid[p]);
      }
    }
  }

  /** p is either taken or free. */
  ghost predicate PidOk(byPid: map<int, Task>, free: seq<int>, p: int) {
    && (p in byPid || p in free ==> IsPid(p))
    && (IsPid(p) ==> (p in byPid <==> p !in free))
  }

  /** Live pids and free pids partition 1000..65535. */
  ghost predicate PidsSplit(byPid: map<int, Task>, free: seq<int>) {
    && NoDup(free)
    && forall p {:trigger PidOk(byPid, free, p)} :: PidOk(byPid, free, p)
  }

  lemma PidsTaken(byPid: map<int, Task>, free: seq<int>, t: Task)
    requires PidsSplit(byPid, free) && free != [] && t.pid == free[|free| - 1]
    ensures IsPid(t.pid) && t.pid !in byPid && PidsSplit(byPid[t.pid := t], free[..|free| - 1])
  {
    var n := |free| - 1;
    assert PidOk(byPid, free, t.pid);
    var byPid', free' := byPid[t.pid := t], free[..n];
    forall p ensures PidOk(byPid', free', p) {
      assert PidOk(byPid, free, p);
      assert free == free[..n] + [free[n]];
    }
  }

  lemma PidsReturned(byPid: map<int, Task>, free: seq<int>, pid: int)
    requires PidsSplit(byPid, free) && pid in byPid
    ensures IsPid(pid) && |free| < PID_COUNT && PidsSplit(byPid - {pid}, free + [pid])
  {
    assert PidOk(byPid, free, pid);
    forall i | 0 <= i < |free| ensures IsPid(free[i]) {
      assert PidOk(byPid, free, free[i]);
    }
    NoDupInRange(free + [pid], MIN_PID, MAX_PID);
    var byPid', free' := byPid - {pid}, free + [pid];
    forall p ensures PidOk(byPid', free', p) {
      assert PidOk(byPid, free, p);
    }
  }

  lemma {:induction false} NoDupInRange(s: seq<int>, lo: int, hi: int)
    requires NoDup(s) && lo <= hi + 1 && forall i :: 0 <= i < |s| ==> lo <= s[i] <= hi
    ensures |s| <= hi - lo + 1
    decreases hi - lo + 1
  {
    if s != [] {
      if hi in s {
        var i :| 0 <= i < |s| && s[i] == hi;
        var r := Without(s, i);
        WithoutMembers(s, i, hi);
        forall j | 0 <= j < |r| ensures lo <= r[j] <= hi - 1 {
          assert r[j] == s[if j < i then j else j + 1];
        }
        NoDupInRange(r, lo, hi - 1);
      } else {
        forall i | 0 <= i < |s| ensures s[i] <= hi - 1 {
          assert s[i] in s;
        }
        assert lo <= s[0] <= hi;
        NoDupInRange(s, lo, hi - 1);
      }
    }
  }

  /** t has one reference from the tree until it is reaped, and one for each holder. */
  ghost predicate CountOk(refs: map<Task, int>, holds: map<Task, nat>, attached: set<Task>, t: Task) {
    t in refs ==> t in holds && refs[t] == holds[t] + (if t in attached then 1 else 0) && refs[t] > 0
  }

  ghost predicate Counts(refs: map<Task, int>, holds: map<Task, nat>, attached: set<Task>) {
    && refs.Keys == holds.Keys && attached <= refs.Keys
    && forall t: Task {:trigger CountOk(refs, holds, attached, t)} :: t in refs ==> CountOk(refs, holds, attached, t)
  }

  /** The live task t is the one its pid leads to. */
  ghost predicate NamedOk(byPid: map<int, Task>, t: Task) {
    t.pid in byPid && byPid[t.pid] == t
  }

  ghost predicate NamesOk(byPid: map<int, Task>, live: set<Task>) {
    && (forall t: Task {:trigger NamedOk(byPid, t)} :: t in live ==> NamedOk(byPid, t))
    && (forall p {:trigger LiveOk(byPid, live, p)} :: p in byPid ==> LiveOk(byPid, live, p))
  }

  ghost predicate LiveOk(byPid: map<int, Task>, live: set<Task>, p: int) {
    p in byPid && byPid[p] in live && byPid[p].pid == p
  }

  /**
    The table as a value: bucket heads, hash_next links, the chains of the buckets, the map from pids to tasks
    that they stand for, the free pids, the reference counts, and who accounts for them.
   */
  datatype Table = Table(heads: seq<Task?>, next: map<Task?, Task?>, chains: seq<seq<Task>>, byPid: map<int, Task>,
                         free: seq<int>, refs: map<Task, int>, holds: map<Task, nat>, attached: set<Task>)

  ghost predicate Consistent(x: Table) {
    && Indexes(x.heads, x.next, x.chains, x.byPid)
    && PidsSplit(x.byPid, x.free)
    && Counts(x.refs, x.holds, x.attached)
    && NamesOk(x.byPid, x.refs.Keys)
  }

  /** The new task t is at the head of its bucket, with one reference. */
  ghost predicate Allocated(x: Table, t: Task, x': Table)
    requires |x.heads| == |x.chains| == MAX_TASKS && x.free != [] && IsPid(t.pid)
  {
    var h := TaskHash(t.pid);
    && x'.heads == x.heads[h := t] && x'.next == x.next[t := x.heads[h]] && x'.chains == x.chains[h := [t] + x.chains[h]]
    && x'.byPid == x.byPid[t.pid := t] && x'.free == x.free[..|x.free| - 1]
    && x'.refs == x.refs[t := 1] && x'.holds == x.holds[t := 1] && x'.attached == x.attached
  }

  lemma AllocKeeps(x: Table, t: Task, x': Table)
    requires Consistent(x) && x.free != [] && t.pid == x.free[|x.free| - 1] && t !in x.refs && IsPid(t.pid)
    requires Allocated(x, t, x')
    ensures Consistent(x')
  {
    PidsTaken(x.byPid, x.free, t);
    IndexesInsert(x.heads, x.next, x.chains, x.byPid, t);
    forall u: Task | u in x'.refs ensures CountOk(x'.refs, x'.holds, x'.attached, u) {
      assert u == t || CountOk(x.refs, x.holds, x.attached, u);
    }
    forall u: Task | u in x'.refs ensures NamedOk(x'.byPid, u) {
      assert u == t || NamedOk(x.byPid, u);
    }
    forall p | p in x'.byPid ensures LiveOk(x'.byPid, x'.refs.Keys, p) {
      assert p == t.pid || LiveOk(x.byPid, x.refs.Keys, p);
    }
  }

  /** A table that holds init alone. */
  ghost predicate Booted(x: Table, t: Task) {
    && x.free == AllPids(PID_COUNT)[..PID_COUNT - 1]
    && |x.heads| == |x.chains| == MAX_TASKS
    && (forall b :: 0 <= b < MAX_TASKS ==> x.heads[b] == if b == TaskHash(MIN_PID) then t else null)
    && (forall b :: 0 <= b < MAX_TASKS ==> x.chains[b] == if b == TaskHash(MIN_PID) then [t] else [])
    && x.next == map[t := null] && x.byPid == map[MIN_PID := t] && x.refs == map[t := 1] && x.holds == map[t := 0]
    && x.attached == {t}
  }

  lemma BootConsistent(x: Table, t: Task)
    requires t.pid == MIN_PID && Booted(x, t)
    ensures Consistent(x)
  {
    forall b | 0 <= b < MAX_TASKS ensures BucketOk(x.heads[b], x.next, x.chains[b], x.byPid, b) {
      if b == TaskHash(MIN_PID) {
        assert Path(x.next, null, x.next[t], x.chains[b][1..]);
      }
    }
    forall p ensures EntryOk(x.chains, x.byPid, p) {
    }
    BootPids(x.free);
    forall p ensures PidOk(x.byPid, x.free, p) {
      assert p in x.free <==> MIN_PID < p <= MAX_PID;
    }
    forall u: Task | u in x.refs ensures CountOk(x.refs, x.holds, x.attached, u) && NamedOk(x.byPid, u) {
    }
    forall p | p in x.byPid ensures LiveOk(x.byPid, x.refs.Keys, p) {
    }
  }

  lemma BootPids(free: seq<int>)
    requires free == AllPids(PID_COUNT)[..PID_COUNT - 1]
    ensures NoDup(free) && forall p :: p in free <==> MIN_PID < p <= MAX_PID
  {
    forall p | MIN_PID < p <= MAX_PID ensures p in free {
      assert free[MAX_PID - p] == p;
    }
  }

  /** The live task t sits at place i of its bucket. */
  ghost predicate Located(x: Table, t: Task, i: nat)
    requires |x.heads| == |x.chains| == MAX_TASKS && IsPid(t.pid)
  {
    var h := TaskHash(t.pid);
    i < |x.chains[h]| && x.chains[h][i] == t && BucketOk(x.heads[h], x.next, x.chains[h], x.byPid, h)
  }

  lemma Locate(x: Table, t: Task) returns (i: nat)
    requires Consistent(x) && t in x.refs
    ensures IsPid(t.pid) && NamedOk(x.byPid, t) && CountOk(x.refs, x.holds, x.attached, t) && Located(x, t, i)
  {
    assert NamedOk(x.byPid, t) && EntryOk(x.chains, x.byPid, t.pid) && CountOk(x.refs, x.holds, x.attached, t);
    i :| 0 <= i < |x.chains[TaskHash(t.pid)]| && x.chains[TaskHash(t.pid)][i] == t;
  }

  /** The table, the links and the chains once t, the i-th task of its bucket, is unlinked. */
  function UnlinkedHeads(heads: seq<Task?>, next: map<Task?, Task?>, t: Task, i: nat): seq<Task?>
    requires IsPid(t.pid) && |heads| == MAX_TASKS && t in next
  {
    if i == 0 then heads[TaskHash(t.pid) := next[t]] else heads
  }

  function UnlinkedNext(next: map<Task?, Task?>, chains: seq<seq<Task>>, t: Task, i: nat): map<Task?, Task?>
    requires IsPid(t.pid) && |chains| == MAX_TASKS && i < |chains[TaskHash(t.pid)]| && t in next
  {
    if i == 0 then next else next[chains[TaskHash(t.pid)][i - 1] := next[t]]
  }

  function UnlinkedChains(chains: seq<seq<Task>>, t: Task, i: nat): seq<seq<Task>>
    requires IsPid(t.pid) && |chains| == MAX_TASKS && i < |chains[TaskHash(t.pid)]|
  {
    chains[TaskHash(t.pid) := Without(chains[TaskHash(t.pid)], i)]
  }

  /** t, the i-th task of its bucket, is unlinked and no longer live; its pid is free. */
  ghost predicate Freed(x: Table, t: Task, i: nat, x': Table)
    requires IsPid(t.pid) && |x.heads| == |x.chains| == MAX_TASKS && i < |x.chains[TaskHash(t.pid)]| && t in x.next
  {
    && x'.heads == UnlinkedHeads(x.heads, x.next, t, i) && x'.next == UnlinkedNext(x.next, x.chains, t, i) - {t}
    && x'.chains == UnlinkedChains(x.chains, t, i)
    && x'.byPid == x.byPid - {t.pid} && x'.free == x.free + [t.pid]
    && x'.refs == x.refs - {t} && x'.holds == x.holds - {t} && x'.attached == x.attached
  }

  /** The last reference to t is dropped. */
  lemma FreeKeeps(x: Table, t: Task, i: nat, x': Table)
    requires Consistent(x) && t in x.refs && x.holds[t] > 0 && x.refs[t] == 1 && IsPid(t.pid)
    requires i < |x.chains[TaskHash(t.pid)]| && x.chains[TaskHash(t.pid)][i] == t && t in x.next && Freed(x, t, i, x')
    ensures Consistent(x')
  {
    assert CountOk(x.refs, x.holds, x.attached, t) && NamedOk(x.byPid, t);
    IndexesRemove(x.heads, x.next, x.chains, x.byPid, TaskHash(t.pid), i);
    var next1 := UnlinkedNext(x.next, x.chains, t, i);
    forall b | 0 <= b < MAX_TASKS ensures BucketOk(x'.heads[b], x'.next, x'.chains[b], x'.byPid, b) {
      assert BucketOk(x'.heads[b], next1, x'.chains[b], x'.byPid, b);
      forall u | u in x'.chains[b] ensures u != t && u.pid in x'.byPid && x'.byPid[u.pid] == u {
        assert Sits(u, b, x'.byPid);
      }
      BucketFrame(x'.heads[b], next1, x'.next, x'.chains[b], x'.byPid, x'.byPid, b);
    }
    PidsReturned(x.byPid, x.free, t.pid);
    forall u: Task | u in x'.refs ensures CountOk(x'.refs, x'.holds, x'.attached, u) && NamedOk(x'.byPid, u) {
      assert CountOk(x.refs, x.holds, x.attached, u) && NamedOk(x.byPid, u);
      assert u.pid == t.pid ==> u == t;
    }
    forall p | p in x'.byPid ensures LiveOk(x'.byPid, x'.refs.Keys, p) {
      assert LiveOk(x.byPid, x.refs.Keys, p);
    }
  }

  /** The count of t and those who account for it may differ; all else is the same. */
  ghost predicate Recounted(x: Table, t: Task, x': Table) {
    && x'.heads == x.heads && x'.next == x.next && x'.chains == x.chains && x'.byPid == x.byPid && x'.free == x.free
    && t in x'.refs && x'.refs == x.refs[t := x'.refs[t]] && t in x'.holds && x'.holds == x.holds[t := x'.holds[t]]
    && x'.attached - {t} == x.attached - {t}
  }

  /** A reference to t changes hands or is dropped, and others remain. */
  lemma RecountKeeps(x: Table, t: Task, x': Table)
    requires Consistent(x) && t in x.refs && Recounted(x, t, x')
    requires x'.refs[t] == x'.holds[t] + (if t in x'.attached then 1 else 0) && x'.refs[t] > 0
    ensures Consistent(x')
  {
    forall u: Task | u in x'.refs ensures CountOk(x'.refs, x'.holds, x'.attached, u) {
      assert CountOk(x.refs, x.holds, x.attached, u);
      assert u != t ==> (u in x'.attached - {t} <==> u in x.attached - {t});
    }
    assert x'.refs.Keys == x.refs.Keys;
    assert x'.attached <= x'.attached - {t} + {t};
  }

  lemma BucketLive(next: map<Task?, Task?>, chains: seq<seq<Task>>, byPid: map<int, Task>, b: int, heads: seq<Task?>)
    requires 0 <= b < MAX_TASKS == |chains| == |heads| && BucketOk(heads[b], next, chains[b], byPid, b)
    ensures forall t :: t in chains[b] ==> t in next
  {
    forall t | t in chains[b] ensures t in next {
      var i :| 0 <= i < |chains[b]| && chains[b][i] == t;
      PathAt(next, null, heads[b], chains[b], i);
    }
  }

}
