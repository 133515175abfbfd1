/** IXLandSystem/kernel/signal.c: ixland_kill and ixland_killpg, each as one atomic step. */
module Signals {
  import opened Wrappers
  import opened Links
  import opened Status
  import opened Tasks
  import opened ProcessTree
  import opened Kernels
  import opened Groups

  const NSIG := 64

  /** EOK is the return value 0; the others come with -1. */
  datatype Errno = EOK | EINVAL | EPERM | ESRCH

  /** What a signal can change on a task. */
  datatype Mark = Mark(pending: Option<set<int>>, flags: Flags, state: TaskState)

  ghost predicate Marked(m: map<Task, Mark>, t: Task)
    reads t`pending, t`state, t`exitStatus, t`exited, t`signaled, t`termsig, t`stopped, t`stopsig, t`continued
  {
    t in m && m[t] == Mark(t.pending, t.Flags(), t.state)
  }

  ghost predicate AllMarked(m: map<Task, Mark>, tasks: set<Task>)
    reads tasks`pending, tasks`state, tasks`exitStatus, tasks`exited, tasks`signaled, tasks`termsig
    reads tasks`stopped, tasks`stopsig, tasks`continued
  {
    forall t {:trigger Marked(m, t)} :: t in tasks ==> Marked(m, t)
  }

  /** The signal becomes pending, and stops, continues or terminates the task. */
  function Hit(mark: Mark, sig: int): Mark {
    Mark(match mark.pending case Some(p) => Some(p + {sig}) case None => None,
      Apply(mark.flags, Deliver(sig)),
      if sig == SIGSTOP then Stopped else if sig == SIGCONT then Running else if Terminating(sig) then Zombie else mark.state)
  }

  function HitAll(m: map<Task, Mark>, s: seq<Task>, sig: int): map<Task, Mark> {
    map t | t in m :: if t in s then Hit(m[t], sig) else m[t]
  }

  /** A terminating signal makes a task of the tree a dead one, where it is. */
  function Struck(family: Family<Task>, t: Task, sig: int): Family<Task> {
    if Terminating(sig) && t in family.tree.kids then Do(family, Step.Die(t)) else family
  }

  function StruckAll(family: Family<Task>, s: seq<Task>, sig: int): Family<Task> {
    if s == [] then family else Struck(StruckAll(family, s[..|s| - 1], sig), s[|s| - 1], sig)
  }

  /** __ixland_apply_signal_to_task, without the wakenings and the pthread_kill. */
  method ApplySignal(task: Task, sig: int, ghost m: map<Task, Mark>, ghost tasks: set<Task>)
    requires AllMarked(m, tasks) && task in tasks && task.pending.Some?
    modifies task`pending, task`state, task`exited, task`signaled, task`termsig, task`stopped, task`stopsig, task`continued
    ensures task in m && AllMarked(m[task := Hit(m[task], sig)], tasks)
    ensures if Terminating(sig) then task.exited else task.exited == old(task.exited) && task.signaled == old(task.signaled)
    ensures task.pending == Some(old(task.pending.value) + {sig})
    ensures task.state == if sig == SIGSTOP then Stopped else if sig == SIGCONT then Running
                          else if sig in {SIGTERM, SIGKILL, SIGINT} then Zombie else old(task.state)
  {
    assert Marked(m, task);
    var terminating := sig == SIGTERM || sig == SIGKILL || sig == SIGINT;
    task.pending := Some(task.pending.value + {sig});
    if sig == SIGSTOP {
      task.state := Stopped;
      task.stopped := true;
      task.stopsig := SIGSTOP;
    }
    if sig == SIGCONT {
      task.state := Running;
      task.stopped := false;
      task.continued := true;
    }
    if terminating {
      task.signaled := true;
      task.termsig := sig;
      task.exited := true;
      task.state := Zombie;
    }
    forall t | t in tasks ensures Marked(m[task := Hit(m[task], sig)], t) {
      assert old(Marked(m, t));
    }
  }

  /** The signal as the process tree sees it. */
  method Strike(k: Kernel, task: Task, sig: int, ghost m: map<Task, Mark>)
    requires k.TreeOk() && AllMarked(m, k.tt.live) && task in k.tt.live && task.pending.Some?
    modifies k`family, k`fields, k`exits
    modifies task`pending, task`state, task`exited, task`signaled, task`termsig, task`stopped, task`stopsig, task`continued
    ensures k.TreeOk() && task in m && AllMarked(m[task := Hit(m[task], sig)], k.tt.live)
    ensures k.family == Struck(old(k.family), task, sig)
  {
    ghost var exits' := ExitsAfter(k.exits, task, sig);
    StruckShown(k.fields, k.exits, k.tt.attached, k.tt.initTask, k.family, task, sig);
    ApplySignal(task, sig, m, k.tt.live);
    assert InMemory(k.fields, exits', k.tt.attached) by {
      forall t | t in k.tt.attached ensures Held(k.fields, exits', t) {
        assert old(Held(k.fields, k.exits, t));
      }
    }
    k.Record(Struck(k.family, task, sig), k.fields, exits');
  }

  function ExitsAfter(exits: map<Task, bool>, task: Task, sig: int): map<Task, bool> {
    if Terminating(sig) && task in exits then exits[task := true] else exits
  }

  lemma StruckShown(f: S.Fields, exits: map<Task, bool>, tasks: set<Task>, init: Task, family: Family<Task>, task: Task, sig: int)
    requires FamilyShown(f, exits, tasks, init, family)
    ensures FamilyShown(f, ExitsAfter(exits, task, sig), tasks, init, Struck(family, task, sig))
  {
    assert Spelled(family, 0);
    if Terminating(sig) && task in family.tree.kids {
      TidyStepKeeps(family, Step.Die(task));
      DeadGrows(exits, family.dead, task);
      if task == init {
        S.DisownRepresents(f, family.tree, exits[init]);
      }
    }
  }

  /** The reference that a lookup took is dropped; others remain, so the task stays. */
  method Drop(k: Kernel, task: Task)
    requires k.tt.Indexed() && task in k.tt.live && task in k.tt.holds
    requires k.tt.holds[task] >= 1 + if task in k.tt.attached then 0 else 1
    modifies k.tt`byPid, k.tt`live, k.tt`chains, k.tt`holds, k.tt.table, k.tt.pids, k.tt.pids.stack, k.tt.live`hashNext, task`refs
    ensures k.tt.Indexed() && k.tt.byPid == old(k.tt.byPid) && k.tt.live == old(k.tt.live)
    ensures k.tt.holds == old(k.tt.holds)[task := old(k.tt.holds[task]) - 1] && k.tt.pids.Free() == old(k.tt.pids.Free())
  {
    k.tt.KnownCount(task);
    k.tt.TaskFree(task);
  }

  /** Dropping a reference changes nothing that a signal can change, nor the tree. */
  method DropOnly(k: Kernel, task: Task, ghost m: map<Task, Mark>)
    requires k.tt.Indexed() && k.TreeOk() && AllMarked(m, k.tt.live) && task in k.tt.live && task in k.tt.holds
    requires k.tt.holds[task] >= 1 + if task in k.tt.attached then 0 else 1
    modifies k.tt`byPid, k.tt`live, k.tt`chains, k.tt`holds, k.tt.table, k.tt.pids, k.tt.pids.stack, k.tt.live`hashNext, task`refs
    ensures k.tt.Indexed() && k.TreeOk() && AllMarked(m, k.tt.live) && k.tt.byPid == old(k.tt.byPid) && k.tt.live == old(k.tt.live)
    ensures k.tt.holds == old(k.tt.holds)[task := old(k.tt.holds[task]) - 1] && k.tt.pids.Free() == old(k.tt.pids.Free())
  {
    Drop(k, task);
  }

  /** One more reference for each task of s. */
  ghost function Plus(holds: map<Task, nat>, s: seq<Task>): map<Task, nat> {
    map t | t in holds :: if t in s then holds[t] + 1 else holds[t]
  }

  lemma PlusOne(holds: map<Task, nat>, s: seq<Task>, t: Task)
    requires t in holds && t !in s
    ensures Plus(holds, s)[t := holds[t] + 1] == Plus(holds, s + [t]) == Plus(holds, [t] + s)
    ensures Plus(holds, [t] + s)[t := holds[t]] == Plus(holds, s)
  {
  }

  lemma HitOne(m: map<Task, Mark>, s: seq<Task>, t: Task, sig: int)
    requires t in m && t !in s
    ensures HitAll(m, s, sig)[t := Hit(m[t], sig)] == HitAll(m, s + [t], sig)
  {
  }

  lemma NextFound(stages: seq<seq<Task>>, flat: seq<Task>, n: nat, group: set<Task>, holds: map<Task, nat>)
    requires Stages(stages, flat, group) && n < |flat| && flat[n] in holds
    ensures var t, found := flat[n], stages[n];
      && t !in found && t in Plus(holds, found) && Plus(holds, found)[t] == holds[t]
      && Plus(holds, found)[t := holds[t] + 1] == Plus(holds, found + [t])
      && stages[n + 1] == if t in group && |found| < KILLPG_MAX_MATCHES then found + [t] else found
  {
    assert StageOk(stages, flat, group, n) && StageOk(stages, flat, group, n + 1);
    assert flat[..n + 1][..n] == flat[..n];
    MembersOf(flat[..n], group);
    assert flat[n] !in flat[..n];
    assert flat[n] !in Members(flat[..n], group);
    CappedGrows(Members(flat[..n], group), flat[n]);
    PlusOne(holds, stages[n], flat[n]);
  }

  /** The next task of the walk, flat[n], is looked at. */
  method Visit(k: Kernel, task: Task, pgrp: int, found: seq<Task>, ghost stages: seq<seq<Task>>, ghost flat: seq<Task>, ghost n: nat,
               ghost group: set<Task>, ghost holds: map<Task, nat>) returns (matches: seq<Task>)
    requires k.tt.Indexed() && Stages(stages, flat, group) && n < |flat| && task == flat[n] && task in k.tt.live && task in holds
    requires found == stages[n] && k.tt.holds == Plus(holds, found) && (task in group <==> task.pgid == pgrp)
    modifies k.tt`holds, task`refs
    ensures k.tt.Indexed() && matches == stages[n + 1] && k.tt.holds == Plus(holds, matches)
  {
    NextFound(stages, flat, n, group, holds);
    matches := found;
    if task.pgid == pgrp {
      if |matches| < KILLPG_MAX_MATCHES {
        k.tt.Take(task);
        matches := matches + [task];
      }
    }
  }

  ghost predicate GroupMark(holds: map<Task, nat>, pgrp: int, group: set<Task>, t: Task)
    reads t`pgid
  {
    t in holds && (t in group <==> t.pgid == pgrp)
  }

  /** group are the tasks of that process group. */
  ghost predicate Grouped(live: set<Task>, holds: map<Task, nat>, pgrp: int, group: set<Task>)
    reads live`pgid
  {
    forall t {:trigger GroupMark(holds, pgrp, group, t)} :: t in live ==> GroupMark(holds, pgrp, group, t)
  }

  lemma BucketPath(k: Kernel, b: int)
    requires k.tt.Indexed() && 0 <= b < MAX_TASKS
    ensures b < |k.tt.chains| && b < k.tt.table.Length && Path(k.tt.HashNexts(), null, k.tt.table[b], k.tt.chains[b])
    ensures forall t :: t in k.tt.chains[b] ==> t in k.tt.live
  {
    assert BucketOk(k.tt.table[..][b], k.tt.HashNexts(), k.tt.chains[b], k.tt.byPid, b);
    BucketLive(k.tt.HashNexts(), k.tt.chains, k.tt.byPid, b, k.tt.table[..]);
  }

  /** The j-th task of a bucket, and the one that follows it. */
  lemma BucketAt(k: Kernel, b: int, j: nat, holds: map<Task, nat>, pgrp: int, group: set<Task>)
    requires k.tt.Indexed() && 0 <= b < MAX_TASKS && j < |k.tt.chains[b]| && Grouped(k.tt.live, holds, pgrp, group)
    ensures var s := k.tt.chains[b];
      && s[j] in k.tt.live && s[j] in holds && (s[j] in group <==> s[j].pgid == pgrp)
      && s[j].hashNext == if j + 1 < |s| then s[j + 1] else null
  {
    BucketPath(k, b);
    PathAt(k.tt.HashNexts(), null, k.tt.table[b], k.tt.chains[b], j);
    assert k.tt.chains[b][j] in k.tt.chains[b];
    assert GroupMark(holds, pgrp, group, k.tt.chains[b][j]);
  }

  /** A bucket is walked: the part of flat from n on. */
  method VisitBucket(k: Kernel, b: int, pgrp: int, found: seq<Task>, ghost stages: seq<seq<Task>>, ghost flat: seq<Task>, ghost n: nat,
                     ghost group: set<Task>, ghost holds: map<Task, nat>) returns (matches: seq<Task>)
    requires k.tt.Indexed() && 0 <= b < MAX_TASKS && Stages(stages, flat, group) && n + |k.tt.chains[b]| <= |flat|
    requires forall j {:trigger k.tt.chains[b][j]} :: 0 <= j < |k.tt.chains[b]| ==> flat[n + j] == k.tt.chains[b][j]
    requires Grouped(k.tt.live, holds, pgrp, group)
    requires found == stages[n] && k.tt.holds == Plus(holds, found)
    modifies k.tt`holds, k.tt.live`refs
    ensures k.tt.Indexed() && matches == stages[n + |k.tt.chains[b]|] && k.tt.holds == Plus(holds, matches)
  {
    ghost var s := k.tt.chains[b];
    BucketPath(k, b);
    matches := found;
    var task := k.tt.table[b];
    ghost var j, at := 0, n;
    while task != null
      invariant j <= |s| && at == n + j && task == if j < |s| then s[j] else null
      invariant k.tt.Indexed() && matches == stages[at] && k.tt.holds == Plus(holds, matches)
      decreases |s| - j
      modifies k.tt`holds, k.tt.live`refs
    {
      BucketAt(k, b, j, holds, pgrp, group);
      assert flat[at] == task;
      matches := Visit(k, task, pgrp, matches, stages, flat, at, group, holds);
      task := task.hashNext;
      j, at := j + 1, at + 1;
    }
  }

  ghost function GroupOf(live: set<Task>, pgrp: int): set<Task>
    reads live`pgid
  {
    set t | t in live && t.pgid == pgrp
  }

  /** The tasks that a signal to the group reaches: those that the walk through the table finds first. */
  ghost function Reached(k: Kernel, pgrp: int): seq<Task>
    reads k.tt`chains, k.tt`live, k.tt.live`pgid
  {
    Capped(Members(Flat(k.tt.chains), GroupOf(k.tt.live, pgrp)))
  }

  /** One bucket more. */
  method NextBucket(k: Kernel, b: int, pgrp: int, found: seq<Task>, ghost stages: seq<seq<Task>>, ghost group: set<Task>,
                    ghost holds: map<Task, nat>, ghost n: nat) returns (matches: seq<Task>, ghost n': nat)
    requires k.tt.Indexed() && 0 <= b < MAX_TASKS && Stages(stages, Flat(k.tt.chains), group) && Grouped(k.tt.live, holds, pgrp, group)
    requires n == |Flat(k.tt.chains[..b])| < |stages| && found == stages[n] && k.tt.holds == Plus(holds, found)
    modifies k.tt`holds, k.tt.live`refs
    ensures k.tt.Indexed() && n' == |Flat(k.tt.chains[..b + 1])| < |stages| && matches == stages[n'] && k.tt.holds == Plus(holds, matches)
  {
    FlatStep(k.tt.chains, b);
    n' := n + |k.tt.chains[b]|;
    matches := VisitBucket(k, b, pgrp, found, stages, Flat(k.tt.chains), n, group, holds);
  }

  lemma WalkBegins(k: Kernel, pgrp: int)
    requires k.tt.Indexed()
    ensures NoDup(Flat(k.tt.chains)) && Grouped(k.tt.live, k.tt.holds, pgrp, GroupOf(k.tt.live, pgrp))
    ensures (forall t :: t in Flat(k.tt.chains) <==> t in k.tt.live) && |k.tt.chains| == MAX_TASKS
    ensures k.tt.chains[..0] == [] && k.tt.chains[..MAX_TASKS] == k.tt.chains && Plus(k.tt.holds, []) == k.tt.holds
  {
    assert k.tt.RefCounts().Keys == k.tt.live;
    WalkMeetsEachOnce(k.tt.table[..], k.tt.HashNexts(), k.tt.chains, k.tt.byPid, k.tt.live);
  }

  /** The walk through the table: a reference is taken to every task that is found. */
  method Collect(k: Kernel, pgrp: int, ghost reached: seq<Task>) returns (matches: seq<Task>)
    requires k.tt.Indexed() && reached == Reached(k, pgrp)
    modifies k.tt`holds, k.tt.live`refs
    ensures k.tt.Indexed() && matches == reached && k.tt.holds == Plus(old(k.tt.holds), matches)
  {
    ghost var group, holds, n := GroupOf(k.tt.live, pgrp), k.tt.holds, 0;
    WalkBegins(k, pgrp);
    ghost var stages := StagesOf(Flat(k.tt.chains), group);
    matches := [];
    var i := 0;
    while i < MAX_TASKS
      invariant 0 <= i <= MAX_TASKS && k.tt.Indexed()
      invariant n == |Flat(k.tt.chains[..i])| < |stages| && matches == stages[n] && k.tt.holds == Plus(holds, matches)
    {
      matches, n := NextBucket(k, i, pgrp, matches, stages, group, holds, n);
      i := i + 1;
    }
  }

  /** What is known of the tasks of s while the caller has one reference to each. */
  ghost predicate Counted(s: seq<Task>, holds: map<Task, nat>, live: set<Task>, attached: set<Task>) {
    NoDup(s) && forall t {:trigger t in live} :: t in s ==> t in live && t in holds && holds[t] >= if t in attached then 0 else 1
  }

  /** ixland_killpg with signal 0: the references are dropped again. */
  method DropAll(k: Kernel, matches: seq<Task>, ghost holds: map<Task, nat>)
    requires k.tt.Indexed() && Counted(matches, holds, k.tt.live, k.tt.attached) && k.tt.holds == Plus(holds, matches)
    modifies k.tt`byPid, k.tt`live, k.tt`chains, k.tt`holds, k.tt.table, k.tt.pids, k.tt.pids.stack, k.tt.live`hashNext, k.tt.live`refs
    ensures k.tt.Indexed() && k.tt.byPid == old(k.tt.byPid) && k.tt.live == old(k.tt.live)
    ensures k.tt.holds == holds && k.tt.pids.Free() == old(k.tt.pids.Free())
  {
    var i := 0;
    assert matches[0..] == matches;
    while i < |matches|
      invariant 0 <= i <= |matches| && k.tt.Indexed() && k.tt.byPid == old(k.tt.byPid) && k.tt.live == old(k.tt.live)
      invariant k.tt.holds == Plus(holds, matches[i..]) && k.tt.pids.Free() == old(k.tt.pids.Free())
    {
      var task := matches[i];
      NextDropped(matches, i, holds, k.tt.live, k.tt.attached);
      Drop(k, task);
      i := i + 1;
    }
    assert Plus(holds, []) == holds;
  }

  /** The signal is applied to the task, and the reference dropped. */
  method StrikeAndDrop(k: Kernel, task: Task, sig: int, ghost m: map<Task, Mark>)
    requires k.tt.Indexed() && k.TreeOk() && AllMarked(m, k.tt.live) && task in k.tt.live && task.pending.Some?
    requires task in k.tt.holds && k.tt.holds[task] >= 1 + if task in k.tt.attached then 0 else 1
    modifies k`family, k`fields, k`exits
    modifies k.tt`byPid, k.tt`live, k.tt`chains, k.tt`holds, k.tt.table, k.tt.pids, k.tt.pids.stack, k.tt.live`hashNext, task`refs
    modifies task`pending, task`state, task`exited, task`signaled, task`termsig, task`stopped, task`stopsig, task`continued
    ensures k.tt.Indexed() && k.TreeOk() && task in m && AllMarked(m[task := Hit(m[task], sig)], k.tt.live)
    ensures k.family == Struck(old(k.family), task, sig) && k.tt.byPid == old(k.tt.byPid) && k.tt.live == old(k.tt.live)
    ensures k.tt.holds == old(k.tt.holds)[task := old(k.tt.holds[task]) - 1] && k.tt.pids.Free() == old(k.tt.pids.Free())
  {
    Strike(k, task, sig, m);
    DropOnly(k, task, m[task := Hit(m[task], sig)]);
  }

  /** The task has a sighand for the signal to be pending in. */
  predicate Ready(m: map<Task, Mark>, t: Task) {
    t in m && m[t].pending.Some?
  }

  /** ixland_killpg: the signal is delivered to each task that was found, and its reference dropped. */
  method DeliverAll(k: Kernel, matches: seq<Task>, sig: int, ghost m: map<Task, Mark>, ghost holds: map<Task, nat>)
    requires k.tt.Indexed() && k.TreeOk() && AllMarked(m, k.tt.live)
    requires Counted(matches, holds, k.tt.live, k.tt.attached) && k.tt.holds == Plus(holds, matches)
    requires forall t {:trigger Ready(m, t)} :: t in matches ==> Ready(m, t)
    modifies k`family, k`fields, k`exits
    modifies k.tt`byPid, k.tt`live, k.tt`chains, k.tt`holds, k.tt.table, k.tt.pids, k.tt.pids.stack, k.tt.live`hashNext, k.tt.live`refs
    modifies k.tt.live`pending, k.tt.live`state, k.tt.live`exited, k.tt.live`signaled, k.tt.live`termsig
    modifies k.tt.live`stopped, k.tt.live`stopsig, k.tt.live`continued
    ensures k.tt.Indexed() && k.TreeOk() && AllMarked(HitAll(m, matches, sig), k.tt.live)
    ensures k.family == StruckAll(old(k.family), matches, sig) && k.tt.byPid == old(k.tt.byPid) && k.tt.live == old(k.tt.live)
    ensures k.tt.holds == holds && k.tt.pids.Free() == old(k.tt.pids.Free())
    ensures forall t :: t in k.tt.live ==>
      && t in m
      && if t in matches then m[t].pending.Some? && t.pending == Some(m[t].pending.value + {sig}) else t.pending == m[t].pending
  {
    var i := 0;
    ghost var family := k.family;
    DeliveryEnds(matches, m, holds, family, sig);
    while i < |matches|
      invariant 0 <= i <= |matches| && k.tt.Indexed() && k.TreeOk() && k.tt.byPid == old(k.tt.byPid) && k.tt.live == old(k.tt.live)
      invariant k.tt.holds == Plus(holds, matches[i..]) && k.tt.pids.Free() == old(k.tt.pids.Free())
      invariant AllMarked(HitAll(m, matches[..i], sig), k.tt.live) && k.family == StruckAll(family, matches[..i], sig)
    {
      assert matches[i] in k.tt.live && Ready(m, matches[i]);
      DeliverNext(k, matches[i], matches, i, sig, m, holds, family);
      i := i + 1;
    }
    MarksAre(HitAll(m, matches, sig), k.tt.live);
    assert forall t :: t in matches ==> Ready(m, t);
  }

  /** Before the first task, and after the last. */
  lemma DeliveryEnds(matches: seq<Task>, m: map<Task, Mark>, holds: map<Task, nat>, family: Family<Task>, sig: int)
    ensures matches[0..] == matches && matches[..0] == [] && HitAll(m, matches[..0], sig) == m
    ensures StruckAll(family, matches[..0], sig) == family
    ensures matches[..|matches|] == matches && Plus(holds, matches[|matches|..]) == holds
  {
  }

  method DeliverNext(k: Kernel, task: Task, ghost matches: seq<Task>, ghost i: nat, sig: int, ghost m: map<Task, Mark>,
                     ghost holds: map<Task, nat>, ghost family: Family<Task>)
    requires k.tt.Indexed() && k.TreeOk() && i < |matches| && task == matches[i] && Ready(m, task)
    requires AllMarked(HitAll(m, matches[..i], sig), k.tt.live) && k.family == StruckAll(family, matches[..i], sig)
    requires Counted(matches, holds, k.tt.live, k.tt.attached) && k.tt.holds == Plus(holds, matches[i..])
    modifies k`family, k`fields, k`exits
    modifies k.tt`byPid, k.tt`live, k.tt`chains, k.tt`holds, k.tt.table, k.tt.pids, k.tt.pids.stack, k.tt.live`hashNext
    modifies task`refs, task`pending, task`state, task`exited, task`signaled
    modifies task`termsig, task`stopped, task`stopsig, task`continued
    ensures k.tt.Indexed() && k.TreeOk() && k.tt.byPid == old(k.tt.byPid) && k.tt.live == old(k.tt.live)
    ensures AllMarked(HitAll(m, matches[..i + 1], sig), k.tt.live) && k.family == StruckAll(family, matches[..i + 1], sig)
    ensures k.tt.holds == Plus(holds, matches[i + 1..]) && k.tt.pids.Free() == old(k.tt.pids.Free())
  {
    NextDropped(matches, i, holds, k.tt.live, k.tt.attached);
    NextHit(matches, i, m, sig);
    assert Marked(HitAll(m, matches[..i], sig), task);
    StrikeAndDrop(k, task, sig, HitAll(m, matches[..i], sig));
  }

  lemma NextDropped(matches: seq<Task>, i: nat, holds: map<Task, nat>, live: set<Task>, attached: set<Task>)
    requires i < |matches| && Counted(matches, holds, live, attached)
    ensures var t := matches[i];
      && t in live && t in holds && holds[t] >= (if t in attached then 0 else 1) && t in Plus(holds, matches[i..])
      && Plus(holds, matches[i..])[t] == holds[t] + 1 && Plus(holds, matches[i..])[t := holds[t]] == Plus(holds, matches[i + 1..])
  {
    assert matches[i] in live;
    assert matches[i..] == [matches[i]] + matches[i + 1..];
    PlusOne(holds, matches[i + 1..], matches[i]);
  }

  lemma NextHit(matches: seq<Task>, i: nat, m: map<Task, Mark>, sig: int)
    requires i < |matches| && NoDup(matches) && matches[i] in m
    ensures var t := matches[i];
      && t in HitAll(m, matches[..i], sig) && HitAll(m, matches[..i], sig)[t] == m[t]
      && HitAll(m, matches[..i], sig)[t := Hit(m[t], sig)] == HitAll(m, matches[..i + 1], sig)
    ensures matches[..i + 1][..i] == matches[..i] && matches[..i + 1][i] == matches[i]
  {
    assert matches[..i + 1] == matches[..i] + [matches[i]];
    HitOne(m, matches[..i], matches[i], sig);
  }

  /** Only tasks of the group are reached, none twice, and each of them if there are at most 256. */
  ghost predicate ReachesGroup(found: seq<Task>, group: set<Task>) {
    && NoDup(found) && (forall t :: t in found ==> t in group) && (found == [] <==> group == {})
    && (|group| <= KILLPG_MAX_MATCHES ==> forall t :: t in group ==> t in found)
    && (|group| > KILLPG_MAX_MATCHES ==> |found| == KILLPG_MAX_MATCHES)
  }

  lemma ReachedIsGroup(k: Kernel, pgrp: int)
    requires k.tt.Indexed()
    ensures ReachesGroup(Reached(k, pgrp), GroupOf(k.tt.live, pgrp))
    ensures Counted(Reached(k, pgrp), k.tt.holds, k.tt.live, k.tt.attached)
  {
    WalkBegins(k, pgrp);
    CollectedIsGroup(Flat(k.tt.chains), GroupOf(k.tt.live, pgrp));
    forall t | t in Reached(k, pgrp) ensures t in k.tt.holds && k.tt.holds[t] >= if t in k.tt.attached then 0 else 1 {
      assert t in k.tt.RefCounts() && CountOk(k.tt.RefCounts(), k.tt.holds, k.tt.attached, t);
    }
  }

  /** The reference counts follow from who holds what. */
  lemma SameCounts(refs: map<Task, int>, refs': map<Task, int>, holds: map<Task, nat>, attached: set<Task>)
    requires Counts(refs, holds, attached) && Counts(refs', holds, attached)
    ensures refs == refs'
  {
    forall t | t in refs ensures t in refs' && refs'[t] == refs[t] {
      assert CountOk(refs, holds, attached, t);
      assert t in refs' && CountOk(refs', holds, attached, t);
    }
  }

  function KillpgResult(pgrp: int, sig: int, empty: bool): Errno {
    if sig < 0 || sig >= NSIG || pgrp <= 0 then EINVAL else if empty then ESRCH else EOK
  }

  /** Signal 0 is not delivered. */
  method Conclude(k: Kernel, matches: seq<Task>, sig: int, ghost m: map<Task, Mark>, ghost holds: map<Task, nat>)
    requires k.tt.Indexed() && k.TreeOk() && AllMarked(m, k.tt.live)
    requires Counted(matches, holds, k.tt.live, k.tt.attached) && k.tt.holds == Plus(holds, matches)
    requires sig != 0 ==> forall t {:trigger Ready(m, t)} :: t in matches ==> Ready(m, t)
    modifies k`family, k`fields, k`exits
    modifies k.tt`byPid, k.tt`live, k.tt`chains, k.tt`holds, k.tt.table, k.tt.pids, k.tt.pids.stack, k.tt.live`hashNext, k.tt.live`refs
    modifies k.tt.live`pending, k.tt.live`state, k.tt.live`exited, k.tt.live`signaled, k.tt.live`termsig
    modifies k.tt.live`stopped, k.tt.live`stopsig, k.tt.live`continued
    ensures k.tt.Indexed() && k.TreeOk() && k.tt.byPid == old(k.tt.byPid) && k.tt.live == old(k.tt.live)
    ensures k.tt.holds == holds && k.tt.pids.Free() == old(k.tt.pids.Free())
    ensures var hit := if sig != 0 then matches else [];
      AllMarked(HitAll(m, hit, sig), k.tt.live) && k.family == StruckAll(old(k.family), hit, sig)
  {
    NoHit(m, holds, k.family, sig);
    if sig == 0 {
      DropAll(k, matches, holds);
    } else {
      DeliverAll(k, matches, sig, m, holds);
    }
  }

  lemma NoHit(m: map<Task, Mark>, holds: map<Task, nat>, family: Family<Task>, sig: int)
    ensures HitAll(m, [], sig) == m && Plus(holds, []) == holds && StruckAll(family, [], sig) == family
  {
  }

  /** Taking references changes nothing that a signal can change, nor the tree. */
  method CollectOnly(k: Kernel, pgrp: int, ghost m: map<Task, Mark>, ghost reached: seq<Task>) returns (matches: seq<Task>)
    requires k.tt.Indexed() && k.TreeOk() && AllMarked(m, k.tt.live) && reached == Reached(k, pgrp)
    modifies k.tt`holds, k.tt.live`refs
    ensures k.tt.Indexed() && k.TreeOk() && AllMarked(m, k.tt.live) && k.tt.pids.Free() == old(k.tt.pids.Free())
    ensures matches == reached && k.tt.holds == Plus(old(k.tt.holds), matches)
  {
    matches := Collect(k, pgrp, reached);
  }

  /** A group whose number is valid: the tasks that are reached get the signal, if there are any. */
  method SignalGroup(k: Kernel, pgrp: int, sig: int, ghost m: map<Task, Mark>, ghost reached: seq<Task>) returns (e: Errno)
    requires k.tt.Indexed() && k.TreeOk() && AllMarked(m, k.tt.live) && reached == Reached(k, pgrp)
    requires Counted(reached, k.tt.holds, k.tt.live, k.tt.attached)
    requires sig != 0 ==> forall t {:trigger Ready(m, t)} :: t in reached ==> Ready(m, t)
    modifies k`family, k`fields, k`exits
    modifies k.tt`byPid, k.tt`live, k.tt`chains, k.tt`holds, k.tt.table, k.tt.pids, k.tt.pids.stack, k.tt.live`hashNext, k.tt.live`refs
    modifies k.tt.live`pending, k.tt.live`state, k.tt.live`exited, k.tt.live`signaled, k.tt.live`termsig
    modifies k.tt.live`stopped, k.tt.live`stopsig, k.tt.live`continued
    ensures k.tt.Indexed() && k.TreeOk() && k.tt.byPid == old(k.tt.byPid) && k.tt.live == old(k.tt.live)
    ensures k.tt.holds == old(k.tt.holds) && k.tt.pids.Free() == old(k.tt.pids.Free())
    ensures e == if reached == [] then ESRCH else EOK
    ensures var hit := if sig != 0 then reached else [];
      AllMarked(HitAll(m, hit, sig), k.tt.live) && k.family == StruckAll(old(k.family), hit, sig)
  {
    ghost var holds := k.tt.holds;
    NoHit(m, holds, k.family, sig);
    var matches := CollectOnly(k, pgrp, m, reached);
    if |matches| == 0 {
      assert matches == [];
      return ESRCH;
    }
    Conclude(k, matches, sig, m, holds);
    e := EOK;
  }

  /** A signal to a group: m is what the tasks are like before. */
  method SendToGroup(k: Kernel, pgrp: int, sig: int, ghost m: map<Task, Mark>) returns (e: Errno)
    requires k.tt.Indexed() && k.TreeOk() && AllMarked(m, k.tt.live)
    requires sig != 0 ==> forall t {:trigger Ready(m, t)} :: t in Reached(k, pgrp) ==> Ready(m, t)
    modifies k`family, k`fields, k`exits
    modifies k.tt`byPid, k.tt`live, k.tt`chains, k.tt`holds, k.tt.table, k.tt.pids, k.tt.pids.stack, k.tt.live`hashNext, k.tt.live`refs
    modifies k.tt.live`pending, k.tt.live`state, k.tt.live`exited, k.tt.live`signaled, k.tt.live`termsig
    modifies k.tt.live`stopped, k.tt.live`stopsig, k.tt.live`continued
    ensures k.tt.Indexed() && k.TreeOk() && k.tt.byPid == old(k.tt.byPid) && k.tt.live == old(k.tt.live)
    ensures k.tt.holds == old(k.tt.holds) && k.tt.pids.Free() == old(k.tt.pids.Free()) && k.tt.RefCounts() == old(k.tt.RefCounts())
    ensures e == KillpgResult(pgrp, sig, old(GroupOf(k.tt.live, pgrp)) == {})
    ensures ReachesGroup(old(Reached(k, pgrp)), old(GroupOf(k.tt.live, pgrp)))
    ensures var hit := if e == EOK && sig != 0 then old(Reached(k, pgrp)) else [];
      AllMarked(HitAll(m, hit, sig), k.tt.live) && k.family == StruckAll(old(k.family), hit, sig)
  {
    ReachedIsGroup(k, pgrp);
    NoHit(m, k.tt.holds, k.family, sig);
    if sig < 0 || sig >= NSIG {
      return EINVAL;
    }
    if pgrp <= 0 {
      return EINVAL;
    }
    ghost var refs, holds := k.tt.RefCounts(), k.tt.holds;
    e := SignalGroup(k, pgrp, sig, m, Reached(k, pgrp));
    SameCounts(refs, k.tt.RefCounts(), holds, k.tt.attached);
  }

  /** The task that was looked up gets the signal, unless that is 0; then the reference is dropped. */
  method Touch(k: Kernel, task: Task, sig: int, ghost m: map<Task, Mark>, ghost holds: map<Task, nat>)
    requires k.tt.Indexed() && k.TreeOk() && AllMarked(m, k.tt.live) && task in k.tt.live && (sig != 0 ==> task.pending.Some?)
    requires task in holds && holds[task] >= (if task in k.tt.attached then 0 else 1) && k.tt.holds == holds[task := holds[task] + 1]
    modifies k`family, k`fields, k`exits
    modifies k.tt`byPid, k.tt`live, k.tt`chains, k.tt`holds, k.tt.table, k.tt.pids, k.tt.pids.stack, k.tt.live`hashNext, task`refs
    modifies task`pending, task`state, task`exited, task`signaled, task`termsig, task`stopped, task`stopsig, task`continued
    ensures k.tt.Indexed() && k.TreeOk() && k.tt.byPid == old(k.tt.byPid) && k.tt.live == old(k.tt.live)
    ensures var hit := if sig != 0 then [task] else [];
      AllMarked(HitAll(m, hit, sig), k.tt.live) && k.family == StruckAll(old(k.family), hit, sig)
    ensures k.tt.holds == holds && k.tt.pids.Free() == old(k.tt.pids.Free())
  {
    assert Marked(m, task);
    HitSolo(m, k.family, task, sig);
    assert holds[task := holds[task] + 1][task := holds[task]] == holds;
    if sig == 0 {
      DropOnly(k, task, m);
    } else {
      StrikeAndDrop(k, task, sig, m);
    }
  }

  lemma HitSolo(m: map<Task, Mark>, family: Family<Task>, t: Task, sig: int)
    requires t in m
    ensures HitAll(m, [t], sig) == m[t := Hit(m[t], sig)] && StruckAll(family, [t], sig) == Struck(family, t, sig)
    ensures HitAll(m, [], sig) == m && StruckAll(family, [], sig) == family
  {
    HitOne(m, [], t, sig);
    assert [t][..0] == [] && [] + [t] == [t];
  }

  /** A lookup changes nothing that a signal can change, nor the tree. */
  method LookUp(k: Kernel, pid: int, ghost m: map<Task, Mark>) returns (task: Task?)
    requires k.tt.Indexed() && k.TreeOk() && AllMarked(m, k.tt.live) && pid > 0
    modifies k.tt`holds, k.tt.live`refs
    ensures k.tt.Indexed() && k.TreeOk() && AllMarked(m, k.tt.live) && k.tt.pids.Free() == old(k.tt.pids.Free())
    ensures if pid in k.tt.byPid then
        && task == k.tt.byPid[pid] && task in k.tt.live && Marked(m, task) && task in old(k.tt.holds)
        && old(k.tt.holds)[task] >= (if task in k.tt.attached then 0 else 1)
        && k.tt.holds == old(k.tt.holds)[task := old(k.tt.holds)[task] + 1]
      else task == null && k.tt.holds == old(k.tt.holds)
  {
    KnownPid(k, pid);
    task := k.tt.TaskLookup(pid);
  }

  /** One task, found by its pid. */
  method KillOne(k: Kernel, pid: int, sig: int, ghost m: map<Task, Mark>) returns (e: Errno)
    requires k.tt.Indexed() && k.TreeOk() && AllMarked(m, k.tt.live) && pid > 0
    requires sig != 0 && pid in k.tt.byPid ==> Ready(m, k.tt.byPid[pid])
    modifies k`family, k`fields, k`exits
    modifies k.tt`byPid, k.tt`live, k.tt`chains, k.tt`holds, k.tt.table, k.tt.pids, k.tt.pids.stack, k.tt.live`hashNext, k.tt.live`refs
    modifies k.tt.live`pending, k.tt.live`state, k.tt.live`exited, k.tt.live`signaled, k.tt.live`termsig
    modifies k.tt.live`stopped, k.tt.live`stopsig, k.tt.live`continued
    ensures k.tt.Indexed() && k.TreeOk() && k.tt.byPid == old(k.tt.byPid) && k.tt.live == old(k.tt.live)
    ensures k.tt.holds == old(k.tt.holds) && k.tt.pids.Free() == old(k.tt.pids.Free())
    ensures e == if pid in old(k.tt.byPid) then EOK else ESRCH
    ensures var hit := if e == EOK && sig != 0 then [k.tt.byPid[pid]] else [];
      AllMarked(HitAll(m, hit, sig), k.tt.live) && k.family == StruckAll(old(k.family), hit, sig)
  {
    ghost var holds := k.tt.holds;
    NoHit(m, holds, k.family, sig);
    var task := LookUp(k, pid, m);
    if task == null {
      return ESRCH;
    }
    Touch(k, task, sig, m, holds);
    e := EOK;
  }

  lemma KnownPid(k: Kernel, pid: int)
    requires k.tt.Indexed()
    ensures pid in k.tt.byPid ==> var t := k.tt.byPid[pid];
      t in k.tt.live && t in k.tt.holds && k.tt.holds[t] >= if t in k.tt.attached then 0 else 1
  {
    if pid in k.tt.byPid {
      var refs := k.tt.RefCounts();
      assert LiveOk(k.tt.byPid, refs.Keys, pid);
      assert CountOk(refs, k.tt.holds, k.tt.attached, k.tt.byPid[pid]);
    }
  }

  /** The process group that ixland_kill addresses with a pid that is not positive. */
  function GroupMeant(pid: int, ownGroup: int): int {
    if pid == 0 then ownGroup else -pid
  }

  /** Whom ixland_kill reaches: the task of that pid, or a process group. */
  ghost function Targets(k: Kernel, current: Task?, pid: int): seq<Task>
    reads k.tt`byPid, k.tt`chains, k.tt`live, k.tt.live`pgid, if current != null then {current} else {}
  {
    if pid > 0 then if pid in k.tt.byPid then [k.tt.byPid[pid]] else []
    else if pid == -1 || (pid == 0 && current == null) then []
    else Reached(k, GroupMeant(pid, if current == null then 0 else current.pgid))
  }

  function KillResult(pid: int, sig: int, nobody: bool, pgrp: int, nothing: bool): Errno {
    if sig < 0 || sig >= NSIG then EINVAL
    else if pid == 0 && nobody then ESRCH
    else if pid == -1 then EPERM
    else if pid <= 0 && pgrp <= 0 then EINVAL
    else if nothing then ESRCH else EOK
  }

  /** A signal to whom the pid means: m is what the tasks are like before. */
  method Send(k: Kernel, current: Task?, pid: int, sig: int, ghost m: map<Task, Mark>) returns (e: Errno)
    requires k.tt.Indexed() && k.TreeOk() && AllMarked(m, k.tt.live)
    requires sig != 0 ==> forall t {:trigger Ready(m, t)} :: t in Targets(k, current, pid) ==> Ready(m, t)
    modifies k`family, k`fields, k`exits
    modifies k.tt`byPid, k.tt`live, k.tt`chains, k.tt`holds, k.tt.table, k.tt.pids, k.tt.pids.stack, k.tt.live`hashNext, k.tt.live`refs
    modifies k.tt.live`pending, k.tt.live`state, k.tt.live`exited, k.tt.live`signaled, k.tt.live`termsig
    modifies k.tt.live`stopped, k.tt.live`stopsig, k.tt.live`continued
    ensures k.tt.Indexed() && k.TreeOk() && k.tt.byPid == old(k.tt.byPid) && k.tt.holds == old(k.tt.holds)
    ensures k.tt.live == old(k.tt.live) && k.tt.pids.Free() == old(k.tt.pids.Free())
    ensures e == KillResult(pid, sig, current == null, GroupMeant(pid, if current == null then 0 else current.pgid),
      old(Targets(k, current, pid)) == [])
    ensures var hit := if e == EOK && sig != 0 then old(Targets(k, current, pid)) else [];
      AllMarked(HitAll(m, hit, sig), k.tt.live) && k.family == StruckAll(old(k.family), hit, sig)
  {
    NoHit(m, k.tt.holds, k.family, sig);
    if sig < 0 || sig >= NSIG {
      return EINVAL;
    }
    if pid <= 0 {
      if pid == 0 {
        if current == null {
          return ESRCH;
        }
        e := SendToGroup(k, current.pgid, sig, m);
        return;
      } else if pid == -1 {
        return EPERM;
      } else {
        e := SendToGroup(k, -pid, sig, m);
        return;
      }
    }
    e := KillOne(k, pid, sig, m);
  }

  // -- what the calls do to the fields of the tasks --

  ghost function Marks(tasks: set<Task>): map<Task, Mark>
    reads tasks`pending, tasks`state, tasks`exitStatus, tasks`exited, tasks`signaled, tasks`termsig
    reads tasks`stopped, tasks`stopsig, tasks`continued
  {
    map t | t in tasks :: Mark(t.pending, t.Flags(), t.state)
  }

  lemma MarksAre(m: map<Task, Mark>, tasks: set<Task>)
    requires AllMarked(m, tasks)
    ensures forall t :: t in tasks ==> t in m && m[t] == Mark(t.pending, t.Flags(), t.state)
  {
    forall t | t in tasks ensures Marked(m, t) { }
  }

  lemma {:induction false} StruckAllIs(family: Family<Task>, hit: seq<Task>, sig: int)
    ensures StruckAll(family, hit, sig) == family.(dead := family.dead
      + if sig in {SIGTERM, SIGKILL, SIGINT} then set t | t in hit && t in family.tree.kids else {})
  {
    if hit != [] {
      var n := |hit| - 1;
      StruckAllIs(family, hit[..n], sig);
      assert hit == hit[..n] + [hit[n]];
    }
  }

  /** The reached tasks are those of the group, each of them if there are at most 256. */
  lemma GroupIs(k: Kernel, pgrp: int, found: seq<Task>)
    requires k.tt.Indexed() && found == Reached(k, pgrp)
    ensures GroupOf(k.tt.live, pgrp) == {} <==> forall t :: t in k.tt.live ==> t.pgid != pgrp
    ensures NoDup(found) && forall t :: t in found ==> t in k.tt.live && t.pgid == pgrp
    ensures |found| == 256 || forall t :: t in k.tt.live && t.pgid == pgrp ==> t in found
    ensures Counted(found, k.tt.holds, k.tt.live, k.tt.attached)
  {
    ReachedIsGroup(k, pgrp);
    if t :| t in k.tt.live && t.pgid == pgrp {
      assert t in GroupOf(k.tt.live, pgrp);
    }
  }

  /**
    ixland_killpg: EINVAL for a bad number, ESRCH if and only if the group is empty, and otherwise the signal
    reaches the tasks of the group, each of them if there are at most 256. Every reference count is as it was.
   */
  method Killpg(k: Kernel, pgrp: int, sig: int) returns (e: Errno, ghost hit: seq<Task>)
    requires k.tt.Indexed() && k.TreeOk()
    requires sig != 0 ==> forall t :: t in Reached(k, pgrp) ==> t.pending.Some?
    modifies k`family, k`fields, k`exits
    modifies k.tt`byPid, k.tt`live, k.tt`chains, k.tt`holds, k.tt.table, k.tt.pids, k.tt.pids.stack, k.tt.live`hashNext, k.tt.live`refs
    modifies k.tt.live`pending, k.tt.live`state, k.tt.live`exited, k.tt.live`signaled, k.tt.live`termsig
    modifies k.tt.live`stopped, k.tt.live`stopsig, k.tt.live`continued
    ensures k.tt.Indexed() && k.TreeOk() && k.tt.byPid == old(k.tt.byPid) && k.tt.live == old(k.tt.live)
    ensures k.tt.holds == old(k.tt.holds) && k.tt.pids.Free() == old(k.tt.pids.Free())
    ensures k.tt.RefCounts() == old(k.tt.RefCounts())
    ensures e == if sig < 0 || sig >= 64 || pgrp <= 0 then EINVAL
                 else if old(forall t :: t in k.tt.live ==> t.pgid != pgrp) then ESRCH else EOK
    ensures NoDup(hit) && forall t :: t in hit ==> t in old(k.tt.live) && old(t.pgid) == pgrp
    ensures if e != EOK || sig == 0 then hit == []
            else |hit| == 256 || forall t :: t in old(k.tt.live) && old(t.pgid) == pgrp ==> t in hit
    ensures forall t :: t in old(k.tt.live) && t in hit ==>
      && old(t.pending).Some? && t.pending == Some(old(t.pending.value) + {sig})
      && t.state == (if sig == SIGSTOP then Stopped else if sig == SIGCONT then Running
                     else if sig in {SIGTERM, SIGKILL, SIGINT} then Zombie else old(t.state))
      && t.stopped == (if sig == SIGSTOP then true else if sig == SIGCONT then false else old(t.stopped))
      && t.stopsig == (if sig == SIGSTOP then SIGSTOP else old(t.stopsig))
      && t.continued == (old(t.continued) || sig == SIGCONT)
      && t.signaled == (old(t.signaled) || sig in {SIGTERM, SIGKILL, SIGINT})
      && t.termsig == (if sig in {SIGTERM, SIGKILL, SIGINT} then sig else old(t.termsig))
      && t.exited == (old(t.exited) || sig in {SIGTERM, SIGKILL, SIGINT}) && t.exitStatus == old(t.exitStatus)
    ensures forall t :: t in old(k.tt.live) && t !in hit ==>
      t.pending == old(t.pending) && t.state == old(t.state) && t.Flags() == old(t.Flags())
    ensures k.family == old(k.family).(dead := old(k.family.dead)
      + if sig in {SIGTERM, SIGKILL, SIGINT} then set t | t in hit && t in old(k.family.tree.kids) else {})
  {
    ghost var m, family, found := Marks(k.tt.live), k.family, Reached(k, pgrp);
    GroupIs(k, pgrp, found);
    e := SendToGroup(k, pgrp, sig, m);
    hit := if e == EOK && sig != 0 then found else [];
    StruckAllIs(family, hit, sig);
    MarksAre(HitAll(m, hit, sig), k.tt.live);
  }

  /** Whom ixland_kill hits. */
  method Aim(k: Kernel, current: Task?, pid: int, sig: int, ghost m: map<Task, Mark>) returns (e: Errno, ghost hit: seq<Task>)
    requires k.tt.Indexed() && k.TreeOk() && AllMarked(m, k.tt.live)
    requires sig != 0 ==> forall t {:trigger Ready(m, t)} :: t in Targets(k, current, pid) ==> Ready(m, t)
    modifies k`family, k`fields, k`exits
    modifies k.tt`byPid, k.tt`live, k.tt`chains, k.tt`holds, k.tt.table, k.tt.pids, k.tt.pids.stack, k.tt.live`hashNext, k.tt.live`refs
    modifies k.tt.live`pending, k.tt.live`state, k.tt.live`exited, k.tt.live`signaled, k.tt.live`termsig
    modifies k.tt.live`stopped, k.tt.live`stopsig, k.tt.live`continued
    ensures k.tt.Indexed() && k.TreeOk() && k.tt.byPid == old(k.tt.byPid) && k.tt.live == old(k.tt.live)
    ensures k.tt.holds == old(k.tt.holds) && k.tt.pids.Free() == old(k.tt.pids.Free())
    ensures e == if sig < 0 || sig >= 64 then EINVAL
                 else if pid > 0 then (if pid in old(k.tt.byPid) then EOK else ESRCH)
                 else if pid == 0 && current == null then ESRCH
                 else if pid == -1 then EPERM
                 else
                   var pgrp := if pid == 0 then old(current.pgid) else -pid;
                   if pgrp <= 0 then EINVAL else if old(forall t :: t in k.tt.live ==> t.pgid != pgrp) then ESRCH else EOK
    ensures NoDup(hit) && forall t :: t in hit ==> t in old(k.tt.live)
    ensures if e != EOK || sig == 0 then hit == []
            else if pid > 0 then hit == [old(k.tt.byPid)[pid]]
            else
              var pgrp := if pid == 0 then old(current.pgid) else -pid;
              && (forall t :: t in hit ==> old(t.pgid) == pgrp)
              && (|hit| == 256 || forall t :: t in old(k.tt.live) && old(t.pgid) == pgrp ==> t in hit)
    ensures AllMarked(HitAll(m, hit, sig), k.tt.live) && k.family == StruckAll(old(k.family), hit, sig)
    ensures forall t {:trigger t in hit} :: t in hit ==> Ready(m, t)
  {
    ghost var found := Targets(k, current, pid);
    TargetsAre(k, current, pid);
    e := Send(k, current, pid, sig, m);
    hit := if e == EOK && sig != 0 then found else [];
  }

  /** ixland_kill, called by current: signal 0 hits nobody. */
  method Kill(k: Kernel, current: Task?, pid: int, sig: int) returns (e: Errno, ghost hit: seq<Task>)
    requires k.tt.Indexed() && k.TreeOk()
    requires sig != 0 ==> forall t :: t in Targets(k, current, pid) ==> t.pending.Some?
    modifies k`family, k`fields, k`exits
    modifies k.tt`byPid, k.tt`live, k.tt`chains, k.tt`holds, k.tt.table, k.tt.pids, k.tt.pids.stack, k.tt.live`hashNext, k.tt.live`refs
    modifies k.tt.live`pending, k.tt.live`state, k.tt.live`exited, k.tt.live`signaled, k.tt.live`termsig
    modifies k.tt.live`stopped, k.tt.live`stopsig, k.tt.live`continued
    ensures k.tt.Indexed() && k.TreeOk() && k.tt.byPid == old(k.tt.byPid) && k.tt.live == old(k.tt.live)
    ensures k.tt.holds == old(k.tt.holds) && k.tt.pids.Free() == old(k.tt.pids.Free())
    ensures e == if sig < 0 || sig >= 64 then EINVAL
                 else if pid > 0 then (if pid in old(k.tt.byPid) then EOK else ESRCH)
                 else if pid == 0 && current == null then ESRCH
                 else if pid == -1 then EPERM
                 else
                   var pgrp := if pid == 0 then old(current.pgid) else -pid;
                   if pgrp <= 0 then EINVAL else if old(forall t :: t in k.tt.live ==> t.pgid != pgrp) then ESRCH else EOK
    ensures NoDup(hit) && forall t :: t in hit ==> t in old(k.tt.live)
    ensures if e != EOK || sig == 0 then hit == []
            else if pid > 0 then hit == [old(k.tt.byPid)[pid]]
            else
              var pgrp := if pid == 0 then old(current.pgid) else -pid;
              && (forall t :: t in hit ==> old(t.pgid) == pgrp)
              && (|hit| == 256 || forall t :: t in old(k.tt.live) && old(t.pgid) == pgrp ==> t in hit)
    ensures forall t :: t in old(k.tt.live) && t in hit ==>
      && old(t.pending).Some? && t.pending == Some(old(t.pending.value) + {sig})
      && t.state == (if sig == SIGSTOP then Stopped else if sig == SIGCONT then Running
                     else if sig in {SIGTERM, SIGKILL, SIGINT} then Zombie else old(t.state))
      && t.stopped == (if sig == SIGSTOP then true else if sig == SIGCONT then false else old(t.stopped))
      && t.stopsig == (if sig == SIGSTOP then SIGSTOP else old(t.stopsig))
      && t.continued == (old(t.continued) || sig == SIGCONT)
      && t.signaled == (old(t.signaled) || sig in {SIGTERM, SIGKILL, SIGINT})
      && t.termsig == (if sig in {SIGTERM, SIGKILL, SIGINT} then sig else old(t.termsig))
      && t.exited == (old(t.exited) || sig in {SIGTERM, SIGKILL, SIGINT}) && t.exitStatus == old(t.exitStatus)
    ensures forall t :: t in old(k.tt.live) && t !in hit ==>
      t.pending == old(t.pending) && t.state == old(t.state) && t.Flags() == old(t.Flags())
    ensures k.family == old(k.family).(dead := old(k.family.dead)
      + if sig in {SIGTERM, SIGKILL, SIGINT} then set t | t in hit && t in old(k.family.tree.kids) else {})
  {
    ghost var m, family := Marks(k.tt.live), k.family;
    TargetsAre(k, current, pid);
    e, hit := Aim(k, current, pid, sig, m);
    StruckAllIs(family, hit, sig);
    MarksAre(HitAll(m, hit, sig), k.tt.live);
  }

  lemma TargetsAre(k: Kernel, current: Task?, pid: int)
    requires k.tt.Indexed()
    ensures var found := Targets(k, current, pid);
      && NoDup(found) && (forall t :: t in found ==> t in k.tt.live)
      && (pid > 0 ==> found == if pid in k.tt.byPid then [k.tt.byPid[pid]] else [])
      && (pid <= 0 && pid != -1 && (pid == 0 ==> current != null) ==>
           var pgrp := if pid == 0 then current.pgid else -pid;
           && (found == [] <==> forall t :: t in k.tt.live ==> t.pgid != pgrp)
           && (forall t :: t in found ==> t.pgid == pgrp)
           && (|found| == 256 || forall t :: t in k.tt.live && t.pgid == pgrp ==> t in found))
  {
    KnownPid(k, pid);
    if pid <= 0 && pid != -1 && (pid == 0 ==> current != null) {
      var pgrp := if pid == 0 then current.pgid else -pid;
      GroupIs(k, pgrp, Reached(k, pgrp));
      ReachedIsGroup(k, pgrp);
    }
  }
}
