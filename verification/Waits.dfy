/**
  IXLandSystem/kernel/wait.c: ixland_waitpid. A call that would block ends with the outcome Blocked; it
  goes on, as a resumed call, when the parent is woken. From one wakening to the next it is one atomic step.
 */
module Waits {
  import opened Links
  import opened Status
  import opened Tasks
  import opened ProcessTree
  import opened Kernels
  import W = WaitRules

  function Info(t: Task): W.Child
    reads t`pgid, t`exitStatus, t`exited, t`signaled, t`termsig, t`stopped, t`stopsig, t`continued
  {
    W.Child(t.pid, t.pgid, t.Flags())
  }

  ghost predicate Shows(s: seq<Task>, infos: seq<W.Child>, tasks: set<Task>)
    reads tasks`pgid, tasks`exitStatus, tasks`exited, tasks`signaled, tasks`termsig, tasks`stopped, tasks`stopsig, tasks`continued
  {
    |infos| == |s| && forall i :: 0 <= i < |s| ==> s[i] in tasks && infos[i] == Info(s[i])
  }

  /** The search for a child, along the list. */
  method Search(parent: Task, pid: int, options: W.Options, ghost s: seq<Task>, ghost infos: seq<W.Child>,
                ghost f: S.Fields, ghost exits: map<Task, bool>, ghost tasks: set<Task>) returns (child: Task?, ghost i: nat)
    requires parent in tasks && parent in f.head && Path(f.next, null, f.head[parent], s) && InMemory(f, exits, tasks)
    requires Shows(s, infos, tasks)
    ensures i == W.FirstPicked(infos, pid, parent.pgid, options)
    ensures var j := W.FirstPicked(infos, pid, parent.pgid, options); child == if j < |s| then s[j] else null
  {
    assert Held(f, exits, parent);
    child, i := parent.children, 0;
    assert s[0..] == s;
    while child != null && !W.Picked(Info(child), pid, parent.pgid, options)
      invariant i <= |s| && child == if i < |s| then s[i] else null
      invariant forall j :: 0 <= j < i ==> !W.Picked(infos[j], pid, parent.pgid, options)
      decreases |s| - i
    {
      PathAt(f.next, null, f.head[parent], s, i);
      assert Held(f, exits, s[i]);
      child := child.nextSibling;
      i := i + 1;
    }
    W.FirstPickedUnique(infos, pid, parent.pgid, options, i);
  }

  /** The child is taken out of the list of its parent. */
  method UnlinkChild(parent: Task, child: Task, ghost t: Tree<Task>, ghost i: nat,
                     ghost f: S.Fields, ghost exits: map<Task, bool>, ghost tasks: set<Task>)
    requires parent in t.kids && i < |t.kids[parent]| && child == t.kids[parent][i] && child in f.next
    requires parent in tasks && parent in f.head && Path(f.next, null, f.head[parent], t.kids[parent])
    requires (forall c :: c in t.kids[parent] ==> c in tasks) && InMemory(f, exits, tasks)
    modifies tasks`nextSibling, parent`children
    ensures InMemory(S.Unlinked(f, t, parent, i), exits - {child}, tasks - {child})
  {
    ghost var s := t.kids[parent];
    var prev := Predecessor(parent, child, s, i, f, exits, tasks);
    assert Held(f, exits, parent) && Held(f, exits, child);
    if prev == null {
      parent.children := child.nextSibling;
    } else {
      prev.nextSibling := child.nextSibling;
    }
    forall x | x in tasks - {child} ensures Held(S.Unlinked(f, t, parent, i), exits - {child}, x) {
      assert old(Held(f, exits, x));
    }
  }

  /** The child that links to the i-th one; null if that is the first. */
  method Predecessor(parent: Task, child: Task, ghost s: seq<Task>, ghost i: nat,
                     ghost f: S.Fields, ghost exits: map<Task, bool>, ghost tasks: set<Task>) returns (prev: Task?)
    requires i < |s| && child == s[i] && parent in tasks && parent in f.head && Path(f.next, null, f.head[parent], s)
    requires (forall c :: c in s ==> c in tasks) && InMemory(f, exits, tasks)
    ensures prev == if i == 0 then null else s[i - 1]
  {
    assert Held(f, exits, parent);
    PathIsAcyclic(f.next, null, f.head[parent], s);
    PathAt(f.next, null, f.head[parent], s, 0);
    prev := null;
    var cur := parent.children;
    ghost var j := 0;
    while cur != null && cur != child
      invariant j <= i && cur == s[j] && prev == if j == 0 then null else s[j - 1]
      decreases |s| - j
    {
      PathAt(f.next, null, f.head[parent], s, j);
      assert Held(f, exits, s[j]);
      prev := cur;
      cur := cur.nextSibling;
      j := j + 1;
    }
  }

  lemma ReapShown(f: S.Fields, exits: map<Task, bool>, tasks: set<Task>, init: Task, family: Family<Task>, p: Task, i: nat)
    requires FamilyShown(f, exits, tasks, init, family) && p in family.tree.kids && i < |family.tree.kids[p]|
    requires var c := family.tree.kids[p][i]; c in exits ==> exits[c]
    ensures var s, step := family.tree.kids[p], Step.Wait(p, i);
      && p in tasks && p in f.head && Path(f.next, null, f.head[p], s) && (forall c :: c in s ==> c in tasks)
      && s[i] in f.next && s[i] in family.tree.kids && Enabled(family, step)
      && (FamilyShown(S.Unlinked(f, family.tree, p, i), exits - {s[i]}, tasks - {s[i]}, init, Do(family, step)) <==>
           family.tree.kids[s[i]] == [])
  {
    assert Spelled(family, 0);
    var s, c, step := family.tree.kids[p], family.tree.kids[p][i], Step.Wait(p, i);
    assert S.ListOk(f, family.tree, p);
    forall x | x in s ensures x in tasks {
      assert ChildOf(family.tree, x, p);
    }
    assert DeadMark(exits, family.dead, c);
    S.UnlinkRepresents(f, family.tree, exits[init], p, i);
    UntidyStepLosesChildren(family, step);
    assert Spelled(Do(family, step), 0);
    DeadShrinks(exits, family.dead, c);
  }

  lemma DeadShrinks(exits: map<Task, bool>, dead: set<Task>, c: Task)
    requires DeadShown(exits, dead)
    ensures DeadShown(exits - {c}, dead)
  {
    forall t: Task | t in exits - {c} ensures DeadMark(exits - {c}, dead, t) {
      assert DeadMark(exits, dead, t);
    }
  }

  /** The tree's reference to a reaped child is dropped. */
  method LetGo(k: Kernel, child: Task)
    requires k.tt.Indexed() && child in k.tt.attached
    modifies k.tt`byPid, k.tt`live, k.tt`chains, k.tt`holds, k.tt`attached, k.tt.table, k.tt.pids, k.tt.pids.stack
    modifies k.tt.live`hashNext, child`refs
    ensures k.tt.Indexed() && k.tt.attached == old(k.tt.attached) - {child} && child in old(k.tt.holds)
    ensures Released(child, old(k.tt.holds[child]), old(k.tt.byPid), k.tt.byPid, old(k.tt.pids.Free()), k.tt.pids.Free())
  {
    k.tt.Detach(child);
    k.tt.KnownCount(child);
    k.tt.TaskFree(child);
  }

  /** The task and its pid are given up just when nobody else holds a reference. */
  ghost predicate Released(child: Task, holders: nat, byPid: map<int, Task>, byPid': map<int, Task>, free: seq<int>, free': seq<int>) {
    if holders == 0 then byPid' == byPid - {child.pid} && free' == free + [child.pid]
    else byPid' == byPid && free' == free
  }

  /** One step of the run that the family lives through; the tree is whole after it just when the child had no children. */
  ghost predicate Reaped(family: Family<Task>, family': Family<Task>, parent: Task, i: nat, whole: bool) {
    && Enabled(family, Step.Wait(parent, i)) && family' == Do(family, Step.Wait(parent, i))
    && family.tree.kids[parent][i] in family.tree.kids && (whole <==> family.tree.kids[family.tree.kids[parent][i]] == [])
  }

  /** What a wait can change: the family, the table, the references that are held, and the free pids. */
  datatype View = View(family: Family<Task>, byPid: map<int, Task>, holds: map<Task, nat>, free: seq<int>)

  ghost function Seen(k: Kernel): View
    reads k`family, k.tt`byPid, k.tt`holds, k.tt.pids, k.tt.pids.stack
    requires k.tt.pids.Valid()
  {
    View(k.family, k.tt.byPid, k.tt.holds, k.tt.pids.Free())
  }

  /** The i-th child of the parent is reaped: a wait step of the family, and the tree's reference to the child is gone. */
  ghost predicate TakenOut(v: View, v': View, parent: Task, i: nat, whole: bool) {
    && Reaped(v.family, v'.family, parent, i, whole)
    && var child := v.family.tree.kids[parent][i];
       child in v.holds && Released(child, v.holds[child], v.byPid, v'.byPid, v.free, v'.free)
  }

  /** Take a terminated child out of the tree; the tree stays whole just when the child has no children. */
  method Reap(k: Kernel, parent: Task, child: Task, ghost i: nat)
    requires k.Valid() && parent in k.family.tree.kids && i < |k.family.tree.kids[parent]|
    requires child == k.family.tree.kids[parent][i] && child.exited
    modifies k`family, k`fields, k`exits, k.tt.attached`nextSibling, parent`children
    modifies k.tt`byPid, k.tt`live, k.tt`chains, k.tt`holds, k.tt`attached, k.tt.table, k.tt.pids, k.tt.pids.stack
    modifies k.tt.live`hashNext, child`refs
    ensures k.tt.Indexed() && TakenOut(old(Seen(k)), Seen(k), parent, i, k.TreeOk())
  {
    ghost var family', fields', exits' := OutOfTree(k, parent, child, i);
    Forget(k, child, family', fields', exits');
  }

  /** The family goes on without the child, and the tree's reference to it is dropped. */
  method Forget(k: Kernel, child: Task, ghost family': Family<Task>, ghost fields': S.Fields, ghost exits': map<Task, bool>)
    requires k.tt.Indexed() && child in k.tt.attached && InMemory(fields', exits', k.tt.attached - {child})
    modifies k`family, k`fields, k`exits
    modifies k.tt`byPid, k.tt`live, k.tt`chains, k.tt`holds, k.tt`attached, k.tt.table, k.tt.pids, k.tt.pids.stack
    modifies k.tt.live`hashNext, child`refs
    ensures k.tt.Indexed() && k.family == family'
    ensures k.TreeOk() <==> FamilyShown(fields', exits', old(k.tt.attached) - {child}, k.tt.initTask, family')
    ensures child in old(k.tt.holds)
    ensures Released(child, old(k.tt.holds[child]), old(k.tt.byPid), k.tt.byPid, old(k.tt.pids.Free()), k.tt.pids.Free())
  {
    LetGo(k, child);
    k.Record(family', fields', exits');
  }

  /** The tree without the child is in memory. */
  method OutOfTree(k: Kernel, parent: Task, child: Task, ghost i: nat)
    returns (ghost family': Family<Task>, ghost fields': S.Fields, ghost exits': map<Task, bool>)
    requires k.TreeOk() && parent in k.family.tree.kids && i < |k.family.tree.kids[parent]|
    requires child == k.family.tree.kids[parent][i] && child.exited
    modifies k.tt.attached`nextSibling, parent`children
    ensures child in k.tt.attached && InMemory(fields', exits', k.tt.attached - {child})
    ensures Reaped(k.family, family', parent, i, FamilyShown(fields', exits', k.tt.attached - {child}, k.tt.initTask, family'))
  {
    assert Held(k.fields, k.exits, child) by {
      ReapTasks(k.fields, k.exits, k.tt.attached, k.tt.initTask, k.family, parent, i);
    }
    ReapShown(k.fields, k.exits, k.tt.attached, k.tt.initTask, k.family, parent, i);
    UnlinkChild(parent, child, k.family.tree, i, k.fields, k.exits, k.tt.attached);
    family', exits' := Do(k.family, Step.Wait(parent, i)), k.exits - {child};
    fields' := S.Unlinked(k.fields, k.family.tree, parent, i);
  }

  lemma ReapTasks(f: S.Fields, exits: map<Task, bool>, tasks: set<Task>, init: Task, family: Family<Task>, p: Task, i: nat)
    requires FamilyShown(f, exits, tasks, init, family) && p in family.tree.kids && i < |family.tree.kids[p]|
    ensures family.tree.kids[p][i] in tasks
  {
    assert Spelled(family, 0);
    assert ChildOf(family.tree, family.tree.kids[p][i], p);
  }

  /** What the search and the checks after it come to, for the children as they are now. */
  method Decide(k: Kernel, parent: Task, pid: int, options: W.Options, ghost infos: seq<W.Child>) returns (child: Task?, ghost i: nat)
    requires k.TreeOk() && parent in k.family.tree.kids && parent in k.tt.attached
    requires Shows(k.family.tree.kids[parent], infos, k.tt.attached)
    ensures match W.Choose(infos, pid, parent.pgid, options)
      case None => child == null
      case Some(j) => i == j && child == k.family.tree.kids[parent][j] && infos[j] == Info(child)
  {
    ParentKnown(k.fields, k.exits, k.tt.attached, k.tt.initTask, k.family, parent);
    child, i := Search(parent, pid, options, k.family.tree.kids[parent], infos, k.fields, k.exits, k.tt.attached);
    if child != null {
      var accepted := child.exited || (options.untraced && child.stopped && !child.exited)
        || (options.continued && child.continued && !child.exited && !child.stopped);
      if !accepted {
        child := null;
      }
    }
  }

  lemma ParentKnown(f: S.Fields, exits: map<Task, bool>, tasks: set<Task>, init: Task, family: Family<Task>, p: Task)
    requires FamilyShown(f, exits, tasks, init, family) && p in family.tree.kids
    ensures p in tasks && p in f.head && Path(f.next, null, f.head[p], family.tree.kids[p])
    ensures NoDup(family.tree.kids[p]) && forall c :: c in family.tree.kids[p] ==> c in tasks
  {
    assert Spelled(family, 0);
    assert S.ListOk(f, family.tree, p);
    assert NoDup(family.tree.kids[p]);
    forall c | c in family.tree.kids[p] ensures c in tasks {
      assert ChildOf(family.tree, c, p);
    }
  }

  ghost function Infos(s: seq<Task>, tasks: set<Task>): (r: seq<W.Child>)
    reads tasks`pgid, tasks`exitStatus, tasks`exited, tasks`signaled, tasks`termsig, tasks`stopped, tasks`stopsig, tasks`continued
    ensures (forall t :: t in s ==> t in tasks) ==> Shows(s, r, tasks)
  {
    if s == [] then []
    else [if s[0] in tasks then Info(s[0]) else W.Child(0, 0, FRESH)] + Infos(s[1..], tasks)
  }

  /** What the children of the parent look like; they have different pids. */
  lemma Observe(k: Kernel, parent: Task) returns (infos: seq<W.Child>)
    requires k.Valid() && parent in k.family.tree.kids
    ensures Shows(k.family.tree.kids[parent], infos, k.tt.attached) && parent in k.tt.attached && W.DistinctPids(infos)
  {
    var s := k.family.tree.kids[parent];
    ParentKnown(k.fields, k.exits, k.tt.attached, k.tt.initTask, k.family, parent);
    infos := Infos(s, k.tt.attached);
    forall i, j | 0 <= i < j < |infos| ensures infos[i].pid != infos[j].pid {
      assert s[i] in k.tt.attached && s[j] in k.tt.attached;
      assert NamedOk(k.tt.byPid, s[i]) && NamedOk(k.tt.byPid, s[j]);
    }
  }

  /** The chosen child is reported, and reaped if it has terminated. */
  method Report(k: Kernel, parent: Task, child: Task, ghost i: nat) returns (r: W.Outcome)
    requires k.Valid() && parent in k.family.tree.kids && i < |k.family.tree.kids[parent]|
    requires child == k.family.tree.kids[parent][i] && Held(k.fields, k.exits, child)
    modifies k`family, k`fields, k`exits, k.tt.attached`nextSibling, parent`children
    modifies k.tt`byPid, k.tt`live, k.tt`chains, k.tt`holds, k.tt`attached, k.tt.table, k.tt.pids, k.tt.pids.stack
    modifies k.tt.live`hashNext, child`refs
    ensures r == W.Got(child.pid, old(ToStatus(child.Flags()))) && k.tt.Indexed()
    ensures if old(child.exited) then TakenOut(old(Seen(k)), Seen(k), parent, i, k.TreeOk())
      else k.TreeOk() && Seen(k) == old(Seen(k))
  {
    var shouldReap := child.exited || child.signaled;
    r := W.Got(child.pid, ToStatus(child.Flags()));
    if shouldReap {
      Reap(k, parent, child, i);
    }
  }

  /** One pass over the children, and what comes of it. */
  method Scan(k: Kernel, parent: Task, pid: int, options: W.Options, ghost infos: seq<W.Child>) returns (r: W.Outcome)
    requires k.Valid() && parent in k.family.tree.kids && Shows(k.family.tree.kids[parent], infos, k.tt.attached)
    modifies k`family, k`fields, k`exits, k.tt.attached`nextSibling, parent`children
    modifies k.tt`byPid, k.tt`live, k.tt`chains, k.tt`holds, k.tt`attached, k.tt.table, k.tt.pids, k.tt.pids.stack
    modifies k.tt.live`hashNext, k.tt.attached`refs
    ensures k.tt.Indexed() && r == W.Answer(infos, pid, parent.pgid, options)
    ensures match W.ToReap(infos, pid, parent.pgid, options)
      case Some(i) => TakenOut(old(Seen(k)), Seen(k), parent, i, k.TreeOk())
      case None => k.TreeOk() && Seen(k) == old(Seen(k))
  {
    ParentKnown(k.fields, k.exits, k.tt.attached, k.tt.initTask, k.family, parent);
    assert Held(k.fields, k.exits, parent);
    var child, i := Decide(k, parent, pid, options, infos);
    if child == null {
      return if options.nohang then W.Nothing else if parent.children == null then W.NoChild else W.Blocked;
    }
    assert Held(k.fields, k.exits, child);
    r := Report(k, parent, child, i);
  }

  /** The parent is no longer a waiter when the call returns. */
  method ScanWaiting(k: Kernel, parent: Task, pid: int, options: W.Options, ghost infos: seq<W.Child>) returns (r: W.Outcome)
    requires k.Valid() && parent in k.family.tree.kids && Shows(k.family.tree.kids[parent], infos, k.tt.attached)
    modifies k`family, k`fields, k`exits, k.tt.attached`nextSibling, parent`children, parent`waiters
    modifies k.tt`byPid, k.tt`live, k.tt`chains, k.tt`holds, k.tt`attached, k.tt.table, k.tt.pids, k.tt.pids.stack
    modifies k.tt.live`hashNext, k.tt.attached`refs
    ensures parent.waiters == old(parent.waiters) - (if r.Blocked? then 0 else 1)
    ensures k.tt.Indexed() && r == W.Answer(infos, pid, parent.pgid, options)
    ensures match W.ToReap(infos, pid, parent.pgid, options)
      case Some(i) => TakenOut(old(Seen(k)), Seen(k), parent, i, k.TreeOk())
      case None => k.TreeOk() && Seen(k) == old(Seen(k))
  {
    r := Scan(k, parent, pid, options, infos);
    if !r.Blocked? {
      parent.waiters := parent.waiters - 1;
    }
  }

  /** The whole call, with what it answers and reaps by the rule on infos, the children as they are. */
  method Attend(k: Kernel, parent: Task, pid: int, options: W.Options, resumed: bool) returns (r: W.Outcome, ghost infos: seq<W.Child>)
    requires k.Valid() && parent in k.family.tree.kids
    modifies k`family, k`fields, k`exits, k.tt.attached`nextSibling, parent`children, parent`waiters
    modifies k.tt`byPid, k.tt`live, k.tt`chains, k.tt`holds, k.tt`attached, k.tt.table, k.tt.pids, k.tt.pids.stack
    modifies k.tt.live`hashNext, k.tt.attached`refs
    ensures old(Shows(k.family.tree.kids[parent], infos, k.tt.attached)) && W.DistinctPids(infos)
    ensures parent.waiters == old(parent.waiters) + (if resumed then 0 else 1) - (if r.Blocked? then 0 else 1)
    ensures k.tt.Indexed() && r == W.Answer(infos, pid, parent.pgid, options)
    ensures match W.ToReap(infos, pid, parent.pgid, options)
      case Some(i) => TakenOut(old(Seen(k)), Seen(k), parent, i, k.TreeOk())
      case None => k.TreeOk() && Seen(k) == old(Seen(k))
  {
    infos := Observe(k, parent);
    if !resumed {
      parent.waiters := parent.waiters + 1;
    }
    r := ScanWaiting(k, parent, pid, options, infos);
  }

  lemma TakenOutIs(v: View, v': View, parent: Task, i: nat, whole: bool)
    requires TakenOut(v, v', parent, i, whole)
    ensures parent in v.family.tree.kids && i < |v.family.tree.kids[parent]|
    ensures var s := v.family.tree.kids[parent];
      var child := s[i];
      && child in v.holds && child in v'.family.dead
      && v'.family.tree.kids == v.family.tree.kids[parent := s[..i] + s[i + 1..]] - {child}
      && v'.family.reaped == v.family.reaped + [child] && v'.family.forked == v.family.forked && v'.family.dead == v.family.dead
      && (whole <==> child in v.family.tree.kids && v.family.tree.kids[child] == [])
      && (if v.holds[child] == 0 then v'.byPid == v.byPid - {child.pid} && v'.free == v.free + [child.pid]
          else v'.byPid == v.byPid && v'.free == v.free)
  {
  }

  /**
    ixland_waitpid. infos are the children of the parent, in list order, as they are when the scan is
    made, and pick is the number of the one that is chosen, if one is. The parent's waiters are balanced,
    but for a call that is left waiting.
   */
  method Waitpid(k: Kernel, parent: Task, pid: int, options: W.Options, resumed: bool)
    returns (r: W.Outcome, ghost infos: seq<W.Child>, ghost pick: nat)
    requires k.Valid() && parent in k.family.tree.kids
    modifies k`family, k`fields, k`exits, k.tt.attached`nextSibling, parent`children, parent`waiters
    modifies k.tt`byPid, k.tt`live, k.tt`chains, k.tt`holds, k.tt`attached, k.tt.table, k.tt.pids, k.tt.pids.stack
    modifies k.tt.live`hashNext, k.tt.attached`refs
    ensures old(Shows(k.family.tree.kids[parent], infos, k.tt.attached)) && W.DistinctPids(infos)
    ensures parent.waiters == old(parent.waiters) + (if resumed then 0 else 1) - (if r.Blocked? then 0 else 1)
    ensures k.tt.Indexed() && pick <= |infos| == |old(k.family.tree.kids[parent])|
    ensures pick < |infos| ==>
      && W.Chosen(infos, pid, parent.pgid, options, pick)
      && var s, child := old(k.family.tree.kids[parent]), old(k.family.tree.kids[parent])[pick];
      && r == W.Got(child.pid, old(ToStatus(k.family.tree.kids[parent][pick].Flags()))) && child in old(k.tt.holds)
      && if old(k.family.tree.kids[parent][pick].exited) then
           && k.family.tree.kids == old(k.family.tree.kids)[parent := s[..pick] + s[pick + 1..]] - {child}
           && k.family.reaped == old(k.family.reaped) + [child]
           && k.family.forked == old(k.family.forked) && k.family.dead == old(k.family.dead) && child in k.family.dead
           && (k.TreeOk() <==> child in old(k.family.tree.kids) && old(k.family.tree.kids)[child] == [])
           && (if old(k.tt.holds)[child] == 0
               then k.tt.byPid == old(k.tt.byPid) - {child.pid} && k.tt.pids.Free() == old(k.tt.pids.Free()) + [child.pid]
               else k.tt.byPid == old(k.tt.byPid) && k.tt.pids.Free() == old(k.tt.pids.Free()))
         else k.TreeOk() && Seen(k) == old(Seen(k))
    ensures pick == |infos| ==>
      && (forall i: nat :: !W.Chosen(infos, pid, parent.pgid, options, i))
      && r == (if options.nohang then W.Nothing else if old(k.family.tree.kids[parent]) == [] then W.NoChild else W.Blocked)
      && k.TreeOk() && Seen(k) == old(Seen(k))
  {
    ghost var v := Seen(k);
    r, infos := Attend(k, parent, pid, options, resumed);
    pick := W.ChosenIsAnswered(infos, pid, parent.pgid, options);
    if pick < |infos| && infos[pick].flags.exited {
      TakenOutIs(v, Seen(k), parent, pick, k.TreeOk());
    }
  }
}
