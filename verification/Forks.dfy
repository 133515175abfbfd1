/**
  IXLandSystem/kernel/fork.c: ixland_fork, without the handshake between the two threads. The call is one
  atomic step.
 */
module Forks {
  import opened Links
  import opened Status
  import opened Tasks
  import opened ProcessTree
  import opened Kernels

  method CountChildren(k: Kernel, parent: Task) returns (n: nat)
    requires k.TreeOk() && parent in k.family.tree.kids
    ensures parent in k.tt.attached && n == |k.family.tree.kids[parent]|
  {
    assert Spelled(k.family, 0);
    ghost var s, f := k.family.tree.kids[parent], k.fields;
    assert Held(f, k.exits, parent);
    assert S.ListOk(f, k.family.tree, parent);
    n := 0;
    var c := parent.children;
    assert s[0..] == s;
    while c != null
      invariant n <= |s| && (if n < |s| then c == s[n] else c == null)
      decreases |s| - n
    {
      PathAt(f.next, null, f.head[parent], s, n);
      assert Held(f, k.exits, s[n]);
      n := n + 1;
      c := c.nextSibling;
    }
  }

  /** The table, the pids and the references as they were, but for one new task that nobody else knows. */
  ghost predicate OneMore(k: Kernel, c: Task, byPid: map<int, Task>, live: set<Task>, holds: map<Task, nat>, free: seq<int>)
    reads k.tt, k.tt.pids, k.tt.pids.stack, c`refs
  {
    && k.tt.pids.Valid() && free != [] && c.pid == free[|free| - 1] && c.pid !in byPid && c !in live && c !in holds
    && k.tt.byPid == byPid[c.pid := c] && k.tt.live == live + {c} && k.tt.holds == holds[c := 1] && c.refs == 1
    && k.tt.pids.Free() == free[..|free| - 1]
  }

  method NewChild(k: Kernel, parent: Task) returns (c: Task)
    requires k.tt.Indexed() && k.tt.pids.Free() != []
    modifies k.tt`byPid, k.tt`live, k.tt`chains, k.tt`holds, k.tt.table, k.tt.pids, k.tt.pids.stack
    ensures k.tt.Indexed() && fresh(c) && c !in k.tt.attached
    ensures OneMore(k, c, old(k.tt.byPid), old(k.tt.live), old(k.tt.holds), old(k.tt.pids.Free()))
    ensures Inherited(c, parent)
  {
    assert k.tt.attached <= k.tt.RefCounts().Keys == k.tt.holds.Keys;
    c := k.tt.TaskAlloc();
    Inherit(c, parent);
  }

  ghost predicate Inherited(c: Task, parent: Task)
    reads c`ppid, c`pgid, c`sid, c`children, parent`pgid, parent`sid
    reads c`exitStatus, c`exited, c`signaled, c`termsig, c`stopped, c`stopsig, c`continued
  {
    c.ppid == parent.pid && c.pgid == parent.pgid && c.sid == parent.sid && c.children == null && c.Flags() == FRESH
  }

  method Inherit(c: Task, parent: Task)
    requires c.IsNew() && c != parent
    modifies c`ppid, c`pgid, c`sid
    ensures Inherited(c, parent)
  {
    c.ppid := parent.pid;
    c.pgid := parent.pgid;
    c.sid := parent.sid;
  }

  /** A failed fork gives the child up; the table, the pids and the references are as before it. */
  method Abandon(k: Kernel, c: Task, ghost byPid: map<int, Task>, ghost live: set<Task>, ghost holds: map<Task, nat>, ghost free: seq<int>)
    requires k.tt.Indexed() && k.TreeOk() && OneMore(k, c, byPid, live, holds, free)
    modifies k.tt`byPid, k.tt`live, k.tt`chains, k.tt`holds, k.tt.table, k.tt.pids, k.tt.pids.stack, k.tt.live`hashNext, c`refs
    ensures k.tt.Indexed() && k.TreeOk()
    ensures k.tt.byPid == byPid && k.tt.live == live && k.tt.holds == holds && k.tt.pids.Free() == free
  {
    k.tt.TaskFree(c);
    AddedAndRemoved(byPid, c.pid, c);
    AddedAndRemoved(holds, c, 1);
    assert free[..|free| - 1] + [c.pid] == free;
  }

  lemma AddedAndRemoved<K, V>(m: map<K, V>, x: K, v: V)
    requires x !in m
    ensures m[x := v] - {x} == m
  {
  }

  /** The child goes to the head of its parent's list; if its thread cannot be started it is taken off again. */
  method Start(k: Kernel, parent: Task, c: Task, threadOk: bool, ghost tasks: set<Task>)
    requires parent in tasks && c !in tasks && InMemory(k.fields, k.exits, tasks)
    requires Inherited(c, parent)
    modifies c`parent, c`nextSibling, parent`children
    ensures Inherited(c, parent)
    ensures parent in k.fields.head
    ensures if threadOk then InMemory(S.Linked(k.fields, parent, c), k.exits[c := false], tasks + {c})
            else InMemory(k.fields, k.exits, tasks)
  {
    assert Held(k.fields, k.exits, parent);
    c.parent := parent;
    c.nextSibling := parent.children;
    parent.children := c;
    if !threadOk {
      parent.children := c.nextSibling;
    }
    forall t | t in tasks ensures old(Held(k.fields, k.exits, t)) { }
  }

  /** The table knows the new task c, and nobody holds it; the next pid has been taken. */
  ghost predicate OneKept(k: Kernel, c: Task, byPid: map<int, Task>, holds: map<Task, nat>, free: seq<int>)
    reads k.tt, k.tt.pids, k.tt.pids.stack
  {
    && k.tt.pids.Valid() && k.tt.byPid == byPid[c.pid := c] && k.tt.holds == holds[c := 0] && free == k.tt.pids.Free() + [c.pid]
  }

  /** c is a new child of parent: one fork step of the family. */
  ghost predicate Born(parent: Task, c: Task, family: Family<Task>, family': Family<Task>) {
    Enabled(family, Step.Fork(parent, c)) && family' == Do(family, Step.Fork(parent, c))
  }

  /** The reference of the caller of ixland_task_alloc is the tree's now. */
  ghost method Keep(k: Kernel, c: Task, byPid: map<int, Task>, live: set<Task>, holds: map<Task, nat>, free: seq<int>)
    requires k.tt.Indexed() && OneMore(k, c, byPid, live, holds, free) && c !in k.tt.attached
    modifies k.tt`holds, k.tt`attached
    ensures k.tt.Indexed() && k.tt.attached == old(k.tt.attached) + {c} && OneKept(k, c, byPid, holds, free)
  {
    k.tt.Attach(c);
    assert free == free[..|free| - 1] + [c.pid];
  }

  /** The new child is in the list of its parent: it belongs to the tree now, which is that of family'. */
  ghost method Enroll(k: Kernel, c: Task, family': Family<Task>, fields': S.Fields, exits': map<Task, bool>,
                      byPid: map<int, Task>, live: set<Task>, holds: map<Task, nat>, free: seq<int>)
    requires k.tt.Indexed() && OneMore(k, c, byPid, live, holds, free) && c !in k.tt.attached
    requires InMemory(fields', exits', k.tt.attached + {c})
    requires FamilyShown(fields', exits', k.tt.attached + {c}, k.tt.initTask, family')
    modifies k`family, k`fields, k`exits, k.tt`holds, k.tt`attached
    ensures k.tt.Indexed() && k.TreeOk() && k.family == family' && OneKept(k, c, byPid, holds, free)
  {
    Keep(k, c, byPid, live, holds, free);
    k.Record(family', fields', exits');
  }

  /** The child gets its place in the tree, unless it has no descriptor table or no thread. */
  method Join(k: Kernel, parent: Task, c: Task, filesOk: bool, threadOk: bool,
                ghost byPid: map<int, Task>, ghost live: set<Task>, ghost holds: map<Task, nat>, ghost free: seq<int>) returns (ok: bool)
    requires k.tt.Indexed() && k.TreeOk() && parent in k.tt.attached && OneMore(k, c, byPid, live, holds, free)
    requires c !in k.tt.attached && c !in k.family.forked && c !in k.family.dead
    requires Inherited(c, parent)
    modifies k`family, k`fields, k`exits, k.tt`holds, k.tt`attached, c`parent, c`nextSibling, parent`children
    ensures k.tt.Indexed() && k.TreeOk() && ok == (filesOk && threadOk)
    ensures ok ==> Inherited(c, parent) && OneKept(k, c, byPid, holds, free)
    ensures ok ==> Born(parent, c, old(k.family), k.family)
    ensures !ok ==> k.family == old(k.family) && OneMore(k, c, byPid, live, holds, free)
  {
    ok := false;
    if filesOk {
      Start(k, parent, c, threadOk, k.tt.attached);
      if threadOk {
        ForkShown(k.fields, k.exits, k.tt.attached, k.tt.initTask, k.family, parent, c);
        Enroll(k, c, Do(k.family, Step.Fork(parent, c)), S.Linked(k.fields, parent, c), k.exits[c := false], byPid, live, holds, free);
        ok := true;
      }
    }
  }

  /** The new child stays if it has a descriptor table and a thread, and is given up otherwise. */
  method Settle(k: Kernel, parent: Task, c: Task, filesOk: bool, threadOk: bool,
                ghost byPid: map<int, Task>, ghost live: set<Task>, ghost holds: map<Task, nat>, ghost free: seq<int>)
    requires k.tt.Indexed() && k.TreeOk() && parent in k.tt.attached && OneMore(k, c, byPid, live, holds, free) && Inherited(c, parent)
    requires c !in k.tt.attached && c !in k.family.forked && c !in k.family.dead
    modifies k`family, k`fields, k`exits, c`parent, c`nextSibling, parent`children
    modifies k.tt`byPid, k.tt`live, k.tt`chains, k.tt`holds, k.tt`attached, k.tt.table, k.tt.pids, k.tt.pids.stack
    modifies k.tt.live`hashNext, c`refs
    ensures k.tt.Indexed() && k.TreeOk()
    ensures if filesOk && threadOk then
        Inherited(c, parent) && Born(parent, c, old(k.family), k.family) && OneKept(k, c, byPid, holds, free)
      else
        && k.family == old(k.family) && k.tt.byPid == byPid && k.tt.holds == holds && k.tt.pids.Free() == free
  {
    var ok := Join(k, parent, c, filesOk, threadOk, byPid, live, holds, free);
    if !ok {
      Abandon(k, c, byPid, live, holds, free);
    }
  }

  /** A child of parent, or nothing: then the table, the pids and the references are as they were. */
  method Spawn(k: Kernel, parent: Task, filesOk: bool, threadOk: bool) returns (c: Task?)
    requires k.tt.Indexed() && k.TreeOk() && parent in k.tt.attached && k.tt.pids.Free() != []
    modifies k`family, k`fields, k`exits, k.tt, k.tt.table, k.tt.pids, k.tt.pids.stack, k.tt.live`hashNext, parent`children
    ensures k.tt.Indexed() && k.TreeOk()
    ensures if filesOk && threadOk then
        && fresh(c) && Inherited(c, parent) && Born(parent, c, old(k.family), k.family)
        && OneKept(k, c, old(k.tt.byPid), old(k.tt.holds), old(k.tt.pids.Free()))
      else
        && c == null && k.family == old(k.family) && k.tt.byPid == old(k.tt.byPid) && k.tt.holds == old(k.tt.holds)
        && k.tt.pids.Free() == old(k.tt.pids.Free())
  {
    ghost var byPid, live, holds, free := k.tt.byPid, k.tt.live, k.tt.holds, k.tt.pids.Free();
    var child := NewChild(k, parent);
    Settle(k, parent, child, filesOk, threadOk, byPid, live, holds, free);
    c := if filesOk && threadOk then child else null;
  }

  /**
    filesOk and threadOk say whether the descriptor table could be copied and the thread started. On
    any failure everything is as it was.
   */
  method Fork(k: Kernel, parent: Task, filesOk: bool, threadOk: bool) returns (r: int, ghost child: Task?)
    requires k.Valid() && parent in k.family.tree.kids && k.tt.pids.Free() != []
    modifies k`family, k`fields, k`exits, k.tt, k.tt.table, k.tt.pids, k.tt.pids.stack, k.tt.live`hashNext, parent`children
    ensures k.Valid()
    ensures if |old(k.family).tree.kids[parent]| < parent.nproc && filesOk && threadOk then
        && fresh(child) && r == child.pid && child.children == null && child.Flags() == FRESH
        && child.ppid == parent.pid && child.pgid == parent.pgid && child.sid == parent.sid
        && (var kids := old(k.family.tree.kids)[parent := [child] + old(k.family.tree.kids[parent])][child := []];
            k.family == old(k.family).(tree := old(k.family.tree).(kids := kids), forked := old(k.family.forked) + {child}))
        && k.tt.byPid == old(k.tt.byPid)[r := child] && k.tt.holds == old(k.tt.holds)[child := 0]
        && old(k.tt.pids.Free()) == k.tt.pids.Free() + [r]
      else
        && r == -1 && child == null && k.family == old(k.family) && k.tt.byPid == old(k.tt.byPid) && k.tt.holds == old(k.tt.holds)
        && k.tt.pids.Free() == old(k.tt.pids.Free())
  {
    var childCount := CountChildren(k, parent);
    if childCount >= parent.nproc {
      return -1, null;
    }
    var c := Spawn(k, parent, filesOk, threadOk);
    return if c == null then -1 else c.pid, c;
  }

  /** At boot the limit on children is 0, as it was allocated, and no system call raises it. */
  method ForkAtBoot(filesOk: bool, threadOk: bool) returns (k: Kernel, r: int)
    ensures fresh(k) && k.Valid() && r == -1 && k.family == Boot(k.tt.initTask)
  {
    k := new Kernel();
    ghost var child: Task?;
    r, child := Fork(k, k.tt.initTask, filesOk, threadOk);
  }

  lemma ForkShown(f: S.Fields, exits: map<Task, bool>, tasks: set<Task>, init: Task, family: Family<Task>,
                  p: Task, c: Task)
    requires FamilyShown(f, exits, tasks, init, family) && p in f.head && p in tasks
    requires c !in tasks && c !in family.forked && c !in family.dead
    ensures Enabled(family, Step.Fork(p, c))
    ensures FamilyShown(S.Linked(f, p, c), exits[c := false], tasks + {c}, init, Do(family, Step.Fork(p, c)))
  {
    assert Spelled(family, 0);
    TidyStepKeeps(family, Step.Fork(p, c));
    S.LinkRepresents(f, family.tree, exits[init], p, c);
    var exits' := exits[c := false];
    forall t: Task | t in exits' ensures DeadMark(exits', family.dead, t) {
      assert t == c || DeadMark(exits, family.dead, t);
    }
  }
}
