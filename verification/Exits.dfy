/** IXLandSystem/kernel/exit.c: ixland_exit, up to the end of the thread, as one atomic step. */
module Exits {
  import opened Links
  import opened Status
  import opened Tasks
  import opened ProcessTree
  import opened Kernels

  /** The child gets p as its parent. */
  method Rehang(child: Task, p: Task, ghost f: S.Fields, ghost s: seq<Task>, ghost j: nat,
                ghost exits: map<Task, bool>, ghost tasks: set<Task>)
    requires j < |s| && s[j] == child && child in tasks && InMemory(S.Rehung(f, s[..j], p), exits, tasks)
    modifies child`parent, child`ppid
    ensures InMemory(S.Rehung(f, s[..j + 1], p), exits, tasks)
  {
    child.parent := p;
    child.ppid := p.pid;
    assert s[..j + 1] == s[..j] + [child];
    forall t | t in tasks ensures Held(S.Rehung(f, s[..j + 1], p), exits, t) {
      assert old(Held(S.Rehung(f, s[..j], p), exits, t));
    }
  }

  /** All children of task get init as their parent. */
  method RehangAll(task: Task, init: Task, ghost s: seq<Task>, ghost f: S.Fields, ghost exits: map<Task, bool>, ghost tasks: set<Task>)
    requires task in f.head && task in tasks && Path(f.next, null, f.head[task], s) && (forall c :: c in s ==> c in tasks)
    requires InMemory(f, exits, tasks)
    modifies tasks`parent, tasks`ppid
    ensures InMemory(S.Rehung(f, s, init), exits, tasks)
  {
    assert Held(f, exits, task);
    var child := task.children;
    ghost var j := 0;
    assert s[0..] == s && s[..0] == [];
    assert InMemory(S.Rehung(f, s[..0], init), exits, tasks) by {
      forall t | t in tasks ensures Held(S.Rehung(f, s[..0], init), exits, t) {
        assert Held(f, exits, t);
      }
    }
    while child != null
      invariant j <= |s| && (if j < |s| then child == s[j] else child == null)
      invariant InMemory(S.Rehung(f, s[..j], init), exits, tasks)
      decreases |s| - j
    {
      PathAt(f.next, null, f.head[task], s, j);
      Rehang(child, init, f, s, j, exits, tasks);
      assert Held(S.Rehung(f, s[..j + 1], init), exits, s[j]);
      child := child.nextSibling;
      j := j + 1;
    }
    assert s[..|s|] == s;
  }

  /** The child's parent pid is 1; its parent pointer stays. */
  method Disown(child: Task, ghost f: S.Fields, ghost s: seq<Task>, ghost j: nat, ghost exits: map<Task, bool>, ghost tasks: set<Task>)
    requires j < |s| && s[j] == child && child in tasks && InMemory(S.Disowned(f, s[..j]), exits, tasks)
    modifies child`ppid
    ensures InMemory(S.Disowned(f, s[..j + 1]), exits, tasks)
  {
    child.ppid := 1;
    assert s[..j + 1] == s[..j] + [child];
    forall t | t in tasks ensures Held(S.Disowned(f, s[..j + 1]), exits, t) {
      assert old(Held(S.Disowned(f, s[..j]), exits, t));
    }
  }

  method DisownAll(task: Task, ghost s: seq<Task>, ghost f: S.Fields, ghost exits: map<Task, bool>, ghost tasks: set<Task>)
    requires task in f.head && task in tasks && Path(f.next, null, f.head[task], s) && (forall c :: c in s ==> c in tasks)
    requires InMemory(f, exits, tasks)
    modifies tasks`ppid
    ensures InMemory(S.Disowned(f, s), exits, tasks)
  {
    assert Held(f, exits, task);
    var child := task.children;
    ghost var j := 0;
    assert s[0..] == s && s[..0] == [];
    assert InMemory(S.Disowned(f, s[..0]), exits, tasks) by {
      forall t | t in tasks ensures Held(S.Disowned(f, s[..0]), exits, t) {
        assert Held(f, exits, t);
      }
    }
    while child != null
      invariant j <= |s| && (if j < |s| then child == s[j] else child == null)
      invariant InMemory(S.Disowned(f, s[..j]), exits, tasks)
      decreases |s| - j
    {
      PathAt(f.next, null, f.head[task], s, j);
      Disown(child, f, s, j, exits, tasks);
      assert Held(S.Disowned(f, s[..j + 1]), exits, s[j]);
      child := child.nextSibling;
      j := j + 1;
    }
    assert s[..|s|] == s;
  }

  /** The last child is found by following the list. */
  method LastChild(task: Task, ghost s: seq<Task>, ghost f: S.Fields, ghost exits: map<Task, bool>, ghost tasks: set<Task>)
    returns (last: Task)
    requires task in tasks && task in f.head && s != [] && Path(f.next, null, f.head[task], s) && (forall c :: c in s ==> c in tasks)
    requires InMemory(f, exits, tasks)
    ensures last == s[|s| - 1]
  {
    assert Held(f, exits, task);
    PathAt(f.next, null, f.head[task], s, 0);
    last := task.children;
    ghost var j := 0;
    assert Held(f, exits, s[0]);
    while last.nextSibling != null
      invariant j < |s| && last == s[j] && Held(f, exits, last)
      decreases |s| - j
    {
      PathAt(f.next, null, f.head[task], s, j);
      assert Held(f, exits, s[j + 1]);
      last := last.nextSibling;
      j := j + 1;
    }
    PathAt(f.next, null, f.head[task], s, j);
  }

  /** The whole list of task goes in front of init's. */
  method Splice(task: Task, init: Task, ghost s: seq<Task>, ghost f: S.Fields, ghost exits: map<Task, bool>, ghost tasks: set<Task>)
    requires task in tasks && init in tasks && task != init && task in f.head && init in f.head
    requires s != [] && Path(f.next, null, f.head[task], s) && (forall c :: c in s ==> c in tasks)
    requires InMemory(f, exits, tasks)
    modifies tasks`nextSibling, task`children, init`children
    ensures InMemory(S.Spliced(f, s, task, init), exits, tasks)
  {
    var last := LastChild(task, s, f, exits, tasks);
    Relink(task, init, last, s, f, exits, tasks);
  }

  method Relink(task: Task, init: Task, last: Task, ghost s: seq<Task>, ghost f: S.Fields,
                ghost exits: map<Task, bool>, ghost tasks: set<Task>)
    requires task in tasks && init in tasks && task != init && task in f.head && init in f.head
    requires s != [] && last == s[|s| - 1] && last in tasks && InMemory(f, exits, tasks)
    modifies last`nextSibling, task`children, init`children
    ensures InMemory(S.Spliced(f, s, task, init), exits, tasks)
  {
    assert Held(f, exits, task) && Held(f, exits, init);
    LeadOn(last, init.children, f, exits, tasks);
    PassHead(task, init, f.(next := f.next[last := f.head[init]]), exits, tasks);
  }

  method LeadOn(last: Task, next: Task?, ghost f: S.Fields, ghost exits: map<Task, bool>, ghost tasks: set<Task>)
    requires last in tasks && InMemory(f, exits, tasks)
    modifies last`nextSibling
    ensures InMemory(f.(next := f.next[last := next]), exits, tasks)
  {
    last.nextSibling := next;
    forall t | t in tasks ensures Held(f.(next := f.next[last := next]), exits, t) {
      assert old(Held(f, exits, t));
    }
  }

  method PassHead(task: Task, init: Task, ghost f: S.Fields, ghost exits: map<Task, bool>, ghost tasks: set<Task>)
    requires task in tasks && init in tasks && task != init && task in f.head && init in f.head && InMemory(f, exits, tasks)
    modifies task`children, init`children
    ensures InMemory(f.(head := f.head[init := f.head[task]][task := null]), exits, tasks)
  {
    assert Held(f, exits, task);
    init.children := task.children;
    task.children := null;
    forall t | t in tasks ensures Held(f.(head := f.head[init := f.head[task]][task := null]), exits, t) {
      assert old(Held(f, exits, t));
    }
  }

  method MarkExited(task: Task, status: int, ghost f: S.Fields, ghost exits: map<Task, bool>, ghost tasks: set<Task>)
    requires task in tasks && InMemory(f, exits, tasks)
    modifies task`exitStatus, task`exited, task`state
    ensures InMemory(f, exits[task := true], tasks)
    ensures task.Flags() == Apply(old(task.Flags()), Act.Exit(status)) && task.state == Zombie
  {
    task.exitStatus := status;
    task.exited := true;
    task.state := Zombie;
    forall t | t in tasks ensures Held(f, exits[task := true], t) {
      assert old(Held(f, exits, t));
    }
  }

  /** ixland_exit hands the children of task on; what is left of it is for its parent to reap. */
  method HandOver(task: Task, init: Task, ghost s: seq<Task>, ghost f: S.Fields, ghost exits: map<Task, bool>, ghost tasks: set<Task>)
    requires task in tasks && init in tasks && task in f.head && init in f.head
    requires Path(f.next, null, f.head[task], s) && (forall c :: c in s ==> c in tasks)
    requires InMemory(f, exits, tasks)
    modifies tasks`parent, tasks`ppid, tasks`nextSibling, task`children, init`children
    ensures InMemory(ExitFields(f, s, task, init), exits, tasks)
  {
    assert Held(f, exits, task);
    if task.children != null && init != task {
      RehangAll(task, init, s, f, exits, tasks);
      Splice(task, init, s, S.Rehung(f, s, init), exits, tasks);
    } else if task.children != null {
      DisownAll(task, s, f, exits, tasks);
    }
  }

  /** What becomes of the fields of the other tasks: those of s are handed to init, or told that their parent is 1. */
  method HandOverAll(task: Task, init: Task, ghost s: seq<Task>, ghost f: S.Fields, ghost exits: map<Task, bool>, ghost tasks: set<Task>)
    requires task in tasks && init in tasks && task in f.head && init in f.head
    requires Path(f.next, null, f.head[task], s) && (forall c :: c in s ==> c in tasks)
    requires InMemory(f, exits, tasks)
    modifies tasks`parent, tasks`ppid, tasks`nextSibling, task`children, init`children
    ensures InMemory(ExitFields(f, s, task, init), exits, tasks)
    ensures task != init ==> task.children == null && forall c :: c in s ==> c.parent == init && c.ppid == init.pid
    ensures task == init ==> forall c :: c in s ==> c.parent == old(c.parent) && c.ppid == 1
    ensures forall t :: t in tasks && t !in s ==> t.parent == old(t.parent) && t.ppid == old(t.ppid)
  {
    HandOver(task, init, s, f, exits, tasks);
    forall t | t in tasks
      ensures t in s && task != init ==> t.parent == init && t.ppid == init.pid
      ensures t in s && task == init ==> t.parent == old(t.parent) && t.ppid == 1
      ensures t !in s ==> t.parent == old(t.parent) && t.ppid == old(t.ppid)
    {
      assert old(Held(f, exits, t)) && Held(ExitFields(f, s, task, init), exits, t);
    }
    assert Held(ExitFields(f, s, task, init), exits, task);
  }

  method LeaveBehind(task: Task, init: Task, status: int, ghost s: seq<Task>, ghost f: S.Fields,
                     ghost exits: map<Task, bool>, ghost tasks: set<Task>)
    requires task in tasks && init in tasks && task in f.head && init in f.head
    requires Path(f.next, null, f.head[task], s) && (forall c :: c in s ==> c in tasks)
    requires InMemory(f, exits, tasks)
    modifies tasks`parent, tasks`ppid, tasks`nextSibling, task`children, init`children
    modifies task`exitStatus, task`exited, task`state
    ensures InMemory(ExitFields(f, s, task, init), exits[task := true], tasks)
    ensures task.Flags() == Apply(old(task.Flags()), Act.Exit(status)) && task.state == Zombie
    ensures task != init ==> task.children == null && forall c :: c in s ==> c.parent == init && c.ppid == init.pid
    ensures task == init ==> forall c :: c in s ==> c.parent == old(c.parent) && c.ppid == 1
    ensures forall t :: t in tasks && t !in s ==> t.parent == old(t.parent) && t.ppid == old(t.ppid)
  {
    MarkExited(task, status, f, exits, tasks);
    HandOverAll(task, init, s, f, exits[task := true], tasks);
  }

  method Leave(k: Kernel, task: Task, status: int)
    requires k.TreeOk() && task in k.family.tree.kids
    modifies k`family, k`fields, k`exits, k.tt.attached`parent, k.tt.attached`ppid, k.tt.attached`nextSibling
    modifies task`children, k.tt.initTask`children, task`exitStatus, task`exited, task`state
    ensures k.TreeOk()
    ensures old(k.family.tree.root) == k.tt.initTask && k.tt.initTask in old(k.family.tree.kids)
    ensures Enabled(old(k.family), ExitStep(task, k.tt.initTask)) && k.family == Do(old(k.family), ExitStep(task, k.tt.initTask))
    ensures task.Flags() == Apply(old(task.Flags()), Act.Exit(status)) && task.state == Zombie
    ensures var init, s := k.tt.initTask, old(k.family.tree.kids[task]);
      if task != init then task.children == null && forall c :: c in s ==> c.parent == init && c.ppid == init.pid
      else forall c :: c in s ==> c.parent == old(c.parent) && c.ppid == 1
    ensures forall t :: t in k.tt.attached && t !in old(k.family.tree.kids[task]) ==> t.parent == old(t.parent) && t.ppid == old(t.ppid)
  {
    ghost var s := k.family.tree.kids[task];
    ExitShown(k.fields, k.exits, k.tt.attached, k.tt.initTask, k.family, task);
    LeaveBehind(task, k.tt.initTask, status, s, k.fields, k.exits, k.tt.attached);
    k.Record(Do(k.family, ExitStep(task, k.tt.initTask)), ExitFields(k.fields, s, task, k.tt.initTask), k.exits[task := true]);
  }

  /**
    ixland_exit, up to the end of the thread. The children of the task go in front of those of init, which
    is their parent then; the children of init itself stay where they are.
   */
  method Exit(k: Kernel, task: Task, status: int)
    requires k.Valid() && task in k.family.tree.kids
    modifies k`family, k`fields, k`exits, k.tt.attached`parent, k.tt.attached`ppid, k.tt.attached`nextSibling
    modifies task`children, k.tt.initTask`children, task`exitStatus, task`exited, task`state
    ensures k.Valid()
    ensures k.tt.initTask in old(k.family.tree.kids)
    ensures var init, kids := k.tt.initTask, old(k.family.tree.kids);
      && k.family.tree.root == old(k.family.tree.root)
      && k.family.tree.kids == (if task != init then kids[init := kids[task] + kids[init]][task := []] else kids)
      && k.family.dead == old(k.family.dead) + {task}
      && k.family.forked == old(k.family.forked) && k.family.reaped == old(k.family.reaped)
    ensures var init, s := k.tt.initTask, old(k.family.tree.kids[task]);
      if task != init then task.children == null && forall c :: c in s ==> c.parent == init && c.ppid == init.pid
      else forall c :: c in s ==> c.parent == old(c.parent) && c.ppid == 1
    ensures forall t :: t in k.tt.attached && t !in old(k.family.tree.kids[task]) ==> t.parent == old(t.parent) && t.ppid == old(t.ppid)
    ensures task.exited && task.exitStatus == status && task.state == Zombie
  {
    Leave(k, task, status);
  }

  function ExitStep(task: Task, init: Task): Step<Task> {
    if task == init then Step.Die(task) else Step.Exit(task)
  }

  /** What that step means for the lists: the children of x go in front of those of init, and all others stay. */
  lemma ExitHandsOver(family: Family<Task>, x: Task, init: Task)
    requires Enabled(family, ExitStep(x, init)) && family.tree.root == init && init in family.tree.kids
    ensures var kids, family' := family.tree.kids, Do(family, ExitStep(x, init));
      && family'.tree.kids == (if x != init then kids[init := kids[x] + kids[init]][x := []] else kids)
      && family'.dead == family.dead + {x}
  {
  }

  ghost function ExitFields(f: S.Fields, s: seq<Task>, task: Task, init: Task): S.Fields
    requires task in f.head && init in f.head
  {
    if s == [] then f
    else if task == init then S.Disowned(f, s)
    else S.Spliced(S.Rehung(f, s, init), s, task, init)
  }

  lemma ExitShown(f: S.Fields, exits: map<Task, bool>, tasks: set<Task>, init: Task, family: Family<Task>, x: Task)
    requires FamilyShown(f, exits, tasks, init, family) && x in family.tree.kids
    ensures var s := family.tree.kids[x];
      && x in tasks && init in tasks && x in f.head && init in f.head
      && Path(f.next, null, f.head[x], s) && (forall c :: c in s ==> c in tasks)
      && family.tree.root == init && init in family.tree.kids && Enabled(family, ExitStep(x, init))
      && FamilyShown(ExitFields(f, s, x, init), exits[x := true], tasks, init, Do(family, ExitStep(x, init)))
  {
    assert Spelled(family, 0);
    var s, step := family.tree.kids[x], ExitStep(x, init);
    TidyStepKeeps(family, step);
    ExitRepresents(f, family, exits[init], x);
    forall c | c in s ensures c in tasks {
      assert ChildOf(family.tree, c, x);
    }
    assert S.ListOk(f, family.tree, x);
    DeadGrows(exits, family.dead, x);
    ShownAs(ExitFields(f, s, x, init), exits[x := true], tasks, init, Do(family, step));
  }

  lemma ExitRepresents(f: S.Fields, family: Family<Task>, gone: bool, x: Task)
    requires S.Represents(f, family.tree, gone) && EachAccountedFor(family) && x in family.tree.kids
    ensures family.tree.root in family.tree.kids
    ensures var init := family.tree.root;
      && x in f.head && init in f.head
      && S.Represents(ExitFields(f, family.tree.kids[x], x, init), Do(family, ExitStep(x, init)).tree, gone || x == init)
  {
    if x == family.tree.root {
      S.DisownRepresents(f, family.tree, gone);
    } else {
      S.AdoptRepresents(f, family.tree, gone, x);
    }
  }
}
