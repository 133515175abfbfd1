/**
  The state of the process kernel: the task table together with the process tree that the tasks of the
  table form in memory. The system calls are in Forks, Exits, Waits and Signals.
 */
module Kernels {
  import opened Links
  import opened Pids
  import opened Status
  import opened Tasks
  import opened TaskTables
  import opened ProcessTree
  import S = Siblings

  /** Exactly the tasks that are marked exited are dead. */
  ghost predicate DeadShown(exits: map<Task, bool>, dead: set<Task>) {
    forall t: Task {:trigger DeadMark(exits, dead, t)} :: t in exits ==> DeadMark(exits, dead, t)
  }

  ghost predicate DeadMark(exits: map<Task, bool>, dead: set<Task>, t: Task) {
    t in exits ==> (exits[t] <==> t in dead)
  }

  /** Mentioned where the definition of FamilyShown is needed; the verifier leaves it folded elsewhere. */
  ghost predicate Spelled(family: Family<Task>, n: int) { true }

  /** The tree in memory is the tree of the family, and nobody in the family is unaccounted for. */
  ghost predicate FamilyShown(f: S.Fields, exits: map<Task, bool>, tasks: set<Task>, init: Task, family: Family<Task>) {
    forall n {:trigger Spelled(family, n)} :: Spelled(family, n) ==>
      && family.tree.root == init
      && init in exits
      && S.Represents(f, family.tree, exits[init])
      && EachAccountedFor(family)
      && DeadShown(exits, family.dead)
      && tasks == exits.Keys == family.tree.kids.Keys
  }

  lemma ShownAs(f: S.Fields, exits: map<Task, bool>, tasks: set<Task>, init: Task, family: Family<Task>)
    requires family.tree.root == init && init in exits && tasks == exits.Keys == family.tree.kids.Keys
    requires S.Represents(f, family.tree, exits[init]) && EachAccountedFor(family) && DeadShown(exits, family.dead)
    ensures FamilyShown(f, exits, tasks, init, family)
  {
  }

  /** f and exits are what the fields of t say; no task is terminated by a signal without being marked exited. */
  ghost predicate Held(f: S.Fields, exits: map<Task, bool>, t: Task)
    reads t`nextSibling, t`children, t`parent, t`ppid, t`exited, t`signaled
  {
    && t in f.next && t in f.head && t in f.parent && t in f.ppid && t in exits
    && f.next[t] == t.nextSibling && f.head[t] == t.children && f.parent[t] == t.parent && f.ppid[t] == t.ppid
    && exits[t] == t.exited && (t.signaled ==> t.exited)
  }

  ghost predicate InMemory(f: S.Fields, exits: map<Task, bool>, tasks: set<Task>)
    reads tasks`nextSibling, tasks`children, tasks`parent, tasks`ppid, tasks`exited, tasks`signaled
  {
    forall t {:trigger Held(f, exits, t)} :: t in tasks ==> Held(f, exits, t)
  }

  class Kernel {
    const tt: TaskTable
    /** Who is whose child, and what has become of every task so far. */
    ghost var family: Family<Task>
    /** The fields of the tasks in the tree. */
    ghost var fields: S.Fields
    ghost var exits: map<Task, bool>

    ghost predicate TreeOk()
      reads this`family, this`fields, this`exits, tt`attached
      reads tt.attached`nextSibling, tt.attached`children, tt.attached`parent, tt.attached`ppid, tt.attached`exited, tt.attached`signaled
    {
      InMemory(fields, exits, tt.attached) && FamilyShown(fields, exits, tt.attached, tt.initTask, family)
    }

    ghost predicate Valid()
      reads this`family, this`fields, this`exits, tt, tt.table, tt.pids, tt.pids.stack, tt.live`hashNext, tt.live`refs
      reads tt.attached`nextSibling, tt.attached`children, tt.attached`parent, tt.attached`ppid, tt.attached`exited, tt.attached`signaled
    {
      tt.Indexed() && TreeOk()
    }

    constructor ()
      ensures Valid() && fresh(tt) && fresh(tt.live)
      ensures family == Boot(tt.initTask) && tt.initTask.nproc == 0 && tt.pids.Free() != []
      ensures fresh(tt.table) && fresh(tt.pids) && fresh(tt.pids.stack) && tt.initTask in tt.live
    {
      var tasks := new TaskTable();
      tt := tasks;
      family := Boot(tasks.initTask);
      fields := S.Fields(map[tasks.initTask := null], map[tasks.initTask := null], map[tasks.initTask := null],
        map[tasks.initTask := MIN_PID]);
      exits := map[tasks.initTask := false];
      new;
      BootShown(fields, exits, tt.attached, tt.initTask, family);
      assert tt.initTask.Flags() == FRESH;
      assert Held(fields, exits, tt.initTask);
    }

    ghost method Record(family': Family<Task>, fields': S.Fields, exits': map<Task, bool>)
      requires InMemory(fields', exits', tt.attached)
      modifies this`family, this`fields, this`exits
      ensures (TreeOk() <==> FamilyShown(fields', exits', tt.attached, tt.initTask, family')) && family == family'
    {
      family, fields, exits := family', fields', exits';
    }
  }

  /**
    What TreeOk says of the fields: the list that starts at p.children is the list of p's children, c is on
    it just when c.parent is p, c.ppid is then the pid of p, and the dead tasks are those marked exited.
    (Children of an init that has itself exited may have the parent pid 1.)
   */
  lemma FieldsAgree(k: Kernel, c: Task, p: Task)
    requires k.TreeOk() && c in k.tt.attached && p in k.tt.attached && c != k.tt.initTask
    ensures c in k.family.tree.kids && p in k.family.tree.kids && Path(k.fields.next, null, p.children, k.family.tree.kids[p])
    ensures ChildOf(k.family.tree, c, p) <==> c.parent == p
    ensures ChildOf(k.family.tree, c, p) ==> c.ppid == p.pid || (p == k.tt.initTask && p.exited && c.ppid == 1)
    ensures c in k.family.dead <==> c.exited
  {
    assert Spelled(k.family, 0);
    var t, init := k.family.tree, k.tt.initTask;
    assert S.ListOk(k.fields, t, p) && Held(k.fields, k.exits, p) && Held(k.fields, k.exits, c) && Held(k.fields, k.exits, init);
    assert DeadMark(k.exits, k.family.dead, c) && InOneList(t, c);
    var q :| ChildOf(t, c, q);
    assert S.KidOk(k.fields, c, q, k.exits[init], init);
    if ChildOf(t, c, p) {
      assert S.KidOk(k.fields, c, p, k.exits[init], init);
    }
  }

  lemma DeadGrows(exits: map<Task, bool>, dead: set<Task>, x: Task)
    requires DeadShown(exits, dead) && x in exits
    ensures DeadShown(exits[x := true], dead + {x})
  {
    var exits' := exits[x := true];
    forall t: Task | t in exits' ensures DeadMark(exits', dead + {x}, t) {
      assert t == x || DeadMark(exits, dead, t);
    }
  }

  lemma BootShown(f: S.Fields, exits: map<Task, bool>, tasks: set<Task>, init: Task, family: Family<Task>)
    requires f == S.Fields(map[init := null], map[init := null], map[init := null], map[init := MIN_PID])
    requires init.pid == MIN_PID && exits == map[init := false] && tasks == {init} && family == Boot(init)
    ensures FamilyShown(f, exits, tasks, init, family)
  {
    BootIsAccountedFor(init);
    assert Path(f.next, null, null, []);
    assert S.ListOk(f, family.tree, init);
    assert DeadMark(exits, family.dead, init);
  }
}
