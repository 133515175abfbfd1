/**
  IXLandSystem/kernel/task.c: allocation, lookup and reference counting of tasks. The decrement in
  ixland_task_free and the unlinking that follows it are one step.
 */
module TaskTables {
  import opened Wrappers
  import opened Links
  import opened Pids
  import opened Status
  import opened Tasks

  class TaskTable {
    const table: array<Task?>
    const pids: PidAllocator
    const initTask: Task

    /** The tasks of the table: those with references left. */
    ghost var byPid: map<int, Task>
    ghost var chains: seq<seq<Task>>
    /** The tasks that have not been reaped: each has one reference from the process tree. */
    ghost var attached: set<Task>
    /** References held outside the tree, by callers of ixland_task_lookup and ixland_task_alloc. */
    ghost var holds: map<Task, nat>

    ghost var live: set<Task>

    ghost function HashNexts(): map<Task?, Task?>
      reads this`live, live`hashNext
    {
      map t: Task? | t in live :: t.hashNext
    }

    ghost function RefCounts(): map<Task, int>
      reads this`live, live`refs
    {
      map t | t in live :: t.refs
    }

    ghost function Image(): Table
      reads this`byPid, this`chains, this`holds, this`attached, this`live, table, pids, pids.stack, live`hashNext, live`refs
      requires pids.Valid()
    {
      Table(table[..], HashNexts(), chains, byPid, pids.Free(), RefCounts(), holds, attached)
    }

    ghost predicate Indexed()
      reads this`byPid, this`chains, this`holds, this`attached, this`live, table, pids, pids.stack, live`hashNext, live`refs
    {
      pids.Valid() && Consistent(Image())
    }

    /** ixland_task_init: the table and the pids are set up, and init is the first task. */
    constructor ()
      ensures Indexed() && fresh(table) && fresh(pids) && fresh(pids.stack) && fresh(live)
      ensures byPid == map[MIN_PID := initTask] && initTask.ppid == initTask.pid == MIN_PID
      ensures attached == {initTask} && holds == map[initTask := 0] && live == {initTask}
      ensures initTask.parent == null && initTask.children == null && initTask.nextSibling == null && initTask.Flags() == FRESH
      ensures initTask.nproc == 0 && pids.Free() == AllPids(PID_COUNT)[..PID_COUNT - 1]
    {
      var allocator, task := FirstTask();
      var buckets := FirstBuckets(task);
      pids, table, initTask := allocator, buckets, task;
      byPid, live, attached, holds := map[MIN_PID := task], {task}, {task}, map[task := 0];
      chains := seq(MAX_TASKS, b => if b == TaskHash(MIN_PID) then [task] else []);
      new;
      BootConsistent(Image(), initTask);
    }

    /** The pids, and init as the first to get one. */
    static method FirstTask() returns (pids: PidAllocator, task: Task)
      ensures fresh(pids) && fresh(pids.stack) && pids.Valid() && pids.Free() == AllPids(PID_COUNT)[..PID_COUNT - 1]
      ensures fresh(task) && task.pid == task.ppid == MIN_PID && task.refs == 1 && task.Flags() == FRESH && task.nproc == 0
      ensures task.parent == null && task.children == null && task.nextSibling == null && task.hashNext == null
    {
      pids := new PidAllocator();
      var pid := pids.Alloc();
      task := new Task(pid);
      task.ppid := pid;
      task.pending := Some({});
    }

    static method FirstBuckets(task: Task) returns (buckets: array<Task?>)
      requires task.pid == MIN_PID
      ensures fresh(buckets) && buckets.Length == MAX_TASKS
      ensures forall b :: 0 <= b < MAX_TASKS ==> buckets[b] == if b == TaskHash(MIN_PID) then task else null
    {
      buckets := new Task?[MAX_TASKS](_ => null);
      buckets[TaskHash(task.pid)] := task;
    }

    method TaskAlloc() returns (task: Task)
      requires Indexed() && pids.Free() != []
      modifies this`byPid, this`live, this`chains, this`holds, table, pids, pids.stack
      ensures Indexed() && fresh(task)
      ensures var free := old(pids.Free());
        task.pid == free[|free| - 1] && pids.Free() == free[..|free| - 1]
      ensures task.pid !in old(byPid) && live == old(live) + {task}
      ensures byPid == old(byPid)[task.pid := task] && holds == old(holds)[task := 1]
      ensures task.IsNew()
    {
      ghost var was := Image();
      task := NewTask();
      PidsTaken(byPid, was.free, task);
      Publish(task);
      AllocKeeps(was, task, Image());
    }

    method NewTask() returns (task: Task)
      requires pids.Valid() && pids.Free() != []
      modifies pids, pids.stack
      ensures pids.Valid() && fresh(task) && task.IsNew()
      ensures var free := old(pids.Free()); task.pid == free[|free| - 1] && pids.Free() == free[..|free| - 1]
    {
      var pid := pids.Alloc();
      task := new Task(pid);
    }

    /** The new task goes to the head of its bucket. */
    method Publish(task: Task)
      requires IsPid(task.pid) && task !in live && table.Length == |chains| == MAX_TASKS
      modifies this`byPid, this`live, this`chains, this`holds, table, task`hashNext
      ensures byPid == old(byPid)[task.pid := task] && live == old(live) + {task} && holds == old(holds)[task := 1]
      ensures var idx := TaskHash(task.pid);
        && table[..] == old(table[..])[idx := task]
        && HashNexts() == old(HashNexts())[task := old(table[idx])]
        && chains == old(chains)[idx := [task] + old(chains[idx])]
      ensures RefCounts() == old(RefCounts())[task := task.refs]
      ensures old(task.IsNew()) ==> task.IsNew()
    {
      var idx := TaskHash(task.pid);
      task.hashNext := table[idx];
      table[idx] := task;
      byPid, live := byPid[task.pid := task], live + {task};
      chains := chains[idx := [task] + chains[idx]];
      holds := holds[task := 1];
    }

    /** Take the task, the i-th of its bucket, out of the table. */
    method Unlink(task: Task, ghost i: nat)
      requires IsPid(task.pid) && table.Length == |chains| == MAX_TASKS
      requires var b := TaskHash(task.pid);
        && BucketOk(table[b], HashNexts(), chains[b], byPid, b)
        && i < |chains[b]| && chains[b][i] == task && task in live && forall t :: t in chains[b] ==> t in live
      modifies this`chains, table, live`hashNext
      ensures table[..] == UnlinkedHeads(old(table[..]), old(HashNexts()), task, i)
      ensures HashNexts() == UnlinkedNext(old(HashNexts()), old(chains), task, i)
      ensures chains == UnlinkedChains(old(chains), task, i) && RefCounts() == old(RefCounts())
    {
      var idx := TaskHash(task.pid);
      ghost var s, next, heads := chains[idx], HashNexts(), table[..];
      PathIsAcyclic(next, null, heads[idx], s);
      PathAt(next, null, heads[idx], s, 0);
      PathAt(next, null, heads[idx], s, i);
      if i > 0 {
        PathAt(next, null, heads[idx], s, i - 1);
      }
      var prev: Task? := null;
      var cur := table[idx];
      ghost var j := 0;
      while cur != null && cur != task
        invariant j <= i && cur == s[j] && prev == if j == 0 then null else s[j - 1]
        decreases |s| - j
        modifies {}
      {
        PathAt(next, null, heads[idx], s, j);
        prev := cur;
        cur := cur.hashNext;
        j := j + 1;
      }
      assert j == i;
      if cur != null {
        if prev == null {
          table[idx] := task.hashNext;
        } else {
          prev.hashNext := task.hashNext;
        }
      }
      chains := chains[idx := Without(s, i)];
    }

    /** ixland_task_free: drop a reference; the task is gone when it was the last one. */
    method TaskFree(task: Task)
      requires Indexed() && task in live && holds[task] > 0
      modifies this`byPid, this`live, this`chains, this`holds, table, pids, pids.stack, live`hashNext, task`refs
      ensures Indexed()
      ensures if old(task.refs) > 1 then
          && byPid == old(byPid) && live == old(live) && holds == old(holds)[task := old(holds[task]) - 1]
          && pids.Free() == old(pids.Free()) && task.refs == old(task.refs) - 1
        else
          && byPid == old(byPid) - {task.pid} && live == old(live) - {task} && holds == old(holds) - {task}
          && pids.Free() == old(pids.Free()) + [task.pid]
    {
      ghost var was := Image();
      ghost var i := Locate(was, task);
      task.refs := task.refs - 1;
      if task.refs >= 1 {
        holds := holds[task := holds[task] - 1];
        RecountKeeps(was, task, Image());
        return;
      }
      FreeLast(task, i, was);
    }

    /** The reference count has reached zero; was is the table before. */
    method FreeLast(task: Task, ghost i: nat, ghost was: Table)
      requires pids.Valid() && task in live && Consistent(was) && Image() == was.(refs := was.refs[task := 0])
      requires task in holds && holds[task] > 0 && task in was.refs && was.refs[task] == 1 && IsPid(task.pid) && NamedOk(byPid, task)
      requires Located(was, task, i)
      modifies this`byPid, this`live, this`chains, this`holds, table, pids, pids.stack, live`hashNext
      ensures Indexed()
      ensures byPid == old(byPid) - {task.pid} && live == old(live) - {task} && holds == old(holds) - {task}
      ensures pids.Free() == old(pids.Free()) + [task.pid]
    {
      BucketLive(was.next, was.chains, was.byPid, TaskHash(task.pid), was.heads);
      PidsReturned(was.byPid, was.free, task.pid);
      Unlink(task, i);
      Forget(task);
      Dropped(was.refs, task);
      FreeKeeps(was, task, i, Image());
    }

    static lemma Dropped(refs: map<Task, int>, t: Task)
      ensures refs[t := 0] - {t} == refs - {t}
    {
    }

    /** The task structure itself is freed, and its pid with it. */
    method Forget(task: Task)
      requires pids.Valid() && IsPid(task.pid) && |pids.Free()| < PID_COUNT
      modifies this`byPid, this`live, this`holds, pids, pids.stack
      ensures pids.Valid() && pids.Free() == old(pids.Free()) + [task.pid]
      ensures byPid == old(byPid) - {task.pid} && live == old(live) - {task} && holds == old(holds) - {task}
      ensures HashNexts() == old(HashNexts()) - {task} && RefCounts() == old(RefCounts()) - {task}
    {
      pids.Release(task.pid);
      byPid, live, holds := byPid - {task.pid}, live - {task}, holds - {task};
    }

    /** ixland_task_lookup: the task of that pid, with one more reference. */
    method TaskLookup(pid: int) returns (task: Task?)
      requires Indexed() && pid >= 0
      modifies this`holds, live`refs
      ensures Indexed()
      ensures if pid in byPid
        then task == byPid[pid] && task in live && task in old(holds) && holds == old(holds)[task := old(holds[task]) + 1]
          && task.refs == old(task.refs) + 1
        else task == null && holds == old(holds)
    {
      task := Find(pid);
      if task != null {
        Take(task);
      }
    }

    /** The walk along the bucket of the pid. */
    method Find(pid: int) returns (task: Task?)
      requires Indexed() && pid >= 0
      ensures if pid in byPid then task == byPid[pid] && task in live else task == null
    {
      var idx := TaskHash(pid);
      ghost var heads, next := table[..], HashNexts();
      ghost var s := chains[idx];
      assert BucketOk(heads[idx], next, s, byPid, idx);
      BucketLive(next, chains, byPid, idx, heads);
      task := table[idx];
      ghost var j := 0;
      assert s[0..] == s;
      while task != null && task.pid != pid
        invariant j <= |s| && (if j < |s| then task == s[j] else task == null)
        invariant forall k :: 0 <= k < j ==> s[k].pid != pid
        decreases |s| - j
      {
        PathAt(next, null, heads[idx], s, j);
        task := task.hashNext;
        j := j + 1;
      }
      if task != null {
        assert Sits(task, idx, byPid);
        assert s[j] in s;
      } else {
        assert EntryOk(chains, byPid, pid);
      }
    }

    /** One more reference, for the caller. */
    method Take(task: Task)
      requires Indexed() && task in live
      modifies this`holds, task`refs
      ensures Indexed() && task in old(holds) && holds == old(holds)[task := old(holds[task]) + 1]
      ensures task.refs == old(task.refs) + 1
    {
      ghost var was := Image();
      assert CountOk(was.refs, holds, attached, task);
      task.refs := task.refs + 1;
      holds := holds[task := holds[task] + 1];
      RecountKeeps(was, task, Image());
    }

    /** The reference count of a task of the table is what its holders and the tree account for. */
    lemma KnownCount(task: Task)
      requires Indexed() && task in live
      ensures task in holds && task.refs == holds[task] + (if task in attached then 1 else 0)
    {
      assert CountOk(RefCounts(), holds, attached, task);
    }

    /** The reference of the caller of ixland_task_alloc passes to the process tree. */
    ghost method Attach(task: Task)
      requires Indexed() && task in live && task in holds && holds[task] > 0 && task !in attached
      modifies this`holds, this`attached
      ensures Indexed() && holds == old(holds)[task := old(holds[task]) - 1] && attached == old(attached) + {task}
    {
      ghost var was := Image();
      assert CountOk(was.refs, holds, attached, task);
      holds, attached := holds[task := holds[task] - 1], attached + {task};
      RecountKeeps(was, task, Image());
    }

    /** The reference of the process tree passes to the caller that reaps the task. */
    ghost method Detach(task: Task)
      requires Indexed() && task in attached
      modifies this`holds, this`attached
      ensures Indexed() && task in live && task in old(holds)
      ensures holds == old(holds)[task := old(holds[task]) + 1] && attached == old(attached) - {task}
    {
      ghost var was := Image();
      assert CountOk(was.refs, holds, attached, task);
      holds, attached := holds[task := holds[task] + 1], attached - {task};
      RecountKeeps(was, task, Image());
    }
  }

  /**
    What Indexed says: a live task is the one its pid leads to, it sits in the bucket of its pid and in no
    other, and nowhere twice; it has references left, one for each holder and one from the process tree;
    and a pid of the range is either that of a live task or free.
   */
  lemma IndexAgrees(tt: TaskTable, t: Task, pid: int)
    requires tt.Indexed() && t in tt.live
    ensures IsPid(t.pid) && t.pid in tt.byPid && tt.byPid[t.pid] == t && |tt.chains| == MAX_TASKS
    ensures forall b, i :: 0 <= b < MAX_TASKS && 0 <= i < |tt.chains[b]| && tt.chains[b][i] == t ==> b == TaskHash(t.pid)
    ensures exists i :: 0 <= i < |tt.chains[TaskHash(t.pid)]| && tt.chains[TaskHash(t.pid)][i] == t
    ensures NoDup(tt.chains[TaskHash(t.pid)])
    ensures t in tt.holds && t.refs == tt.holds[t] + (if t in tt.attached then 1 else 0) > 0
    ensures IsPid(pid) ==> (pid in tt.byPid <==> pid !in tt.pids.Free())
  {
    var x := tt.Image();
    var i := Locate(x, t);
    var h := TaskHash(t.pid);
    PathIsAcyclic(x.next, null, x.heads[h], tt.chains[h]);
    forall b, j | 0 <= b < MAX_TASKS && 0 <= j < |tt.chains[b]| && tt.chains[b][j] == t ensures b == h {
      SitsOnce(x.heads, x.next, tt.chains, tt.byPid, b, j, h, i);
    }
    assert PidOk(tt.byPid, tt.pids.Free(), pid);
  }
}
