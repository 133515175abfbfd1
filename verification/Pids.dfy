/** IXLandSystem/kernel/pid.c: the stack of free process ids. */
module Pids {

  const MIN_PID := 1000
  const MAX_PID := 65535
  const PID_COUNT := MAX_PID - MIN_PID + 1

  predicate IsPid(pid: int) {
    MIN_PID <= pid <= MAX_PID
  }

  /** The stack right after initialization: every pid, the smallest on top. */
  function AllPids(n: nat): (s: seq<int>)
    requires n <= PID_COUNT
    ensures |s| == n
  {
    seq(n, i => MAX_PID - i)
  }

  class PidAllocator {
    const stack: array<int>
    var top: int
    var initialized: bool

    ghost predicate Valid()
      reads this
    {
      stack.Length == PID_COUNT && 0 <= top <= PID_COUNT && (!initialized ==> top == 0)
    }

    /** The free pids, the next one to be given out last; before the first use that is all of them. */
    ghost function Free(): seq<int>
      requires Valid()
      reads this, stack
    {
      if initialized then stack[..top] else AllPids(PID_COUNT)
    }

    constructor ()
      ensures Valid() && fresh(stack) && Free() == AllPids(PID_COUNT)
    {
      stack := new int[PID_COUNT];
      top, initialized := 0, false;
    }

    method Init()
      requires Valid()
      modifies this, stack
      ensures Valid() && initialized && Free() == old(Free())
    {
      if initialized {
        return;
      }
      var idx := 0;
      var pid := MAX_PID;
      while pid >= MIN_PID
        invariant MIN_PID - 1 <= pid && idx == MAX_PID - pid <= PID_COUNT
        invariant forall k :: 0 <= k < idx ==> stack[k] == MAX_PID - k
      {
        stack[idx] := pid;
        idx := idx + 1;
        pid := pid - 1;
      }
      top, initialized := PID_COUNT, true;
    }

    method Alloc() returns (pid: int)
      requires Valid()
      modifies this, stack
      ensures Valid()
      ensures var free := old(Free());
        if free == [] then pid == -1 && Free() == free
        else pid == free[|free| - 1] && Free() == free[..|free| - 1]
    {
      Init();
      if top <= 0 {
        return -1;
      }
      top := top - 1;
      pid := stack[top];
    }

    method Release(pid: int)
      requires Valid()
      modifies this, stack
      ensures Valid()
      ensures Free() == if IsPid(pid) && |old(Free())| < PID_COUNT then old(Free()) + [pid] else old(Free())
    {
      if pid < MIN_PID || pid > MAX_PID {
        return;
      }
      Init();
      if top >= PID_COUNT {
        return;
      }
      stack[top] := pid;
      top := top + 1;
    }
  }
}
