# IXLand, verified

IXLand gives programs on iOS a small Linux-like kernel: processes that are really threads, descriptor
tables, an epoll on top of kqueue, virtual pathnames, and a C library around them. This project models
the parts of it whose correctness is not obvious from reading one function, and proves what they promise.

- **Arguments** (`Numbers`, `Permute`, `LongOptions`, `Scan`, `Traces`, `Getopt`): `getopt_long` shuffles
  argv in place, cycle by cycle, while it scans. `Traces` says by rules about the arguments themselves which
  legs a scan goes through, what each delivers and where that stands in argv. `Scan` is a plain recursive
  parser that never moves anything, proved to read exactly as the rules say; `Getopt` is the scanner with
  its static state, proved to deliver the same values and to leave argv as a stable partition.
- **Processes** (`Pids`, `Tasks`, `TaskTables`, `Links`, `ProcessTree`, `Siblings`, `Kernels`, `Forks`,
  `Exits`, `WaitRules`, `Waits`, `Status`, `Groups`, `Signals`): tasks are heap objects with `next_sibling`,
  `hash_next`, `refs` and the rest. `ProcessTree` is the tree as a value and what runs of fork, exit, wait
  and kill do to it; the methods of the other modules move pointers and are proved to take exactly those
  steps. Each call is one atomic step.
- **Pathnames** (`PathNames`, `Collapses`, `Resolution`, `DotsInPlace`, `Translation`): the two in-place
  normalisers and the translation between virtual and host pathnames.
- **Directory listings** (`Dirents`, `Readdir`): the packing of `getdents64` records and its resumable offset.
- **Descriptor tables** (`FileBooks`, `FdTable`): who refers to which open file. `FileBooks` is the account;
  the methods of `FdTable` work on the arrays and counters and keep to it.
- **Epoll** (`EpollIndex`, `Epoll`): the hash index of registrations and `epoll_ctl`.

Mutable C structures are classes with the same fields. A ghost value beside each class (the tree, the
chains of the buckets, the book of references, the registrations) says what the structure stands for, a
predicate ties the two together field by field, and every method states its step on the value.
`Kernels.Spelled` and similar marker predicates only control when the verifier unfolds a definition.

What comes from outside is a parameter: the environment variables (`POSIXLY_CORRECT` and `IXLAND_ROOT`),
whether the host starts a thread, opens a directory or accepts a change to a kernel queue, where `readdir`
fails, and how far it reads ahead. Signal and file type numbers of the host are those of Darwin.

Where the code falls short of what one would expect of it, the exact condition is proved:

- a fork by a dead task, or a signal that kills a task with children, leaves a child in the list of a dead
  task, and nothing else does (`ProcessTree.BehavedStepIff`, `ProcessTree.NoChildLostOrReapedTwice`, with the
  runs `ProcessTree.KilledParentKeepsChild` and `ProcessTree.DeadParentForks`);
- reaping such a task then drops its children from the tree, and only that does
  (`ProcessTree.UntidyStepLosesChildren`, with the run `ProcessTree.ReapedParentDropsChild`);
- the limit on the children of a task is 0 from its allocation on, and nothing raises it, so that every fork
  at boot is refused (`Forks.ForkAtBoot`);
- `waitpid` with `WCONTINUED` alone can leave a dead child unreported behind a live one that was stopped
  after having been continued (`WaitRules.ChooseIsFirstEligible`, `WaitRules.ZombieBehindStoppedChild`);
- `WIFCONTINUED` never holds (`Status.ContinuedIsNeverReported`);
- `__ixland_path_normalize` takes the first component literally, or the second if the first is "."
  (`Resolution.NormalIsResolutionIff`, `Resolution.NormalIsIdempotentIff`);
- the virtual root directory does not survive a translation and back (`Translation.VirtualRoundTripIff`);
- a refused `EPOLL_CTL_MOD` has already replaced the event (`Epoll.ErrorsChangeNothing`,
  `Epoll.RefusedModReplaces`);
- a first `getdents64` whose buffer is too small for the first record, or which fails after the host has read
  ahead, loses entries: the duplicate it reads from shares its position with the directory, and offset 0 is
  not sought again (`Readdir.SeriesReadsListingIff`, `Readdir.FirstEntryLost`).

## Model

| member | source | states |
|---|---|---|
| `Numbers.ComputeGcd` | IXLandSystem/getopt_long.c:139-150 | the loop computes Euclid's result |
| `Numbers.GcdIsGreatest` | IXLandSystem/getopt_long.c:136-150 | every common divisor of the two numbers divides that result, so it is the greatest |
| `Numbers.GcdDivides` | IXLandSystem/getopt_long.c:136-150 | the result divides both numbers |
| `Numbers.CycleRanks` | IXLandSystem/getopt_long.c:164-175 | the walk that starts at n + i visits each position congruent to i modulo the gcd exactly once and is back at its start after exactly (n + m) / gcd steps |
| `Numbers.RankedCycles` | IXLandSystem/getopt_long.c:164-175 | the gcd walks lie on disjoint cycles of that length, which together cover the whole range; also when the first block is empty |
| `Permute.CycleStep` | IXLandSystem/getopt_long.c:172-182 | one swap puts one more position of the cycle into its final state and leaves all others alone |
| `Permute.CycleCloses` | IXLandSystem/getopt_long.c:172-182 | the last step leads back to the start of the cycle and completes it |
| `Permute.RotateCycle` | IXLandSystem/getopt_long.c:170-182 | the inner loop completes its cycle and disturbs no other |
| `Permute.PermuteArgs` | IXLandSystem/getopt_long.c:157-184 | for every array and all start <= end < opt_end, the two blocks have changed places, each in its own order, and everything outside is as it was |
| `LongOptions.FindLongOption` | IXLandSystem/getopt_long.c:231-267 | the loop with its break and its two flags finds what the rule below says |
| `LongOptions.ResolveRule` | IXLandSystem/getopt_long.c:224-267 | an exact name wins; ambiguous if and only if no name is exact and two admissible abbreviations differ in (has_arg, flag, val), or just two under FLAG_LONGONLY; unknown if and only if nothing matches; what is found is the first exact entry, or else the first admissible one |
| `LongOptions.OrderIrrelevant` | IXLandSystem/getopt_long.c:224-341 | with distinct names, reordering the table changes neither the kind of outcome nor the action that is found |
| `Scan.PickConserves` | IXLandSystem/getopt_long.c:405-459 | the arguments picked as options, as operands and as unseen together hold every argument exactly as often as it was given |
| `Scan.UnpermutedScanKeepsOrder` | IXLandSystem/getopt_long.c:412-426 | with '+', '-' or POSIXLY_CORRECT no operand is passed over: options and rest are argv as it was |
| `Scan.RestFollowsDashDash` | IXLandSystem/getopt_long.c:442-458 | when permuting, something stays unseen only behind a "--", which is counted among the options |
| `Scan.NeverHalts` | IXLandSystem/getopt_long.c:488-496 | a caller with a long table, or with '-' among its options, never sees a scan end at a lone '-' |
| `Scan.HaltsOtherwise` | IXLandSystem/getopt_long.c:488-496 | every other caller does on some argument vector |
| `Traces.LexAtRule` | IXLandSystem/getopt_long.c:461-550 | the option at a place obeys the rules for long and short options: return value, optarg, optopt, table index, flag store, arguments used up and the place behind it; there is none only at a '-' that ends a cluster and is no option |
| `Traces.ParseIsTraced` | IXLandSystem/getopt_long.c:348-550 | every scan has a trace, a chain of legs that obey the rules, to where it stops; the plain parser delivers the events of the legs in order and sorts the arguments as they do: options with their arguments, operands, unseen rest, each in original order; only non-options are operands, and the rest is a suffix |
| `Traces.TraceIsUnique` | IXLandSystem/getopt_long.c:348-550 | the rules leave nothing open: a scan has no second trace |
| `Traces.TraceIsParse` | IXLandSystem/getopt_long.c:348-550 | so whatever obeys the rules reads the arguments as the plain parser does |
| `Traces.DeliveredArgument` | IXLandSystem/getopt_long.c:290-303 | every optarg of a scan stands in the last argument its leg uses up, which counts as an option: it is that whole argument, or the text behind "word=" in it where the word has no '=', or the rest of the cluster right behind a letter that takes an argument |
| `Getopt.Scanner.ParseLongOptions` | IXLandSystem/getopt_long.c:191-342 | either the text names no long option and may be letters, or the rule for the word in front of its first '=' holds of return value, optarg, optopt, table index, flag variable and optind |
| `Getopt.Scanner.TakeLongOption` | IXLandSystem/getopt_long.c:268-341 | the same once an entry is found, for the word and what is attached to it: optarg is what stands behind '=', or the next argv entry, or the argument is missing or not allowed |
| `Getopt.Scanner.ScanLong` | IXLandSystem/getopt_long.c:467-486 | the option at place read as a long one, or left for a short one with nothing changed |
| `Getopt.Scanner.ScanShort` | IXLandSystem/getopt_long.c:488-549 | the option at place read as a short one, inside or at the end of its cluster |
| `Getopt.Scanner.ScanDashW` | IXLandSystem/getopt_long.c:509-527 | "-Wname" and "-W name" are read as "--name" |
| `Getopt.Scanner.ScanArgument` | IXLandSystem/getopt_long.c:531-549 | the argument of an option letter: the rest of the cluster, the next entry, none if optional, or missing |
| `Getopt.Scanner.UpdatePlace` | IXLandSystem/getopt_long.c:387-459 | the block at start, in all its branches, moves the operands held back and the scan position as the view of argv says |
| `Getopt.Scanner.PassOver` | IXLandSystem/getopt_long.c:428-437 | an operand is held back; those already held are first moved up to it |
| `Getopt.Scanner.FinishAtEnd` | IXLandSystem/getopt_long.c:389-404 | at the end of argv the operands held back go behind the options, and optind to the first of them |
| `Getopt.Scanner.FinishAtDashDash` | IXLandSystem/getopt_long.c:445-458 | the same at "--" |
| `Getopt.Scanner.FindOption` | IXLandSystem/getopt_long.c:386-459 | the loop at start ends, having lost nothing that is still to be delivered, at an option or with the last event of the call |
| `Getopt.Scanner.GetoptInternal` | IXLandSystem/getopt_long.c:348-550 | one call delivers the first event on the trace of what is still unread, in return value, optarg, table index, optopt and the flag variables; what it leaves has the rest of that trace ahead and sorts argv the same way in the end, the unread suffix in place and argv a permutation; or no event is left, -1 is returned and argv is sorted |
| `Getopt.Scanner.ScanAll` | IXLandSystem/getopt_long.c:348-550 | calling until -1 terminates; what the caller sees after each call (results, optopt, flag variables) is what the events of the trace make of it, in order; argv is left sorted as its legs say, or cut up so where the scan halts |
| `Getopt.StablePartition` | IXLandSystem/getopt_long.c:348-459 | from a fresh state with a long table and a permuting option string, argv ends as the program name, all options with their arguments and "--", all operands, and the tail behind "--", each in original order, with optind at the first operand, and the calls have shown what the legs of the trace deliver |
| `Pids.PidAllocator.Init` | IXLandSystem/kernel/pid.c:25-45 | initializing does not change which pids are free, nor their order |
| `Pids.PidAllocator.Alloc` | IXLandSystem/kernel/pid.c:55-74 | pops the free stack, or answers -1 and leaves it alone when it is empty |
| `Pids.PidAllocator.Release` | IXLandSystem/kernel/pid.c:84-107 | pushes a pid of the range while there is room, and ignores any other |
| `Tasks.SitsOnce` | IXLandSystem/kernel/task.c:22-24 | a task is in one bucket, at one place |
| `Tasks.IndexesInsert` | IXLandSystem/kernel/task.c:56-60 | putting a task with an unused pid at the head of its bucket keeps the table a refinement of the map from pids to tasks |
| `Tasks.IndexesRemove` | IXLandSystem/kernel/task.c:72-80 | so does unlinking one at any place of its bucket |
| `Tasks.PidsTaken` | IXLandSystem/kernel/task.c:39 | live pids and free pids partition 1000..65535 after an allocation |
| `Tasks.PidsReturned` | IXLandSystem/kernel/task.c:100 | and after a task is freed, whose pid always finds room on the stack |
| `Tasks.FreeKeeps` | IXLandSystem/kernel/task.c:65-102 | dropping the last reference keeps table, pids and reference counts consistent |
| `TaskTables.TaskTable.constructor` | IXLandSystem/kernel/task.c:118-140 | the table starts with init alone, under pid 1000, its own parent by pid |
| `TaskTables.TaskTable.TaskAlloc` | IXLandSystem/kernel/task.c:34-63 | a new task under the pid on top of the stack, which no live task has, with one reference, held by the caller |
| `TaskTables.TaskTable.TaskFree` | IXLandSystem/kernel/task.c:65-102 | one reference less; with the last one the task leaves the table and its pid is free again, and not before |
| `TaskTables.TaskTable.Unlink` | IXLandSystem/kernel/task.c:72-80 | the walk along hash_next takes exactly that task out of its bucket |
| `TaskTables.TaskTable.TaskLookup` | IXLandSystem/kernel/task.c:104-116 | finds the task of that pid if and only if there is one, and takes a reference to it |
| `TaskTables.TaskTable.Find` | IXLandSystem/kernel/task.c:106-111 | the walk along the bucket ends at the task of that pid if and only if there is one |
| `TaskTables.TaskTable.Take` | IXLandSystem/kernel/signal.c:240-241 | one more reference, for the caller |
| `TaskTables.IndexAgrees` | IXLandSystem/kernel/task.c:34-116 | in every state the methods keep: a live task is found under its pid, sits once and only in bucket pid % 1024, has one reference per holder plus one from the tree and at least one; a pid of the range is either live or free |
| `Links.PathIsAcyclic` | IXLandSystem/kernel/exit.c:44-46 | a list that ends visits no node twice |
| `Links.PathSplice` | IXLandSystem/kernel/exit.c:48-50 | hanging a list onto the last node of another concatenates them |
| `Links.PathRemove` | IXLandSystem/kernel/wait.c:142-148 | redirecting the link that leads to a node takes that node out and keeps the order of the others |
| `ProcessTree.AddLeafKeeps` | IXLandSystem/kernel/fork.c:141-146 | a new leaf keeps the lists disjoint, everyone in one list, and every chain of parents ending at init |
| `ProcessTree.AdoptKeeps` | IXLandSystem/kernel/exit.c:24-60 | so does moving the children of a task in front of those of init |
| `ProcessTree.ReapKeepsIff` | IXLandSystem/kernel/wait.c:141-149 | so does reaping, if and only if the reaped task has no children |
| `ProcessTree.TidyRunKeeps` | IXLandSystem/kernel/wait.c:137-164 | over any run that reaps no task with children the tree stays well formed, and every forked task is either in it or dead and reaped, once; its parent may be dead |
| `ProcessTree.BehavedRunIsTidy` | IXLandSystem/kernel/signal.c:123-129 | if dead tasks do not fork and only childless tasks are killed by signals, no run reaps a task with children |
| `ProcessTree.BehavedStepIff` | IXLandSystem/kernel/signal.c:123-129 | from a state in which dead tasks have no children, a step leads to such a state, and leaves every child its fate, if and only if no dead task forks in it and no task with children is killed by a signal |
| `ProcessTree.MisbehavedStepStrandsChild` | IXLandSystem/kernel/signal.c:123-129 | a step that does otherwise leaves some child in no live task's list and not reaped |
| `ProcessTree.UntidyStepLosesChildren` | IXLandSystem/kernel/wait.c:137-164 | a step keeps everyone accounted for if and only if it does not reap a task with children; otherwise some live task is in no list afterwards |
| `ProcessTree.NoChildLostOrReapedTwice` | IXLandSystem/kernel/wait.c:137-164 | at every moment of a run from boot each forked task is in exactly one list, that of a task which is not dead, and not reaped, or was dead when wait returned it, exactly once, and is in no list: if and only if no dead task forks in the run and only childless tasks are killed by signals |
| `ProcessTree.BehavedRunGivesFates` | IXLandSystem/kernel/exit.c:24-60 | at the end of any such run each forked task has that fate |
| `ProcessTree.KilledParentKeepsChild` | IXLandSystem/kernel/signal.c:123-129 | a run from boot in which nothing is reaped and a live task ends up in the list of a killed one |
| `ProcessTree.ReapedParentDropsChild` | IXLandSystem/kernel/wait.c:137-164 | the same run with a wait: the live task is in no list at all |
| `ProcessTree.DeadParentForks` | IXLandSystem/kernel/fork.c:141-146 | a run from boot in which a dead task forks and the child is in its list |
| `Siblings.LinkRepresents` | IXLandSystem/kernel/fork.c:141-146 | the pointer moves of fork represent the tree with the new leaf |
| `Siblings.AdoptRepresents` | IXLandSystem/kernel/exit.c:28-53 | the pointer moves of exit represent the tree in which init has adopted the children: its list is exited.children + init.children |
| `Siblings.DisownRepresents` | IXLandSystem/kernel/exit.c:61-69 | when init itself exits, its children keep their list and get parent pid 1 |
| `Siblings.UnlinkRepresents` | IXLandSystem/kernel/wait.c:142-149 | the pointer moves of wait represent the tree without the reaped child, the other children in order |
| `Kernels.Kernel.constructor` | IXLandSystem/kernel/task.c:118-140 | the kernel boots with init alone in the tree |
| `Kernels.FieldsAgree` | IXLandSystem/kernel/exit.c:24-60 | in every state the methods keep: p.children chains exactly the children of p in order, c is among them if and only if c.parent is p, its ppid is then p's pid, and exactly the tasks marked exited are dead |
| `Forks.CountChildren` | IXLandSystem/kernel/fork.c:88-95 | the loop counts the children of the parent |
| `Forks.Start` | IXLandSystem/kernel/fork.c:141-182 | the child is at the head of its parent's list, or the list is as it was if the thread could not be created |
| `Forks.Abandon` | IXLandSystem/kernel/fork.c:123-127 | a failed fork leaves the table, the pids and all references as they were |
| `Forks.Fork` | IXLandSystem/kernel/fork.c:81-211 | below the limit and with descriptors and thread, a fresh task under the returned pid, which is the next free one, at the head of its parent's list, with the parent's group and session and held by nobody but the tree; every other list, task and pid as it was; otherwise -1 and nothing has changed |
| `Forks.ForkAtBoot` | IXLandSystem/kernel/fork.c:96-100 | the first fork of a kernel that has just been booted returns -1 |
| `Forks.ForkShown` | IXLandSystem/kernel/fork.c:141-146 | memory and tree agree after a fork |
| `Exits.RehangAll` | IXLandSystem/kernel/exit.c:28-39 | the loop gives every child of the task init as parent and init's pid, and touches nobody else |
| `Exits.LastChild` | IXLandSystem/kernel/exit.c:41-46 | following the list finds the last child |
| `Exits.Splice` | IXLandSystem/kernel/exit.c:41-53 | the whole list goes in front of init's and the task's own is empty |
| `Exits.DisownAll` | IXLandSystem/kernel/exit.c:61-69 | the loop of the other branch sets the children's ppid to 1 and nothing else |
| `Exits.Exit` | IXLandSystem/kernel/exit.c:10-70 | the task's children are in front of those of init, in order, with init as parent and init's pid as ppid, and its own list is empty; if the task is init, its list stays and its children get ppid 1; every other list and child is as it was; the task is dead, a zombie with its exit status, and nobody else is |
| `Exits.ExitShown` | IXLandSystem/kernel/exit.c:24-70 | memory and tree agree after an exit |
| `Exits.ExitHandsOver` | IXLandSystem/kernel/exit.c:24-70 | the exit step of the tree: init's list is the task's followed by its own, the task's is empty, all others stay; for init no list changes |
| `WaitRules.ChooseIsFirstEligible` | IXLandSystem/kernel/wait.c:45-109 | what is chosen is the first child in list order that the selector matches and that has news, and it is chosen if and only if no earlier child masks it |
| `WaitRules.NothingMasked` | IXLandSystem/kernel/wait.c:45-109 | without WCONTINUED (or with WUNTRACED) nothing is masked: a child is chosen if and only if some child is eligible, and it is the first |
| `WaitRules.ZombieBehindStoppedChild` | IXLandSystem/kernel/wait.c:56-60 | with WCONTINUED alone a terminated child can go unreported behind a stopped one |
| `WaitRules.ChosenIsAnswered` | IXLandSystem/kernel/wait.c:90-167 | if a child is chosen, the answer is its pid and status, and it is reaped if and only if it has exited; if none is, nothing is reaped and the answer is 0 with WNOHANG, ECHILD without children, and blocking otherwise |
| `Waits.Search` | IXLandSystem/kernel/wait.c:46-88 | the loops along the list find the first child that the selector stops at |
| `Waits.UnlinkChild` | IXLandSystem/kernel/wait.c:142-149 | the child is out of its parent's list, the others stay in order |
| `Waits.Reap` | IXLandSystem/kernel/wait.c:137-164 | one wait step of the tree, which stays whole if and only if the child had no children; the pid is free again if and only if nobody else holds a reference |
| `Waits.Waitpid` | IXLandSystem/kernel/wait.c:32-167 | if a child is the first eligible one and not masked, its pid and status are returned, and it is out of its list, reaped and (unless held elsewhere) its pid free if and only if it has exited, the other children in order; otherwise nothing changes and the answer is 0, ECHILD or blocking; the parent's waiters are balanced unless the call goes on waiting |
| `Waits.ReapShown` | IXLandSystem/kernel/wait.c:137-164 | memory and tree agree after a reap, if and only if the child was childless |
| `Status.FlagsTellHistory` | IXLandSystem/kernel/signal.c:104-129 | what each flag of a task says about the stops, continuations, terminations and exits it went through |
| `Status.StatusTellsHistory` | IXLandSystem/kernel/wait.c:8-26 | the status decodes as signaled by the last terminating signal if there was one, else as stopped by SIGSTOP or SIGCONT according to the last of those, and only else as exited with the status modulo 256 |
| `Status.StatusDecodesOneWay` | IXLandLibC/include/linux/wait.h:54-64 | every status satisfies exactly one of WIFEXITED, WIFSIGNALED and WIFSTOPPED |
| `Status.ExitGetsThrough` | IXLandLibC/include/linux/wait.h:54-55 | a status decodes as exited if and only if the task was never terminated by a signal, stopped or continued |
| `Status.ContinuedIsNeverReported` | IXLandLibC/include/linux/wait.h:66-67 | no status that is produced satisfies WIFCONTINUED |
| `Groups.WalkMeetsEachOnce` | IXLandSystem/kernel/signal.c:234-247 | the walk through all buckets meets every live task, and meets it once |
| `Groups.CollectedIsGroup` | IXLandSystem/kernel/signal.c:223-247 | what is collected are tasks of the group, none twice, all of them if there are at most 256 and 256 if there are more; nothing if and only if the group is empty |
| `Signals.ApplySignal` | IXLandSystem/kernel/signal.c:104-129 | the signal is added to those pending; SIGSTOP, SIGCONT and the terminating signals make the task stopped, running or a zombie, and any other leaves its state; the flags are those after its delivery; no other task changes |
| `Signals.Strike` | IXLandSystem/kernel/signal.c:104-129 | a terminating signal is a die step of the tree, where the task is; any other leaves the tree alone |
| `Signals.Collect` | IXLandSystem/kernel/signal.c:232-249 | the first 256 tasks of the group in table order are collected, with one reference taken to each and no other reference changed |
| `Signals.DropAll` | IXLandSystem/kernel/signal.c:257-263 | with signal 0 all references taken are given back and nothing else happens |
| `Signals.DeliverAll` | IXLandSystem/kernel/signal.c:265-274 | every collected task is hit once and has the signal pending, and all references taken are given back |
| `Signals.Killpg` | IXLandSystem/kernel/signal.c:201-277 | EINVAL for a bad number, ESRCH if and only if the group is empty; who is hit are tasks of the group, all of them or 256; pending set, state and flags of a task that is hit are the old ones with the signal's effect, of any other the old ones; with a terminating signal those hit are dead; every reference count, holder and pid is as it was |
| `Signals.Kill` | IXLandSystem/kernel/signal.c:154-199 | EINVAL, ESRCH, EPERM or success for each form of pid; who is hit: the task of the pid, or the group, or with signal 0 nobody; pending set, state and flags of those hit and of all others, as for killpg; holders and pids are as they were |
| `PathNames.ComponentsOfJoin` | IXLandSystem/fs/path.c:50-87 | splitting joined components gives them back |
| `Collapses.CollapseIsJoin` | IXLandSystem/fs/path.c:62-83 | collapsing slashes is joining the non-empty components, behind a slash if the pathname was absolute |
| `Collapses.CollapseIsIdempotent` | IXLandSystem/fs/path.c:50-87 | collapsing twice is collapsing once |
| `Collapses.SqueezeInPlace` | IXLandSystem/fs/path.c:62-78 | the loop squeezes the pathname in its own buffer, never writing past what it has read, and leaves the rest of the buffer alone |
| `Collapses.Normalize` | IXLandSystem/fs/path.c:50-87 | EINVAL, ENAMETOOLONG with the buffer untouched, or the collapsed pathname and its zero in front of what the buffer held |
| `Resolution.NormalResolves` | IXLandSystem/fs/path.c:325-394 | for every absolute pathname, the character loop yields "/" and the joined components as the code resolves them: one leading "." skipped, the next component literal, then "." dropped and ".." popping, clamped at the root |
| `Resolution.NormalIsResolutionIff` | IXLandSystem/fs/path.c:340-377 | that is the resolution from the root as POSIX.1-2017 XBD section 4.13 has it if and only if no leading dot component, taken literally, stays |
| `Resolution.NormalIsResolution` | IXLandSystem/fs/path.c:325-394 | in particular whenever the first component is not a dot component |
| `Resolution.NormalIsIdempotentIff` | IXLandSystem/fs/path.c:325-394 | normalizing an absolute pathname twice is normalizing it once if and only if the result does not begin with a component "." |
| `Resolution.LeadingDotsStay` | IXLandSystem/fs/path.c:344-350 | "/././a" becomes "/./a", and that becomes "/a" |
| `Resolution.NormalFits` | IXLandSystem/fs/path.c:325-394 | the result is never longer than the pathname, whatever it is |
| `DotsInPlace.GoBack` | IXLandSystem/fs/path.c:367-374 | the write position goes back to the slash before the last component, but not past the first character |
| `DotsInPlace.AtDots` | IXLandSystem/fs/path.c:358-376 | behind the slashes "." is passed over, ".." takes the last component with it, and anything else is left to be copied |
| `DotsInPlace.AtSlash` | IXLandSystem/fs/path.c:353-382 | the branch at a slash takes one step of the loop on values, writes behind the read position and touches nothing unread |
| `DotsInPlace.NormalizeDots` | IXLandSystem/fs/path.c:325-394 | for every pathname the buffer ends up holding its normal form, and nothing behind the old terminating zero is touched |
| `Translation.CollapseBehindRootIff` | IXLandSystem/fs/path.c:128-129 | collapsing root + v is root + collapse(v) if and only if v is not made of slashes alone |
| `Translation.VirtualLiesUnderRoot` | IXLandSystem/fs/path.c:112-130 | a virtual pathname that fits leads to the root followed by its joined components, behind a slash if it is absolute; "/" leads to the root alone |
| `Translation.TranslationFails` | IXLandSystem/fs/path.c:93-145 | ENOENT if and only if the pathname is empty, ENAMETOOLONG if and only if it does not fit (with the root in front of it if it is virtual); any other pathname stays as it is |
| `Translation.VirtualRoundTripIff` | IXLandSystem/fs/path.c:112-186 | a virtual pathname that fits comes back collapsed if and only if it is not "/", which comes back empty |
| `Translation.HostRoundTripIff` | IXLandSystem/fs/path.c:131-186 | a host pathname comes back as it is if and only if it does not begin with the root |
| `Translation.Translate` | IXLandSystem/fs/path.c:93-145 | EINVAL, ENOENT or ENAMETOOLONG with the buffer untouched, or the translated pathname in it |
| `Translation.ReverseTranslate` | IXLandSystem/fs/path.c:151-186 | the same for the way back |
| `Dirents.DecodePack` | IXLandSystem/fs/readdir.c:92-117 | a reader that follows d_reclen finds exactly the entries that were packed, with inode, following offset, type and name |
| `Dirents.EntriesReadBack` | IXLandSystem/fs/readdir.c:10-34 | each packed entry reads back with its inode and name, the offset behind it, and its own type if that is one of the eight known ones, 0 otherwise |
| `Dirents.DecodeRecord` | IXLandSystem/fs/dirent.h:18-24 | one record in front of anything reads back as its entry, and the reader goes on right behind it |
| `Dirents.RoundTrip` | IXLandSystem/fs/dirent.h:18-24 | a number stored in a field that is wide enough reads back as itself |
| `Dirents.PackAligned` | IXLandSystem/fs/readdir.c:94-95 | records take up whole units of eight bytes |
| `Readdir.PutRecord` | IXLandSystem/fs/readdir.c:107-117 | the stores, the copy and the padding write exactly one record and nothing else |
| `Readdir.PackEntries` | IXLandSystem/fs/readdir.c:75-120 | the loop packs entries until one does not fit or readdir ends, and leaves the rest of the buffer alone |
| `Readdir.Getdents64` | IXLandSystem/fs/readdir.c:36-126 | EFAULT, EINVAL, EBADF or the host's error with offset and buffer untouched, or the packed bytes and the offset behind the last packed entry; reading starts at the offset, or at the host's position when the offset is 0, and moves the host's position even if the call fails |
| `Readdir.ReachFits` | IXLandSystem/fs/readdir.c:97-105 | what is packed fits, and one more record would not have |
| `Readdir.CallDelivers` | IXLandSystem/fs/readdir.c:71-125 | a call delivers exactly the entries from where its stream starts to the new offset, in whole records of a multiple of eight bytes, or nothing, with the offset unmoved |
| `Readdir.CallFails` | IXLandSystem/fs/readdir.c:75-125 | EINVAL if and only if the buffer has no room at all or the first record does not fit; the host's error if and only if it fails at once; no other error |
| `Readdir.SeriesReads` | IXLandSystem/fs/readdir.c:53-125 | any series of calls, failing ones included, from any offset and host position, reads a contiguous part of the listing up to the last offset, each entry once and in order |
| `Readdir.SeriesReadsListingIff` | IXLandSystem/fs/readdir.c:53-125 | a series of calls, failing ones included, reads exactly the listing between its first and last offset and can be resumed there, if and only if none of its calls at offset 0 had too little room for the first record or failed at once after the host had read ahead |
| `Readdir.SeriesReadsListing` | IXLandSystem/fs/readdir.c:71-125 | any series of successful calls with buffers of any size reads exactly the listing from the first offset to the last, nothing lost or repeated |
| `Readdir.RoomIsSafe` | IXLandSystem/fs/readdir.c:92-97 | a buffer of 1048 bytes is enough for a call to lose nothing, unless the host fails at the first entry |
| `Readdir.FirstEntryLost` | IXLandSystem/fs/readdir.c:56-73 | a directory of two entries, read with a buffer of 8 bytes and then with one of 4096, shows only the second |
| `Readdir.SeriesResumes` | IXLandSystem/fs/readdir.c:71-73 | such a series can be cut anywhere and resumed with nothing but the saved offset, wherever the host's position is once the offset is not 0 |
| `Readdir.CallMakesProgress` | IXLandSystem/fs/readdir.c:97-105 | a call without fault delivers something and moves the offset if and only if there is room for the record at which it starts |
| `Readdir.SeriesFinishes` | IXLandSystem/fs/readdir.c:79-120 | enough calls with room for any record read all that the host has not yet read; from a fresh descriptor, the whole directory |
| `FileBooks.ClearedKeeps` | IXLandSystem/fs/fdtable.c:82-88 | clearing a slot keeps every count right and frees the file if and only if nobody refers to it any more |
| `FileBooks.LostKeeps` | IXLandSystem/fs/fdtable.c:82-88 | the same when a holder gives its reference up |
| `FileBooks.EnteredKeeps` | IXLandSystem/fs/fdtable.c:105-107 | a new slot that points to a file keeps every count right |
| `FileBooks.TableFreed` | IXLandSystem/fs/fdtable.c:30-45 | freeing a table frees exactly the files that only it referred to, and touches no holder |
| `FileBooks.ClearedFrees` | IXLandSystem/fs/exec.c:157-163 | clearing any choice of slots frees exactly the files that lose their last reference by it |
| `FileBooks.CopiedUpTo` | IXLandSystem/fs/fdtable.c:58-68 | copying slots to a new table keeps every count right and touches no holder |
| `FileBooks.RunConserves` | IXLandSystem/fs/fdtable.c:30-153 | after any run of steps a live file has as many references as it has holders and slots in all tables, at least one, and a file that is not live has none |
| `FdTable.FileAlloc` | IXLandSystem/fs/fdtable.c:74-80 | a new file with one reference, held by the caller alone; no other count changes |
| `FdTable.FileFree` | IXLandSystem/fs/fdtable.c:82-88 | one holder and one reference less, and the file is freed if and only if no holder and no slot is left; no slot, other holder or other count changes |
| `FdTable.FileDup` | IXLandSystem/fs/fdtable.c:90-95 | one reference and one holder more; no slot, other holder or other count changes |
| `FdTable.FdAlloc` | IXLandSystem/fs/fdtable.c:97-116 | EINVAL, EMFILE if and only if every slot is taken, or the first free slot, which now refers to the file: one reference more, no holder and no other slot changed |
| `FdTable.FdFree` | IXLandSystem/fs/fdtable.c:118-137 | EBADF if the slot is not open; else that slot alone is cleared and its reference dropped, the holders as they were |
| `FdTable.FdLookup` | IXLandSystem/fs/fdtable.c:139-153 | EBADF out of range; else the file of the slot, with one reference more and the caller as one more holder, and nothing else changed |
| `FdTable.FilesAlloc` | IXLandSystem/fs/fdtable.c:10-28 | a new table with every slot free |
| `FdTable.FilesDup` | IXLandSystem/fs/fdtable.c:47-72 | a new table with the same slots; holders and the other tables are as they were, and the counts account for the new slots |
| `FdTable.FilesFree` | IXLandSystem/fs/fdtable.c:30-45 | the table is gone, and exactly the files that only it referred to are freed |
| `FdTable.CloseCloexec` | IXLandSystem/fs/exec.c:150-167 | exactly the descriptors marked close-on-exec are closed, and exactly the files nobody else refers to are freed |
| `EpollIndex.PutKeeps` | IXLandSystem/fs/eventpoll.c:68-77 | adding an item keeps every bucket a doubly linked list of the right descriptors and the index a refinement of the map from descriptors to items |
| `EpollIndex.CutKeeps` | IXLandSystem/fs/eventpoll.c:79-90 | so does removing one from any place of its bucket |
| `Epoll.Instance.FindItem` | IXLandSystem/fs/eventpoll.c:55-66 | an item is found if and only if the descriptor is registered, and it is its item |
| `Epoll.Instance.AddItem` | IXLandSystem/fs/eventpoll.c:68-77 | the descriptor is registered with the item's event, the count is the number of registrations, and no other registration changes |
| `Epoll.Instance.RemoveItem` | IXLandSystem/fs/eventpoll.c:79-90 | the descriptor is no longer registered, and no other registration changes |
| `Epoll.Control` | IXLandSystem/fs/eventpoll.c:272-374 | for ADD, DEL, MOD and anything else: which error is returned when, and that a successful ADD or an applied MOD leaves its event, a successful DEL nothing, and every other descriptor its event |
| `Epoll.Ctl` | IXLandSystem/fs/eventpoll.c:253-378 | EBADF and EINVAL for bad descriptors with the registrations untouched; else as the request says |
| `Epoll.AnswersTell` | IXLandSystem/fs/eventpoll.c:272-374 | EEXIST if and only if an ADD finds the descriptor registered, ENOENT if and only if a DEL or MOD does not, EINVAL for a missing event or an unknown operation, EPERM if and only if the queue refuses |
| `Epoll.RegistrationTellsHistory` | IXLandSystem/fs/eventpoll.c:272-374 | after any run, what is registered for a descriptor is the event of the last ADD or MOD for it that took effect, unless a DEL has succeeded since |
| `Epoll.RegistrationUntouched` | IXLandSystem/fs/eventpoll.c:272-374 | and what was registered before the run if none of its requests for the descriptor took effect |
| `Epoll.ErrorsChangeNothing` | IXLandSystem/fs/eventpoll.c:274-374 | a failing call changes the registrations if and only if it is a MOD of a registered descriptor to a different event which the kernel queue refuses |
| `Epoll.RefusedModReplaces` | IXLandSystem/fs/eventpoll.c:352-365 | such a request: EPERM, and the event is the new one |
| `Epoll.FailuresDropOut` | IXLandSystem/fs/eventpoll.c:272-374 | if every MOD asks nothing of the queue or is not refused, any run comes to what its successful requests come to |
| `Epoll.DescriptorsAreIndependent` | IXLandSystem/fs/eventpoll.c:272-374 | after any run, what is registered for a descriptor depends only on the requests for that descriptor |

## Left out

- Threads, locks and condition variables: each call is one atomic step, with the decrement and the unlinking in `ixland_task_free` merged into it. A blocked `waitpid` is the outcome `Blocked`, and goes on as a resumed call.
- The setjmp handshake of fork, and vfork: they depend on host stack behaviour. `filesOk` and `threadOk` of `Forks.Fork` stand for the outcomes of copying the descriptors and creating the thread.
- Running out of memory, except where a failure is a parameter of the model.
- `Forks.Fork`: assumes that a pid is free, because `ixland_task_alloc` does not look at the answer -1.
- `TaskTables.TaskTable.TaskAlloc`: the same; `task_hash` of -1 is no index of the table, so there is nothing to say of what follows.
- `TaskTables.TaskTable.TaskLookup`: assumes a pid that is not negative, because `task_hash` of a negative number is no index of the table.
- `Signals.Kill`: assumes that the tasks hit have a sighand, because the code follows the pointer without looking, and only init is given one. Pending sets hold any number below 64.
- `Signals.Killpg`: assumes the same of the tasks that are reached; the matches are a sequence of at most 256 tasks, not an array on the stack.
- `Signals.ApplySignal`: assumes that the task has a sighand, which the code does not check.
- `Signals.Strike`: assumes the same of its task.
- `Signals.DeliverAll`: assumes the same of the tasks collected.
- Process groups and sessions beyond their inheritance in fork: `setpgid` and `setsid` do not keep them consistent.
- Waking up, `pthread_kill` and SIGCHLD.
- The error texts of getopt, and its static `dash_prefix`, which only they use.
- `Getopt.Scanner.ParseLongOptions`: an argument that is missing is recognised by the end of argv, where the code reads the null pointer behind its last entry.
- Locales and characters beyond seven bits: a character is a Dafny `char`.
- `getopt.c`, a simpler scanner that treats "--name" and "-" differently.
- Component claims for relative pathnames: dot components are looked for only behind a slash, so "ab/.." becomes "a". `DotsInPlace.NormalizeDots` still says exactly what the buffer holds.
- Classification by regular expressions, `__ixland_path_resolve` and `ixland_vfs_translate`; the latter is not part of this model.
- `Readdir.Getdents64`: cookies of the host are the numbers of entries read; a directory that changes between calls, or whose position is moved from elsewhere, is not modelled.
- The static descriptor table with dup and dup2, whose entries share host descriptors without counting them.
- kqueue: `kevent` succeeds or fails. The interest set of the queue is not modelled; `registered_events` is never assigned, so nothing is ever removed from it.
- Networking, the WebAssembly runtime, the terminal, mounts, and the wrappers around the host's calls.
