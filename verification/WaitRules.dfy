/**
  IXLandSystem/kernel/wait.c, the choice that ixland_waitpid makes among the children of a task, as a
  function of what it can see of each: pid, process group and flags.
 */
module WaitRules {
  import opened Wrappers
  import opened Status

  datatype Options = Options(nohang: bool, untraced: bool, continued: bool)

  datatype Child = Child(pid: int, pgid: int, flags: Flags)

  /** The pid argument: one child, any child, a child of the caller's group, a child of group -pid. */
  predicate Matches(c: Child, pid: int, ownGroup: int) {
    if pid > 0 then c.pid == pid
    else if pid == -1 then true
    else if pid == 0 then c.pgid == ownGroup
    else c.pgid == -pid
  }

  predicate Noticed(f: Flags, options: Options) {
    f.exited || (options.untraced && f.stopped) || (options.continued && f.continued)
  }

  /** What the search loops stop at; a search for one pid does not look at the flags. */
  predicate Picked(c: Child, pid: int, ownGroup: int, options: Options) {
    Matches(c, pid, ownGroup) && (pid > 0 || Noticed(c.flags, options))
  }

  /** What is then accepted as news. */
  predicate Reportable(f: Flags, options: Options) {
    f.exited || (options.untraced && f.stopped) || (options.continued && f.continued && !f.stopped)
  }

  function FirstPicked(children: seq<Child>, pid: int, ownGroup: int, options: Options): (i: nat)
    ensures i <= |children|
  {
    if children == [] || Picked(children[0], pid, ownGroup, options) then 0
    else 1 + FirstPicked(children[1..], pid, ownGroup, options)
  }

  lemma FirstPickedIsFirst(children: seq<Child>, pid: int, ownGroup: int, options: Options)
    ensures var i := FirstPicked(children, pid, ownGroup, options);
      && (i < |children| ==> Picked(children[i], pid, ownGroup, options))
      && forall j :: 0 <= j < i ==> !Picked(children[j], pid, ownGroup, options)
  {
  }

  lemma {:induction false} FirstPickedUnique(children: seq<Child>, pid: int, ownGroup: int, options: Options, i: nat)
    requires i <= |children| && (i < |children| ==> Picked(children[i], pid, ownGroup, options))
    requires forall j :: 0 <= j < i ==> !Picked(children[j], pid, ownGroup, options)
    ensures FirstPicked(children, pid, ownGroup, options) == i
  {
    if i > 0 {
      FirstPickedUnique(children[1..], pid, ownGroup, options, i - 1);
    }
  }

  /** The child that one pass over the children comes up with. */
  function Choose(children: seq<Child>, pid: int, ownGroup: int, options: Options): (r: Option<nat>)
    ensures r.Some? ==> r.value < |children|
  {
    var i := FirstPicked(children, pid, ownGroup, options);
    if i < |children| && Reportable(children[i].flags, options) then Some(i) else None
  }

  /** NoChild is the error ECHILD. */
  datatype Outcome = Got(pid: int, status: int) | Nothing | NoChild | Blocked

  function Answer(children: seq<Child>, pid: int, ownGroup: int, options: Options): Outcome {
    match Choose(children, pid, ownGroup, options)
    case Some(i) => Got(children[i].pid, ToStatus(children[i].flags))
    case None => if options.nohang then Nothing else if children == [] then NoChild else Blocked
  }

  /** The child that the call reaps, if any. */
  function ToReap(children: seq<Child>, pid: int, ownGroup: int, options: Options): (r: Option<nat>)
    ensures r.Some? ==> r.value < |children| && children[r.value].flags.exited
  {
    match Choose(children, pid, ownGroup, options)
    case Some(i) => if children[i].flags.exited then Some(i) else None
    case None => None
  }

  predicate Eligible(c: Child, pid: int, ownGroup: int, options: Options) {
    Matches(c, pid, ownGroup) && Reportable(c.flags, options)
  }

  /** i is the first child, in list order, that the caller asked about and that has news. */
  ghost predicate FirstEligible(children: seq<Child>, pid: int, ownGroup: int, options: Options, i: nat) {
    && i < |children| && Eligible(children[i], pid, ownGroup, options)
    && forall j :: 0 <= j < i ==> !Eligible(children[j], pid, ownGroup, options)
  }

  ghost predicate DistinctPids(children: seq<Child>) {
    forall i, j :: 0 <= i < j < |children| ==> children[i].pid != children[j].pid
  }

  /** A stopped child that was once continued: WCONTINUED alone notices it but does not accept it. */
  predicate Masking(c: Child, pid: int, ownGroup: int, options: Options) {
    && pid <= 0 && Matches(c, pid, ownGroup) && options.continued && !options.untraced
    && c.flags.continued && c.flags.stopped && !c.flags.exited
  }

  ghost predicate Masked(children: seq<Child>, pid: int, ownGroup: int, options: Options, i: nat) {
    exists j :: 0 <= j < i < |children| && Masking(children[j], pid, ownGroup, options)
  }

  /**
    The choice is the first eligible child, and there is no choice only when no child is eligible:
    exactly so unless the first eligible child is masked by an earlier one.
   */
  lemma ChooseIsFirstEligible(children: seq<Child>, pid: int, ownGroup: int, options: Options)
    requires DistinctPids(children)
    ensures var r := Choose(children, pid, ownGroup, options);
      && (forall i: nat :: r == Some(i) ==> FirstEligible(children, pid, ownGroup, options, i))
      && (forall i: nat :: FirstEligible(children, pid, ownGroup, options, i) ==>
           (r == Some(i) <==> !Masked(children, pid, ownGroup, options, i)))
  {
    FirstPickedIsFirst(children, pid, ownGroup, options);
    var k := FirstPicked(children, pid, ownGroup, options);
    forall i: nat | FirstEligible(children, pid, ownGroup, options, i)
      ensures Choose(children, pid, ownGroup, options) == Some(i) <==> !Masked(children, pid, ownGroup, options, i)
    {
      assert Picked(children[i], pid, ownGroup, options);
      assert k <= i;
      if k < i {
        assert !Eligible(children[k], pid, ownGroup, options);
        assert Masking(children[k], pid, ownGroup, options);
      } else {
        forall j | 0 <= j < i ensures !Masking(children[j], pid, ownGroup, options) {
          assert !Picked(children[j], pid, ownGroup, options);
        }
      }
    }
  }

  /** i is the first eligible child, and no earlier one masks it. */
  ghost predicate Chosen(children: seq<Child>, pid: int, ownGroup: int, options: Options, i: nat) {
    FirstEligible(children, pid, ownGroup, options, i) && !Masked(children, pid, ownGroup, options, i)
  }

  /** The outcome and what is reaped, for a chosen child and for none; pick is its number. */
  lemma ChosenIsAnswered(children: seq<Child>, pid: int, ownGroup: int, options: Options) returns (pick: nat)
    requires DistinctPids(children)
    ensures var answer, reap := Answer(children, pid, ownGroup, options), ToReap(children, pid, ownGroup, options);
      && pick <= |children|
      && if pick < |children| then
           && Chosen(children, pid, ownGroup, options, pick)
           && answer == Got(children[pick].pid, ToStatus(children[pick].flags))
           && reap == if children[pick].flags.exited then Some(pick) else None
         else
           && (forall i: nat :: !Chosen(children, pid, ownGroup, options, i))
           && reap == None
           && answer == if options.nohang then Nothing else if children == [] then NoChild else Blocked
  {
    ChooseIsFirstEligible(children, pid, ownGroup, options);
    var r := Choose(children, pid, ownGroup, options);
    pick := if r.Some? then r.value else |children|;
    if r.Some? {
      assert FirstEligible(children, pid, ownGroup, options, pick);
    }
  }

  /** Without WCONTINUED nothing is masked. */
  lemma NothingMasked(children: seq<Child>, pid: int, ownGroup: int, options: Options)
    requires DistinctPids(children) && (!options.continued || options.untraced)
    ensures var r := Choose(children, pid, ownGroup, options);
      && (r == None <==> forall i :: 0 <= i < |children| ==> !Eligible(children[i], pid, ownGroup, options))
      && (forall i: nat :: r == Some(i) <==> FirstEligible(children, pid, ownGroup, options, i))
  {
    ChooseIsFirstEligible(children, pid, ownGroup, options);
    if i: nat :| i < |children| && Eligible(children[i], pid, ownGroup, options) {
      var k := SomeFirstEligible(children, pid, ownGroup, options, i);
    }
  }

  lemma {:induction false} SomeFirstEligible(children: seq<Child>, pid: int, ownGroup: int, options: Options, i: nat) returns (k: nat)
    requires i < |children| && Eligible(children[i], pid, ownGroup, options)
    ensures FirstEligible(children, pid, ownGroup, options, k)
    decreases i
  {
    if j: nat :| j < i && Eligible(children[j], pid, ownGroup, options) {
      k := SomeFirstEligible(children, pid, ownGroup, options, j);
    } else {
      k := i;
    }
  }

  /** With WCONTINUED alone, a dead child can stay unreported behind a live one. */
  lemma ZombieBehindStoppedChild()
    ensures var stopped := Child(1001, 1000, After([Deliver(SIGSTOP), Deliver(SIGCONT), Deliver(SIGSTOP)]));
      var dead := Child(1002, 1000, After([Exit(0)]));
      && Choose([stopped, dead], -1, 1000, Options(true, false, true)) == None
      && Eligible(dead, -1, 1000, Options(true, false, true))
  {
    var h := [Deliver(SIGSTOP), Deliver(SIGCONT), Deliver(SIGSTOP)];
    assert h[..1] == [Deliver(SIGSTOP)] && h[..2] == [Deliver(SIGSTOP), Deliver(SIGCONT)];
    assert h[..1][..0] == [] && h[..2][..1] == h[..1];
    assert After(h[..1]) == FRESH.(stopped := true, stopsig := SIGSTOP);
    assert After(h[..2]) == Apply(After(h[..1]), Deliver(SIGCONT));
    assert After(h) == FRESH.(stopped := true, stopsig := SIGSTOP, continued := true);
    assert [Exit(0)][..0] == [];
    assert After([Exit(0)]).exited;
    var stopped, dead := Child(1001, 1000, After(h)), Child(1002, 1000, After([Exit(0)]));
    assert FirstPicked([stopped, dead], -1, 1000, Options(true, false, true)) == 0;
  }
}
