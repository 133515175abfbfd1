/**
  The order in which ixland_killpg (IXLandSystem/kernel/signal.c) comes across the tasks of a process
  group: bucket by bucket along the task table, and no more than the first 256.
 */
module Groups {
  import opened Links
  import opened Tasks

  const KILLPG_MAX_MATCHES := 256

  /** The tasks of the table, bucket by bucket. */
  function Flat(chains: seq<seq<Task>>): seq<Task> {
    if chains == [] then [] else Flat(chains[..|chains| - 1]) + chains[|chains| - 1]
  }

  ghost function Members(s: seq<Task>, group: set<Task>): seq<Task> {
    if s == [] then []
    else Members(s[..|s| - 1], group) + if s[|s| - 1] in group then [s[|s| - 1]] else []
  }

  function Capped(s: seq<Task>): seq<Task> {
    if |s| <= KILLPG_MAX_MATCHES then s else s[..KILLPG_MAX_MATCHES]
  }

  /** stages[n] is what has been collected after the first n tasks of the walk. */
  ghost predicate Stages(stages: seq<seq<Task>>, flat: seq<Task>, group: set<Task>) {
    && NoDup(flat) && |stages| == |flat| + 1
    && forall n {:trigger StageOk(stages, flat, group, n)} :: 0 <= n <= |flat| ==> StageOk(stages, flat, group, n)
  }

  ghost predicate StageOk(stages: seq<seq<Task>>, flat: seq<Task>, group: set<Task>, n: int) {
    0 <= n <= |flat| && n < |stages| && stages[n] == Capped(Members(flat[..n], group))
  }

  lemma StagesOf(flat: seq<Task>, group: set<Task>) returns (stages: seq<seq<Task>>)
    requires NoDup(flat)
    ensures Stages(stages, flat, group) && stages[0] == [] && stages[|flat|] == Capped(Members(flat, group))
  {
    stages := seq(|flat| + 1, n requires 0 <= n <= |flat| => Capped(Members(flat[..n], group)));
    assert flat[..|flat|] == flat;
  }

  lemma CappedGrows(s: seq<Task>, t: Task)
    ensures Capped(s + [t]) == if |Capped(s)| < KILLPG_MAX_MATCHES then Capped(s) + [t] else Capped(s)
  {
  }

  lemma {:induction false} MembersOf(s: seq<Task>, group: set<Task>)
    requires NoDup(s)
    ensures NoDup(Members(s, group))
    ensures forall t {:trigger t in Members(s, group)} :: t in Members(s, group) ==> t in s && t in group
    ensures forall t {:trigger t in group} :: t in s && t in group ==> t in Members(s, group)
  {
    if s != [] {
      var n := |s| - 1;
      var front := Members(s[..n], group);
      MembersOf(s[..n], group);
      assert s == s[..n] + [s[n]];
      forall i | 0 <= i < |front| ensures front[i] != s[n] {
        assert front[i] in front;
      }
    }
  }

  /** Where in the table a task of Flat is. */
  lemma {:induction false} FlatAt(chains: seq<seq<Task>>, t: Task) returns (b: int, i: int)
    requires t in Flat(chains)
    ensures 0 <= b < |chains| && 0 <= i < |chains[b]| && chains[b][i] == t
  {
    var n := |chains| - 1;
    if t in chains[n] {
      b := n;
      i :| 0 <= i < |chains[n]| && chains[n][i] == t;
    } else {
      b, i := FlatAt(chains[..n], t);
    }
  }

  lemma {:induction false} FlatHas(chains: seq<seq<Task>>, b: int, t: Task)
    requires 0 <= b < |chains| && t in chains[b]
    ensures t in Flat(chains)
  {
    if b < |chains| - 1 {
      FlatHas(chains[..|chains| - 1], b, t);
    }
  }

  /** The walk comes to the j-th task of bucket b after those of the buckets before it. */
  lemma {:induction false} FlatStep(chains: seq<seq<Task>>, b: int)
    requires 0 <= b < |chains|
    ensures var n := |Flat(chains[..b])|;
      && n + |chains[b]| == |Flat(chains[..b + 1])| <= |Flat(chains)|
      && Flat(chains)[..n] == Flat(chains[..b]) && Flat(chains)[..n + |chains[b]|] == Flat(chains[..b + 1])
      && forall j {:trigger chains[b][j]} :: 0 <= j < |chains[b]| ==> Flat(chains)[n + j] == chains[b][j]
  {
    assert chains[..b + 1][..b] == chains[..b];
    if b == |chains| - 1 {
      assert chains[..b + 1] == chains;
    } else {
      var front := chains[..|chains| - 1];
      FlatStep(front, b);
      assert front[..b] == chains[..b] && front[..b + 1] == chains[..b + 1];
      assert front[b] == chains[b];
    }
  }

  /** Each bucket is free of repetition, and no task is in two of them. */
  ghost predicate Separate(chains: seq<seq<Task>>) {
    forall b, i, c, j :: 0 <= b < |chains| && 0 <= i < |chains[b]| && 0 <= c < |chains| && 0 <= j < |chains[c]|
      ==> chains[b][i] == chains[c][j] ==> b == c && i == j
  }

  lemma {:induction false} FlatNoDup(chains: seq<seq<Task>>)
    requires Separate(chains)
    ensures NoDup(Flat(chains))
  {
    if chains != [] {
      var n := |chains| - 1;
      FlatNoDup(chains[..n]);
      var front, last := Flat(chains[..n]), chains[n];
      forall i, j | 0 <= i < |front| && 0 <= j < |last| ensures front[i] != last[j] {
        var b, h := FlatAt(chains[..n], front[i]);
      }
    }
  }

  /** A walk through the table meets every live task, and meets it once. */
  lemma WalkMeetsEachOnce(heads: seq<Task?>, next: map<Task?, Task?>, chains: seq<seq<Task>>, byPid: map<int, Task>, live: set<Task>)
    requires Indexes(heads, next, chains, byPid) && NamesOk(byPid, live)
    ensures NoDup(Flat(chains)) && forall t :: t in Flat(chains) <==> t in live
  {
    forall b, i, c, j | 0 <= b < |chains| && 0 <= i < |chains[b]| && 0 <= c < |chains| && 0 <= j < |chains[c]|
      && chains[b][i] == chains[c][j]
      ensures b == c && i == j
    {
      SitsOnce(heads, next, chains, byPid, b, i, c, j);
    }
    FlatNoDup(chains);
    forall t | t in Flat(chains) ensures t in live {
      var b, i := FlatAt(chains, t);
      assert BucketOk(heads[b], next, chains[b], byPid, b);
      assert Sits(t, b, byPid);
      assert LiveOk(byPid, live, t.pid);
    }
    forall t | t in live ensures t in Flat(chains) {
      assert NamedOk(byPid, t) && EntryOk(chains, byPid, t.pid);
      FlatHas(chains, TaskHash(t.pid), t);
    }
  }

  lemma {:induction false} NoDupFits(s: seq<Task>, group: set<Task>)
    requires NoDup(s) && forall t :: t in s ==> t in group
    ensures |s| <= |group|
  {
    if s != [] {
      var n := |s| - 1;
      NoDupFits(s[..n], group - {s[n]});
    }
  }

  lemma {:induction false} Covered(s: seq<Task>, group: set<Task>)
    requires forall t :: t in group ==> t in s
    ensures |group| <= |s|
  {
    if s != [] {
      var n := |s| - 1;
      forall t | t in group - {s[n]} ensures t in s[..n] {
        assert t in s;
      }
      Covered(s[..n], group - {s[n]});
      assert group <= group - {s[n]} + {s[n]};
    }
  }

  /** What is collected: tasks of the group only, none twice, and all of them if there are at most 256. */
  lemma CollectedIsGroup(s: seq<Task>, group: set<Task>)
    requires NoDup(s) && forall t :: t in group ==> t in s
    ensures var found := Capped(Members(s, group));
      && NoDup(found) && (forall t :: t in found ==> t in group)
      && (|group| <= KILLPG_MAX_MATCHES ==> forall t :: t in group ==> t in found)
      && (found == [] <==> group == {})
      && (|group| > KILLPG_MAX_MATCHES ==> |found| == KILLPG_MAX_MATCHES)
  {
    MembersOf(s, group);
    var all := Members(s, group);
    forall t | t in all ensures t in group {
      assert t in Members(s, group);
    }
    NoDupFits(all, group);
    Covered(all, group);
    if all == [] {
      assert forall t :: t !in group;
    }
  }
}
