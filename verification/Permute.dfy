/** IXLandSystem/getopt_long.c, permute_args: two adjacent blocks of argv change places, in place. */
module Permute {
  import opened Numbers

  /** The block [s, e) and the block [e, t) exchanged, each in its own order. */
  function Exchange(a: seq<string>, s: nat, e: nat, t: nat): (b: seq<string>)
    requires s <= e <= t <= |a|
    ensures |b| == |a|
  {
    a[..s] + a[e..t] + a[s..e] + a[t..]
  }

  /** Where the entry that ends up at x (relative to the first block) comes from; it undoes Next. */
  function Source(x: int, n: nat, m: nat): (y: int)
    ensures 0 <= x < n + m ==> 0 <= y < n + m && Next(y, n, m) == x
  {
    if x < m then x + n else x - m
  }

  /** Where the entry at k comes from, when the first i cycles of the exchange are complete and nothing else has moved. */
  ghost function OriginDone(k: nat, s: nat, n: nat, m: nat, i: nat, cycle: seq<int>): nat
    requires |cycle| == n + m
  {
    if s <= k < s + n + m && cycle[k - s] < i then s + Source(k - s, n, m) else k
  }

  ghost predicate CyclesDone(cur: seq<string>, was: seq<string>, s: nat, n: nat, m: nat, i: nat, cycle: seq<int>)
    requires s + n + m <= |was| == |cur| && |cycle| == n + m
  {
    forall k {:trigger OriginDone(k, s, n, m, i, cycle)} :: 0 <= k < |cur| ==> cur[k] == was[OriginDone(k, s, n, m, i, cycle)]
  }

  /**
    The same when j further steps on the i-th cycle have led to position pos: those j positions are
    final, and the start of the cycle holds what came from pos.
   */
  ghost function Origin(k: nat, s: nat, n: nat, m: nat, i: nat, j: nat, pos: nat, cycle: seq<int>, rank: seq<int>): nat
    requires |cycle| == |rank| == n + m
  {
    if s <= k < s + n + m && (cycle[k - s] < i || (cycle[k - s] == i && 1 <= rank[k - s] <= j)) then s + Source(k - s, n, m)
    else if k == s + n + i then s + pos
    else k
  }

  ghost predicate Partway(cur: seq<string>, was: seq<string>, s: nat, n: nat, m: nat, i: nat, j: nat, pos: nat,
                          cycle: seq<int>, rank: seq<int>)
    requires s + n + m <= |was| == |cur| && |cycle| == |rank| == n + m && pos < n + m
  {
    forall k {:trigger Origin(k, s, n, m, i, j, pos, cycle, rank)} :: 0 <= k < |cur| ==>
      cur[k] == was[Origin(k, s, n, m, i, j, pos, cycle, rank)]
  }

  function Swap(a: seq<string>, x: nat, y: nat): seq<string>
    requires x < |a| && y < |a|
  {
    a[x := a[y]][y := a[x]]
  }

  /** One step: the next position of the cycle trades its entry with the one held at the start. */
  lemma CycleStep(cur: seq<string>, was: seq<string>, s: nat, n: nat, m: nat, i: nat, j: nat, pos: nat,
                  cycle: seq<int>, rank: seq<int>, len: nat)
    requires s + n + m <= |was| == |cur| && |cycle| == |rank| == n + m && RanksCycle(cycle, rank, n, m, i, len)
    requires pos < n + m && cycle[pos] == i && rank[pos] == j && Partway(cur, was, s, n, m, i, j, pos, cycle, rank)
    requires j + 1 < len
    ensures var pos' := Next(pos, n, m);
      && cycle[pos'] == i && rank[pos'] == j + 1
      && Partway(Swap(cur, s + pos', s + n + i), was, s, n, m, i, j + 1, pos', cycle, rank)
  {
    var pos' := Next(pos, n, m);
    var cur' := Swap(cur, s + pos', s + n + i);
    assert Source(pos', n, m) == pos;
    forall k | 0 <= k < |cur|
      ensures cur'[k] == was[Origin(k, s, n, m, i, j + 1, pos', cycle, rank)]
    {
      if k == s + pos' {
        assert cur[s + n + i] == was[Origin(s + n + i, s, n, m, i, j, pos, cycle, rank)];
      } else if k == s + n + i {
        assert cur[s + pos'] == was[Origin(s + pos', s, n, m, i, j, pos, cycle, rank)];
      } else {
        assert cur[k] == was[Origin(k, s, n, m, i, j, pos, cycle, rank)];
        OriginElsewhere(k, s, n, m, i, j, pos, pos', cycle, rank);
      }
    }
  }

  /** The last step leads back to the start, whose entry is then in place: the cycle closes. */
  lemma CycleCloses(cur: seq<string>, was: seq<string>, s: nat, n: nat, m: nat, i: nat, pos: nat,
                    cycle: seq<int>, rank: seq<int>, len: nat)
    requires s + n + m <= |was| == |cur| && |cycle| == |rank| == n + m && RanksCycle(cycle, rank, n, m, i, len)
    requires pos < n + m && cycle[pos] == i && rank[pos] == len - 1
    requires Partway(cur, was, s, n, m, i, len - 1, pos, cycle, rank)
    ensures Next(pos, n, m) == n + i
    ensures Swap(cur, s + n + i, s + n + i) == cur
    ensures CyclesDone(cur, was, s, n, m, i + 1, cycle)
  {
    assert Source(n + i, n, m) == pos;
    forall k | 0 <= k < |cur|
      ensures cur[k] == was[OriginDone(k, s, n, m, i + 1, cycle)]
    {
      assert cur[k] == was[Origin(k, s, n, m, i, len - 1, pos, cycle, rank)];
      if s <= k < s + n + m && cycle[k - s] == i {
        assert OnCycle(cycle, i, k - s) && OnCycle(cycle, i, n + i);
      }
    }
  }

  lemma OriginElsewhere(k: nat, s: nat, n: nat, m: nat, i: nat, j: nat, pos: nat, pos': nat, cycle: seq<int>, rank: seq<int>)
    requires |cycle| == |rank| == n + m && Distinguishes(cycle, rank, i)
    requires pos' < n + m && cycle[pos'] == i && rank[pos'] == j + 1 && k != s + pos' && k != s + n + i
    ensures Origin(k, s, n, m, i, j, pos, cycle, rank) == Origin(k, s, n, m, i, j + 1, pos', cycle, rank)
  {
    if s <= k < s + n + m {
      assert OnCycle(cycle, i, pos') && (OnCycle(cycle, i, k - s) || cycle[k - s] != i);
    }
  }

  lemma AllCyclesDone(cur: seq<string>, was: seq<string>, s: nat, n: nat, m: nat, i: nat, cycle: seq<int>)
    requires s + n + m <= |was| == |cur| && |cycle| == n + m
    requires forall x :: 0 <= x < n + m ==> cycle[x] < i
    requires CyclesDone(cur, was, s, n, m, i, cycle)
    ensures cur == Exchange(was, s, s + n, s + n + m)
  {
    forall k | 0 <= k < |cur|
      ensures cur[k] == Exchange(was, s, s + n, s + n + m)[k]
    {
      assert cur[k] == was[OriginDone(k, s, n, m, i, cycle)];
    }
  }

  /** The invariant of the inner loop: after all len steps the cycle is complete. */
  ghost predicate AfterSteps(cur: seq<string>, was: seq<string>, s: nat, n: nat, m: nat, i: nat, j: nat, pos: nat,
                             cycle: seq<int>, rank: seq<int>, len: nat)
    requires s + n + m <= |was| == |cur| && |cycle| == |rank| == n + m && pos < n + m
  {
    if j < len
    then cycle[pos] == i && rank[pos] == j && Partway(cur, was, s, n, m, i, j, pos, cycle, rank)
    else CyclesDone(cur, was, s, n, m, i + 1, cycle)
  }

  lemma OneStep(cur: seq<string>, was: seq<string>, s: nat, n: nat, m: nat, i: nat, j: nat, pos: nat,
                cycle: seq<int>, rank: seq<int>, len: nat)
    requires s + n + m <= |was| == |cur| && |cycle| == |rank| == n + m && RanksCycle(cycle, rank, n, m, i, len)
    requires pos < n + m && j < len && AfterSteps(cur, was, s, n, m, i, j, pos, cycle, rank, len)
    ensures var pos' := Next(pos, n, m);
      AfterSteps(Swap(cur, s + pos', s + n + i), was, s, n, m, i, j + 1, pos', cycle, rank, len)
  {
    if j + 1 < len {
      CycleStep(cur, was, s, n, m, i, j, pos, cycle, rank, len);
    } else {
      CycleCloses(cur, was, s, n, m, i, pos, cycle, rank, len);
    }
  }

  lemma NoSteps(cur: seq<string>, was: seq<string>, s: nat, n: nat, m: nat, i: nat,
                cycle: seq<int>, rank: seq<int>, len: nat)
    requires s + n + m <= |was| == |cur| && |cycle| == |rank| == n + m && RanksCycle(cycle, rank, n, m, i, len)
    requires CyclesDone(cur, was, s, n, m, i, cycle)
    ensures AfterSteps(cur, was, s, n, m, i, 0, n + i, cycle, rank, len)
  {
    assert OnCycle(cycle, i, n + i);
    forall k | 0 <= k < |cur|
      ensures cur[k] == was[Origin(k, s, n, m, i, 0, n + i, cycle, rank)]
    {
      assert cur[k] == was[OriginDone(k, s, n, m, i, cycle)];
    }
  }

  method SwapEntries(nargv: array<string>, pos: nat, cstart: nat)
    requires pos < nargv.Length && cstart < nargv.Length
    modifies nargv
    ensures nargv[..] == Swap(old(nargv[..]), pos, cstart)
  {
    var swap := nargv[pos];
    nargv[pos] := nargv[cstart];
    nargv[cstart] := swap;
  }

  /** The inner loop: cyclelen swaps along the cycle that starts at cstart. */
  method RotateCycle(panonoptEnd: nat, nnonopts: nat, nopts: nat, cstart: nat, cyclelen: nat, nargv: array<string>,
                     ghost was: seq<string>, ghost i: nat, ghost cycle: seq<int>, ghost rank: seq<int>)
    requires nnonopts <= panonoptEnd && panonoptEnd + nopts <= nargv.Length == |was| && cstart == panonoptEnd + i
    requires |cycle| == |rank| == nnonopts + nopts && RanksCycle(cycle, rank, nnonopts, nopts, i, cyclelen)
    requires CyclesDone(nargv[..], was, panonoptEnd - nnonopts, nnonopts, nopts, i, cycle)
    modifies nargv
    ensures CyclesDone(nargv[..], was, panonoptEnd - nnonopts, nnonopts, nopts, i + 1, cycle)
  {
    ghost var s := panonoptEnd - nnonopts;
    var pos := cstart;
    NoSteps(nargv[..], was, s, nnonopts, nopts, i, cycle, rank, cyclelen);
    for j := 0 to cyclelen
      invariant s <= pos < panonoptEnd + nopts
      invariant AfterSteps(nargv[..], was, s, nnonopts, nopts, i, j, pos - s, cycle, rank, cyclelen)
    {
      ghost var cur := nargv[..];
      OneStep(cur, was, s, nnonopts, nopts, i, j, pos - s, cycle, rank, cyclelen);
      if pos >= panonoptEnd {
        pos := pos - nnonopts;
      } else {
        pos := pos + nopts;
      }
      SwapEntries(nargv, pos, cstart);
    }
  }

  method PermuteArgs(panonoptStart: nat, panonoptEnd: nat, optEnd: nat, nargv: array<string>)
    requires panonoptStart <= panonoptEnd < optEnd <= nargv.Length
    modifies nargv
    ensures nargv[..] == Exchange(old(nargv[..]), panonoptStart, panonoptEnd, optEnd)
  {
    ghost var was := nargv[..];
    var nnonopts := panonoptEnd - panonoptStart;
    var nopts := optEnd - panonoptEnd;
    ghost var cycle, ranks := RankedCycles(nnonopts, nopts);
    var ncycle := ComputeGcd(nnonopts, nopts);
    var cyclelen := (optEnd - panonoptStart) / ncycle;
    assert cyclelen == CycleLength(nnonopts, nopts);
    for i := 0 to ncycle
      invariant CyclesDone(nargv[..], was, panonoptStart, nnonopts, nopts, i, cycle)
    {
      RotateCycle(panonoptEnd, nnonopts, nopts, panonoptEnd + i, cyclelen, nargv, was, i, cycle, ranks[i]);
    }
    AllCyclesDone(nargv[..], was, panonoptStart, nnonopts, nopts, ncycle, cycle);
    assert panonoptStart + nnonopts == panonoptEnd && panonoptStart + nnonopts + nopts == optEnd;
  }
}
