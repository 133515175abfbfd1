/**
  The process tree as a value: who is in whose list of children. fork.c hangs a new leaf under its
  parent, exit.c moves the children of the exiting task to the front of init's list, and wait.c takes a
  terminated child out.
 */
module ProcessTree {
  import opened Links

  /** The children list of every task that has been forked (or is init) and has not been reaped. */
  datatype Tree<T> = Tree(root: T, kids: map<T, seq<T>>)

  ghost predicate ChildOf<T>(t: Tree<T>, older c: T, older p: T) {
    p in t.kids && c in t.kids[p]
  }

  /** path leads from path[0] over parents to the root. */
  ghost predicate Ancestry<T>(t: Tree<T>, older path: seq<T>) {
    && path != [] && path[|path| - 1] == t.root
    && forall i {:trigger path[i]} :: 0 <= i < |path| - 1 ==> ChildOf(t, path[i], path[i + 1])
  }

  /** Some chain of parents leads from c to the root. */
  ghost predicate ReachesRoot<T>(t: Tree<T>, c: T) {
    exists path :: Ancestry(t, path) && path[0] == c
  }

  ghost predicate InOneList<T>(t: Tree<T>, c: T) {
    exists p :: ChildOf(t, c, p)
  }

  ghost predicate ListsOk<T>(t: Tree<T>) {
    && t.root in t.kids
    && (forall p {:trigger t.kids[p]} :: p in t.kids ==> NoDup(t.kids[p]))
    && (forall p, c {:trigger ChildOf(t, c, p)} :: ChildOf(t, c, p) ==> c in t.kids && c != t.root)
    && (forall p, q, c {:trigger ChildOf(t, c, p), ChildOf(t, c, q)} :: ChildOf(t, c, p) && ChildOf(t, c, q) ==> p == q)
  }

  /**
    Sibling lists are free of repetition and pairwise disjoint, every task but the root is in one, and
    every chain of parents ends at the root.
   */
  ghost predicate WellFormed<T>(t: Tree<T>) {
    && ListsOk(t)
    && (forall c {:trigger InOneList(t, c)} :: c in t.kids && c != t.root ==> InOneList(t, c))
    && (forall c {:trigger ReachesRoot(t, c)} :: c in t.kids ==> ReachesRoot(t, c))
  }

  // -- fork --

  function AddLeaf<T>(t: Tree<T>, p: T, c: T): Tree<T>
    requires p in t.kids
  {
    t.(kids := t.kids[p := [c] + t.kids[p]][c := []])
  }

  lemma AddLeafMoves<T>(t: Tree<T>, p: T, c: T, d: T, q: T)
    requires p in t.kids && c !in t.kids
    ensures ChildOf(AddLeaf(t, p, c), d, q) <==> ChildOf(t, d, q) || (d == c && q == p)
  {
  }

  lemma AddLeafLists<T>(t: Tree<T>, p: T, c: T)
    requires ListsOk(t) && p in t.kids && c !in t.kids
    ensures ListsOk(AddLeaf(t, p, c))
  {
    var t' := AddLeaf(t, p, c);
    assert NoDup(t'.kids[p]) by {
      assert !ChildOf(t, c, p);
    }
    forall q | q in t'.kids ensures NoDup(t'.kids[q]) { }
    forall q, d | ChildOf(t', d, q) ensures d in t'.kids && d != t'.root {
      AddLeafMoves(t, p, c, d, q);
    }
    forall q, r, d | ChildOf(t', d, q) && ChildOf(t', d, r) ensures q == r {
      AddLeafMoves(t, p, c, d, q);
      AddLeafMoves(t, p, c, d, r);
    }
  }

  lemma AddLeafReaches<T>(t: Tree<T>, p: T, c: T, d: T)
    requires ListsOk(t) && p in t.kids && c !in t.kids && ReachesRoot(t, if d == c then p else d)
    ensures ReachesRoot(AddLeaf(t, p, c), d)
  {
    var t' := AddLeaf(t, p, c);
    var path :| Ancestry(t, path) && path[0] == if d == c then p else d;
    AncestryKept(t, p, c, path);
    if d == c {
      AddLeafMoves(t, p, c, c, p);
      AncestryGrows(t', c, path);
    }
  }

  lemma AncestryKept<T>(t: Tree<T>, p: T, c: T, path: seq<T>)
    requires p in t.kids && c !in t.kids && Ancestry(t, path)
    ensures Ancestry(AddLeaf(t, p, c), path)
  {
    forall i | 0 <= i < |path| - 1 ensures ChildOf(AddLeaf(t, p, c), path[i], path[i + 1]) {
      AddLeafMoves(t, p, c, path[i], path[i + 1]);
    }
  }

  lemma AddLeafKeeps<T>(t: Tree<T>, p: T, c: T)
    requires WellFormed(t) && p in t.kids && c !in t.kids
    ensures WellFormed(AddLeaf(t, p, c))
  {
    var t' := AddLeaf(t, p, c);
    AddLeafLists(t, p, c);
    forall d | d in t'.kids && d != t'.root ensures InOneList(t', d) {
      if d == c {
        AddLeafMoves(t, p, c, c, p);
      } else {
        assert InOneList(t, d);
        var q :| ChildOf(t, d, q);
        AddLeafMoves(t, p, c, d, q);
      }
    }
    forall d | d in t'.kids ensures ReachesRoot(t', d) {
      assert ReachesRoot(t, if d == c then p else d);
      AddLeafReaches(t, p, c, d);
    }
  }

  // -- exit --

  /** The children of x, in their order, go in front of those of the root. */
  function Adopt<T>(t: Tree<T>, x: T): Tree<T>
    requires x in t.kids && t.root in t.kids && x != t.root
  {
    t.(kids := t.kids[t.root := t.kids[x] + t.kids[t.root]][x := []])
  }

  lemma AdoptMoves<T>(t: Tree<T>, x: T, c: T, p: T)
    requires x in t.kids && t.root in t.kids && x != t.root
    ensures ChildOf(Adopt(t, x), c, p) <==>
      (p == t.root && (ChildOf(t, c, x) || ChildOf(t, c, t.root))) || (p != t.root && p != x && ChildOf(t, c, p))
  {
  }

  lemma AdoptLists<T>(t: Tree<T>, x: T)
    requires ListsOk(t) && x in t.kids && x != t.root
    ensures ListsOk(Adopt(t, x))
  {
    var t' := Adopt(t, x);
    assert NoDup(t'.kids[t.root]) by {
      forall c | c in t.kids[x] ensures c !in t.kids[t.root] {
        assert ChildOf(t, c, x) && !ChildOf(t, c, t.root);
      }
      NoDupConcat(t.kids[x], t.kids[t.root]);
    }
    forall q | q in t'.kids ensures NoDup(t'.kids[q]) { }
    forall p, c | ChildOf(t', c, p) ensures c in t'.kids && c != t'.root {
      AdoptMoves(t, x, c, p);
    }
    forall p, q, c | ChildOf(t', c, p) && ChildOf(t', c, q) ensures p == q {
      AdoptMoves(t, x, c, p);
      AdoptMoves(t, x, c, q);
    }
  }

  lemma AdoptKeeps<T>(t: Tree<T>, x: T)
    requires WellFormed(t) && x in t.kids && x != t.root
    ensures WellFormed(Adopt(t, x))
  {
    var t' := Adopt(t, x);
    AdoptLists(t, x);
    forall c | c in t'.kids && c != t'.root ensures InOneList(t', c) {
      assert InOneList(t, c);
      var q :| ChildOf(t, c, q);
      AdoptMoves(t, x, c, if q == x then t.root else q);
    }
    forall c | c in t'.kids ensures ReachesRoot(t', c) {
      assert ReachesRoot(t, c);
      var path :| Ancestry(t, path) && path[0] == c;
      AdoptedAncestry(t, x, path);
    }
  }

  lemma NoDupConcat<T>(a: seq<T>, b: seq<T>)
    requires NoDup(a) && NoDup(b) && forall x :: x in a ==> x !in b
    ensures NoDup(a + b)
  {
    forall i, j | 0 <= i < j < |a + b|
      ensures (a + b)[i] != (a + b)[j]
    {
      if i < |a| <= j {
        assert a[i] in a && b[j - |a|] in b;
      }
    }
  }

  /** A chain of parents that passes x is cut short: the child of x below it now hangs at the root. */
  lemma {:induction false} AdoptedAncestry<T>(t: Tree<T>, x: T, path: seq<T>)
    requires ListsOk(t) && x in t.kids && x != t.root && Ancestry(t, path)
    ensures ReachesRoot(Adopt(t, x), path[0])
  {
    var t' := Adopt(t, x);
    if |path| == 1 {
      assert Ancestry(t', path);
    } else {
      var c, p := path[0], path[1];
      assert ChildOf(t, c, p);
      AdoptMoves(t, x, c, if p == x then t.root else p);
      if p == x {
        assert Ancestry(t', [t.root]);
        AncestryGrows(t', c, [t.root]);
      } else {
        AncestryShrinks(t, path);
        AdoptedAncestry(t, x, path[1..]);
        var rest :| Ancestry(t', rest) && rest[0] == p;
        AncestryGrows(t', c, rest);
      }
    }
  }

  lemma AncestryGrows<T>(t: Tree<T>, c: T, path: seq<T>)
    requires Ancestry(t, path) && ChildOf(t, c, path[0])
    ensures ReachesRoot(t, c)
  {
    var path' := [c] + path;
    forall i | 0 <= i < |path'| - 1 ensures ChildOf(t, path'[i], path'[i + 1]) {
      assert i > 0 ==> ChildOf(t, path[i - 1], path[i]);
    }
    assert Ancestry(t, path') && path'[0] == c;
  }

  lemma AncestryShrinks<T>(t: Tree<T>, path: seq<T>)
    requires Ancestry(t, path) && |path| > 1
    ensures Ancestry(t, path[1..])
  {
    forall i | 0 <= i < |path| - 2 ensures ChildOf(t, path[1..][i], path[1..][i + 1]) {
      assert ChildOf(t, path[i + 1], path[i + 2]);
    }
  }

  // -- wait --

  /** The i-th child of p is reaped. */
  function Reap<T>(t: Tree<T>, p: T, i: nat): Tree<T>
    requires p in t.kids && i < |t.kids[p]|
  {
    t.(kids := t.kids[p := Without(t.kids[p], i)] - {t.kids[p][i]})
  }

  /** Reaping keeps the tree together just when the reaped task had no children left. */
  lemma ReapKeepsIff<T>(t: Tree<T>, p: T, i: nat)
    requires WellFormed(t) && p in t.kids && i < |t.kids[p]|
    ensures t.kids[p][i] in t.kids && (WellFormed(Reap(t, p, i)) <==> t.kids[t.kids[p][i]] == [])
  {
    var c := t.kids[p][i];
    assert ChildOf(t, c, p);
    if t.kids[c] == [] {
      ReapLeafKeeps(t, p, i);
    } else {
      var t' := Reap(t, p, i);
      var d := t.kids[c][0];
      assert ChildOf(t, d, c);
      if WellFormed(t') {
        NotOwnChild(t, c);
        assert d in t'.kids && d != t'.root;
        assert InOneList(t', d);
        var q :| ChildOf(t', d, q);
        assert ChildOf(t, d, q);
      }
    }
  }

  /** No task is its own child. */
  lemma NotOwnChild<T>(t: Tree<T>, c: T)
    requires WellFormed(t) && c in t.kids
    ensures !ChildOf(t, c, c)
  {
    if ChildOf(t, c, c) {
      assert ReachesRoot(t, c);
      var path :| Ancestry(t, path) && path[0] == c;
      var i := 0;
      while i < |path| - 1
        invariant 0 <= i < |path| && path[i] == c
      {
        assert ChildOf(t, path[i], path[i + 1]);
        i := i + 1;
      }
    }
  }

  lemma ReapLeafKeeps<T>(t: Tree<T>, p: T, i: nat)
    requires WellFormed(t) && p in t.kids && i < |t.kids[p]| && t.kids[p][i] in t.kids && t.kids[t.kids[p][i]] == []
    ensures WellFormed(Reap(t, p, i))
  {
    var c := t.kids[p][i];
    var t' := Reap(t, p, i);
    assert ChildOf(t, c, p);
    NotOwnChild(t, c);
    forall d, q ensures ChildOf(t', d, q) <==> ChildOf(t, d, q) && d != c {
      if q == p {
        WithoutMembers(t.kids[p], i, d);
      }
      if ChildOf(t, d, q) && d != c {
        assert q != c;
      }
    }
    assert NoDup(t'.kids[p]);
    forall q | q in t'.kids ensures NoDup(t'.kids[q]) { }
    forall d | d in t'.kids && d != t'.root ensures InOneList(t', d) {
      assert InOneList(t, d);
      var q :| ChildOf(t, d, q);
      assert ChildOf(t', d, q);
    }
    forall d | d in t'.kids ensures ReachesRoot(t', d) {
      assert ReachesRoot(t, d);
      var path :| Ancestry(t, path) && path[0] == d;
      forall j | 0 <= j < |path| - 1 ensures ChildOf(t', path[j], path[j + 1]) {
        assert ChildOf(t, path[j], path[j + 1]);
        if j > 0 {
          assert ChildOf(t, path[j - 1], path[j]);
        }
      }
      assert Ancestry(t', path);
    }
  }

  // -- whole runs --

  /** Every task forked so far, those that have terminated, and those that wait has returned, in order. */
  datatype Family<T> = Family(tree: Tree<T>, forked: set<T>, dead: set<T>, reaped: seq<T>)

  datatype Step<T> = Fork(parent: T, child: T) | Exit(task: T) | Die(task: T) | Wait(parent: T, index: nat)

  /** What the kernel lets happen: a new child is a new task, init does not exit, and wait returns a dead child. */
  predicate Enabled<T(==)>(f: Family<T>, step: Step<T>) {
    match step
    case Fork(p, c) => p in f.tree.kids && c !in f.forked && c != f.tree.root
    case Exit(x) => x in f.tree.kids && f.tree.root in f.tree.kids && x != f.tree.root
    case Die(x) => x in f.tree.kids
    case Wait(p, i) => p in f.tree.kids && i < |f.tree.kids[p]| && f.tree.kids[p][i] in f.dead
  }

  function Do<T>(f: Family<T>, step: Step<T>): Family<T>
    requires Enabled(f, step)
  {
    match step
    case Fork(p, c) => f.(tree := AddLeaf(f.tree, p, c), forked := f.forked + {c})
    case Exit(x) => f.(tree := Adopt(f.tree, x), dead := f.dead + {x})
    case Die(x) => f.(dead := f.dead + {x})
    case Wait(p, i) => f.(tree := Reap(f.tree, p, i), reaped := f.reaped + [f.tree.kids[p][i]])
  }

  /** The step does not reap a task that still has children. */
  predicate Tidy<T(==)>(f: Family<T>, step: Step<T>)
    requires Enabled(f, step)
  {
    step.Wait? ==> (f.tree.kids[step.parent][step.index] in f.tree.kids
      && f.tree.kids[f.tree.kids[step.parent][step.index]] == [])
  }

  /** Dead tasks do not fork, and only childless tasks are killed by a signal. */
  predicate Behaved<T(==)>(f: Family<T>, step: Step<T>) {
    match step
    case Fork(p, c) => p !in f.dead
    case Exit(x) => true
    case Die(x) => x in f.tree.kids && f.tree.kids[x] == []
    case Wait(p, i) => true
  }

  /** c is in the tree or has been reaped, and not both. */
  ghost predicate Placed<T>(f: Family<T>, c: T) {
    c != f.tree.root && (c in f.tree.kids <==> c !in f.reaped)
  }

  ghost predicate Known<T>(f: Family<T>, c: T) {
    c in f.forked
  }

  /** The tasks forked so far are the tasks of the tree and the reaped ones, which are dead; none was reaped twice. */
  ghost predicate EachAccountedFor<T>(f: Family<T>) {
    && WellFormed(f.tree)
    && NoDup(f.reaped)
    && (forall c {:trigger Placed(f, c)} :: c in f.forked ==> Placed(f, c))
    && (forall c {:trigger Known(f, c)} :: c in f.tree.kids && c != f.tree.root ==> Known(f, c))
    && (forall c {:trigger Known(f, c)} :: c in f.reaped ==> Known(f, c) && c in f.dead)
  }

  ghost predicate DeadAreChildless<T>(f: Family<T>) {
    forall c :: c in f.dead && c in f.tree.kids ==> f.tree.kids[c] == []
  }

  lemma TidyStepKeeps<T>(f: Family<T>, step: Step<T>)
    requires EachAccountedFor(f) && Enabled(f, step) && Tidy(f, step)
    ensures EachAccountedFor(Do(f, step))
  {
    var f' := Do(f, step);
    match step {
      case Fork(p, c) =>
        assert !Known(f, c);
        AddLeafKeeps(f.tree, p, c);
      case Exit(x) =>
        AdoptKeeps(f.tree, x);
      case Die(x) =>
      case Wait(p, i) =>
        ReapLeafKeeps(f.tree, p, i);
        assert ChildOf(f.tree, f.tree.kids[p][i], p);
        assert Known(f, f.tree.kids[p][i]);
        assert Placed(f, f.tree.kids[p][i]);
    }
    forall c | c in f'.forked ensures Placed(f', c) {
      if c in f.forked { assert Placed(f, c); }
    }
    forall c | c in f'.tree.kids && c != f'.tree.root ensures Known(f', c) {
      if c in f.tree.kids { assert Known(f, c); }
    }
    forall c | c in f'.reaped ensures Known(f', c) && c in f'.dead {
      if c in f.reaped { assert Known(f, c); }
    }
  }

  /** Unless the root is alone, it has children. */
  lemma RootHasChildren<T>(t: Tree<T>, x: T)
    requires WellFormed(t) && x in t.kids && x != t.root
    ensures t.kids[t.root] != []
  {
    assert ReachesRoot(t, x);
    var path :| Ancestry(t, path) && path[0] == x;
    assert ChildOf(t, path[|path| - 2], path[|path| - 1]);
  }

  lemma BehavedStepIsTidy<T>(f: Family<T>, step: Step<T>)
    requires EachAccountedFor(f) && DeadAreChildless(f) && Enabled(f, step) && Behaved(f, step)
    ensures Tidy(f, step) && DeadAreChildless(Do(f, step))
  {
    match step {
      case Wait(p, i) => assert ChildOf(f.tree, f.tree.kids[p][i], p);
      case Fork(p, c) => assert !Known(f, c);
      case Exit(x) =>
        RootHasChildren(f.tree, x);
      case Die(x) =>
    }
  }

  /**
    The fate of a child. It is in exactly one list of children, that of a task which is not dead, and has not
    been reaped; or it was dead when wait returned it, exactly once, and is in no list.
   */
  ghost predicate HasItsFate<T>(f: Family<T>, c: T) {
    if c in f.reaped then
      c in f.dead && !InOneList(f.tree, c) && exists i :: 0 <= i < |f.reaped| && OnlyAt(f.reaped, i, c)
    else
      exists p :: ChildOf(f.tree, c, p) && p !in f.dead && forall q :: ChildOf(f.tree, c, q) ==> q == p
  }

  ghost predicate AllHaveFates<T>(f: Family<T>) {
    forall c {:trigger HasItsFate(f, c)} :: c in f.forked ==> HasItsFate(f, c)
  }

  predicate OnlyAt<T(==)>(s: seq<T>, i: nat, x: T) {
    i < |s| && s[i] == x && forall j :: 0 <= j < |s| && s[j] == x ==> j == i
  }

  lemma OrderGivesFates<T>(f: Family<T>)
    requires EachAccountedFor(f) && DeadAreChildless(f)
    ensures AllHaveFates(f)
  {
    forall c | c in f.forked ensures HasItsFate(f, c) {
      assert Placed(f, c) && Known(f, c);
      if c in f.reaped {
        var i :| 0 <= i < |f.reaped| && f.reaped[i] == c;
        assert OnlyAt(f.reaped, i, c);
      } else {
        assert InOneList(f.tree, c);
        var p :| ChildOf(f.tree, c, p);
        assert p !in f.dead;
      }
    }
  }

  /** A step that does not behave leaves a child in the list of a dead task, and in no other. */
  lemma MisbehavedStepStrandsChild<T>(f: Family<T>, step: Step<T>) returns (c: T)
    requires EachAccountedFor(f) && DeadAreChildless(f) && Enabled(f, step) && !Behaved(f, step)
    ensures c in Do(f, step).forked && !HasItsFate(Do(f, step), c)
    ensures c !in Do(f, step).reaped && forall p :: ChildOf(Do(f, step).tree, c, p) ==> p in Do(f, step).dead
  {
    var f' := Do(f, step);
    var p := if step.Fork? then step.parent else step.task;
    c := if step.Fork? then step.child else f.tree.kids[step.task][0];
    assert step.Fork? ==> !Known(f, c);
    TidyStepKeeps(f, step);
    assert ChildOf(f'.tree, c, p) && p in f'.dead;
    assert Known(f', c) && Placed(f', c);
  }

  /**
    From a state in which dead tasks have no children, a step leads to such a state again, and with every
    child accounted for, if and only if it behaves.
   */
  lemma BehavedStepIff<T>(f: Family<T>, step: Step<T>)
    requires EachAccountedFor(f) && DeadAreChildless(f) && Enabled(f, step)
    ensures Behaved(f, step) <==> EachAccountedFor(Do(f, step)) && DeadAreChildless(Do(f, step))
    ensures Behaved(f, step) <==> AllHaveFates(Do(f, step))
  {
    if Behaved(f, step) {
      BehavedStepIsTidy(f, step);
      TidyStepKeeps(f, step);
      OrderGivesFates(Do(f, step));
    } else {
      var c := MisbehavedStepStrandsChild(f, step);
      if EachAccountedFor(Do(f, step)) && DeadAreChildless(Do(f, step)) {
        OrderGivesFates(Do(f, step));
      }
    }
  }

  ghost predicate BehavedRun<T>(f: Family<T>, run: seq<Step<T>>)
    decreases run
  {
    run != [] ==> Enabled(f, run[0]) && Behaved(f, run[0]) && BehavedRun(Do(f, run[0]), run[1..])
  }

  ghost predicate TidyRun<T>(f: Family<T>, run: seq<Step<T>>)
    decreases run
  {
    run != [] ==> Enabled(f, run[0]) && Tidy(f, run[0]) && TidyRun(Do(f, run[0]), run[1..])
  }

  ghost predicate PossibleRun<T>(f: Family<T>, run: seq<Step<T>>)
    decreases run
  {
    run != [] ==> Enabled(f, run[0]) && PossibleRun(Do(f, run[0]), run[1..])
  }

  function DoAll<T>(f: Family<T>, run: seq<Step<T>>): Family<T>
    requires PossibleRun(f, run)
    decreases run
  {
    if run == [] then f else DoAll(Do(f, run[0]), run[1..])
  }

  /** Init alone. */
  function Boot<T>(root: T): Family<T> {
    Family(Tree(root, map[root := []]), {}, {}, [])
  }

  lemma BootIsAccountedFor<T>(root: T)
    ensures EachAccountedFor(Boot(root)) && DeadAreChildless(Boot(root))
  {
    var t := Boot(root).tree;
    assert Ancestry(t, [root]);
    assert ReachesRoot(t, root);
  }

  /** Over a whole run that never reaps a task with children, every task stays accounted for. */
  lemma {:induction false} TidyRunKeeps<T>(f: Family<T>, run: seq<Step<T>>)
    requires EachAccountedFor(f) && TidyRun(f, run)
    ensures PossibleRun(f, run) && EachAccountedFor(DoAll(f, run))
    decreases run
  {
    if run != [] {
      TidyStepKeeps(f, run[0]);
      TidyRunKeeps(Do(f, run[0]), run[1..]);
    }
  }

  /** If dead tasks do not fork and only childless tasks are killed by signals, no run reaps a task with children. */
  lemma {:induction false} BehavedRunIsTidy<T>(f: Family<T>, run: seq<Step<T>>)
    requires EachAccountedFor(f) && DeadAreChildless(f) && BehavedRun(f, run)
    ensures TidyRun(f, run)
    decreases run
  {
    if run != [] {
      BehavedStepIsTidy(f, run[0]);
      TidyStepKeeps(f, run[0]);
      BehavedRunIsTidy(Do(f, run[0]), run[1..]);
    }
  }

  /** A run goes wrong at the very step that reaps a task with children: its children are then in no list at all. */
  lemma UntidyStepLosesChildren<T>(f: Family<T>, step: Step<T>)
    requires EachAccountedFor(f) && Enabled(f, step)
    ensures EachAccountedFor(Do(f, step)) <==> Tidy(f, step)
    ensures !Tidy(f, step) ==> exists c :: c in Do(f, step).tree.kids && c != f.tree.root && !InOneList(Do(f, step).tree, c)
  {
    if Tidy(f, step) {
      TidyStepKeeps(f, step);
    } else {
      var t, x := f.tree, f.tree.kids[step.parent][step.index];
      assert ChildOf(t, x, step.parent);
      ReapKeepsIff(t, step.parent, step.index);
      var t' := Reap(t, step.parent, step.index);
      var c := t.kids[x][0];
      assert ChildOf(t, c, x);
      NotOwnChild(t, x);
      if InOneList(t', c) {
        var q :| ChildOf(t', c, q);
        if q == step.parent {
          WithoutMembers(t.kids[q], step.index, c);
        }
        assert ChildOf(t, c, q);
      }
      assert c in t'.kids && c != t.root && !InOneList(t', c);
    }
  }

  /** At each moment of the run every forked task has its fate. */
  ghost predicate FatesThroughout<T>(f: Family<T>, run: seq<Step<T>>)
    requires PossibleRun(f, run)
    decreases run
  {
    AllHaveFates(f) && (run != [] ==> FatesThroughout(Do(f, run[0]), run[1..]))
  }

  lemma {:induction false} FatesThroughoutIff<T>(f: Family<T>, run: seq<Step<T>>)
    requires EachAccountedFor(f) && DeadAreChildless(f) && PossibleRun(f, run)
    ensures FatesThroughout(f, run) <==> BehavedRun(f, run)
    decreases run
  {
    OrderGivesFates(f);
    if run != [] {
      BehavedStepIff(f, run[0]);
      if Behaved(f, run[0]) {
        FatesThroughoutIff(Do(f, run[0]), run[1..]);
      } else {
        assert !AllHaveFates(Do(f, run[0]));
      }
    }
  }

  /**
    No child is lost or reaped twice, at any moment of a run from boot, if and only if no dead task forks and
    only childless tasks are killed by signals.
   */
  lemma NoChildLostOrReapedTwice<T>(root: T, run: seq<Step<T>>)
    requires PossibleRun(Boot(root), run)
    ensures FatesThroughout(Boot(root), run) <==> BehavedRun(Boot(root), run)
  {
    BootIsAccountedFor(root);
    FatesThroughoutIff(Boot(root), run);
  }

  /** At the end of any run that behaves. */
  lemma {:induction false} BehavedRunGivesFates<T>(f: Family<T>, run: seq<Step<T>>)
    requires EachAccountedFor(f) && DeadAreChildless(f) && BehavedRun(f, run)
    ensures PossibleRun(f, run) && AllHaveFates(DoAll(f, run))
    decreases run
  {
    OrderGivesFates(f);
    if run != [] {
      BehavedStepIff(f, run[0]);
      BehavedRunGivesFates(Do(f, run[0]), run[1..]);
    }
  }

  // -- runs that do not behave --

  lemma TwoSteps<T>(f: Family<T>, a: Step<T>, b: Step<T>, rest: seq<Step<T>>)
    requires Enabled(f, a) && Enabled(Do(f, a), b)
    ensures var f2 := Do(Do(f, a), b);
      && (PossibleRun(f2, rest) <==> PossibleRun(f, [a, b] + rest))
      && (PossibleRun(f2, rest) ==> DoAll(f, [a, b] + rest) == DoAll(f2, rest))
      && (Tidy(f, a) && Tidy(Do(f, a), b) && TidyRun(f2, rest) ==> TidyRun(f, [a, b] + rest))
  {
    assert ([a, b] + rest)[1..] == [b] + rest && ([b] + rest)[1..] == rest;
  }

  /** Init forks a, a forks b, and a signal kills a: nothing is reaped, and b is in the list of a dead task. */
  lemma KilledParentKeepsChild<T>(root: T, a: T, b: T)
    requires root != a && root != b && a != b
    ensures var run := [Fork(root, a), Fork(a, b), Die(a)];
      && TidyRun(Boot(root), run) && PossibleRun(Boot(root), run)
      && var f := DoAll(Boot(root), run);
         ChildOf(f.tree, b, a) && a in f.dead && b !in f.dead && b in f.forked && !HasItsFate(f, b)
  {
    var f := Boot(root);
    var rest := [Die(a)];
    TwoSteps(f, Fork(root, a), Fork(a, b), rest);
    assert rest[1..] == [] && TidyRun(Do(Do(f, Fork(root, a)), Fork(a, b)), rest);
    assert [Fork(root, a), Fork(a, b)] + rest == [Fork(root, a), Fork(a, b), Die(a)];
  }

  /** When init then waits for a, the live task b is in no list at all. */
  lemma ReapedParentDropsChild<T>(root: T, a: T, b: T)
    requires root != a && root != b && a != b
    ensures var run := [Fork(root, a), Fork(a, b), Die(a), Wait(root, 0)];
      && PossibleRun(Boot(root), run)
      && var f := DoAll(Boot(root), run);
         b !in f.dead && b in f.tree.kids && b !in f.reaped && !InOneList(f.tree, b)
  {
    var f := Boot(root);
    var rest := [Die(a), Wait(root, 0)];
    TwoSteps(f, Fork(root, a), Fork(a, b), rest);
    TwoSteps(Do(Do(f, Fork(root, a)), Fork(a, b)), Die(a), Wait(root, 0), []);
    assert [Fork(root, a), Fork(a, b)] + rest == [Fork(root, a), Fork(a, b), Die(a), Wait(root, 0)];
    assert rest + [] == rest;
  }

  /** A dead task that forks: its child is in the list of a dead task from the start. */
  lemma DeadParentForks<T>(root: T, a: T, b: T)
    requires root != a && root != b && a != b
    ensures var run := [Fork(root, a), Exit(a), Fork(a, b)];
      && PossibleRun(Boot(root), run)
      && var f := DoAll(Boot(root), run);
         ChildOf(f.tree, b, a) && a in f.dead && b !in f.dead && b in f.forked && !HasItsFate(f, b)
  {
    var f := Boot(root);
    var rest := [Fork(a, b)];
    TwoSteps(f, Fork(root, a), Exit(a), rest);
    assert rest[1..] == [];
    assert [Fork(root, a), Exit(a)] + rest == [Fork(root, a), Exit(a), Fork(a, b)];
  }
}
