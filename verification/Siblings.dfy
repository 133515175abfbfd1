/**
  The process tree in memory: how the children, next_sibling, parent and ppid fields of the tasks
  represent a tree, and how the pointer moves of fork.c, exit.c and wait.c keep it represented.
 */
module Siblings {
  import opened Links
  import opened Tasks
  import opened ProcessTree

  /** The fields of every task in the tree. */
  datatype Fields = Fields(next: map<Task?, Task?>, head: map<Task, Task?>, parent: map<Task, Task?>, ppid: map<Task, int>)

  /** p chains exactly its children, in order. */
  ghost predicate ListOk(f: Fields, t: Tree<Task>, p: Task) {
    p in t.kids && p in f.head && Path(f.next, null, f.head[p], t.kids[p])
  }

  /** c points at its parent p; children that init left behind have parent pid 1. */
  ghost predicate KidOk(f: Fields, c: Task, p: Task, initGone: bool, init: Task) {
    && c in f.parent && f.parent[c] == p
    && c in f.ppid && (f.ppid[c] == p.pid || (p == init && initGone && f.ppid[c] == 1))
  }

  ghost predicate Represents(f: Fields, t: Tree<Task>, initGone: bool) {
    && f.next.Keys == f.head.Keys == f.parent.Keys == f.ppid.Keys == t.kids.Keys
    && (forall p: Task {:trigger ListOk(f, t, p)} :: p in t.kids ==> ListOk(f, t, p))
    && (forall c: Task, p: Task {:trigger KidOk(f, c, p, initGone, t.root)} :: ChildOf(t, c, p) ==> KidOk(f, c, p, initGone, t.root))
  }

  // -- fork --

  function Linked(f: Fields, p: Task, c: Task): Fields
    requires p in f.head
  {
    Fields(f.next[c := f.head[p]], f.head[c := null][p := c], f.parent[c := p], f.ppid[c := p.pid])
  }

  lemma LinkRepresents(f: Fields, t: Tree<Task>, initGone: bool, p: Task, c: Task)
    requires Represents(f, t, initGone) && WellFormed(t) && p in t.kids && c !in t.kids
    ensures Represents(Linked(f, p, c), AddLeaf(t, p, c), initGone)
  {
    var f', t' := Linked(f, p, c), AddLeaf(t, p, c);
    forall q: Task | q in t'.kids ensures ListOk(f', t', q) {
      if q == c {
        assert Path(f'.next, null, null, []);
      } else {
        assert ListOk(f, t, q);
        assert !ChildOf(t, c, q);
        PathFrame(f.next, f'.next, null, f.head[q], t.kids[q]);
        if q == p {
          PathPrepend(f.next, null, f.head[p], t.kids[p], c);
        }
      }
    }
    forall d: Task, q: Task | ChildOf(t', d, q) ensures KidOk(f', d, q, initGone, t'.root) {
      if !(d == c && q == p) {
        assert ChildOf(t, d, q);
        assert KidOk(f, d, q, initGone, t.root);
      }
    }
  }

  // -- exit --

  /** The tasks of s get p as their parent. */
  function Rehung(f: Fields, s: seq<Task>, p: Task): Fields {
    f.(parent := map c | c in f.parent :: if c in s then p else f.parent[c],
       ppid := map c | c in f.ppid :: if c in s then p.pid else f.ppid[c])
  }

  /** The list s of x goes in front of the list of r. */
  function Spliced(f: Fields, s: seq<Task>, x: Task, r: Task): Fields
    requires s != [] && x in f.head && r in f.head
  {
    f.(next := f.next[s[|s| - 1] := f.head[r]], head := f.head[r := f.head[x]][x := null])
  }

  /** The children of x get init as their parent, and their list goes in front of init's. */
  function Adopted(f: Fields, t: Tree<Task>, x: Task): Fields
    requires x in t.kids && x in f.head && t.root in f.head
  {
    var s := t.kids[x];
    if s == [] then f else Spliced(Rehung(f, s, t.root), s, x, t.root)
  }

  lemma AdoptRepresents(f: Fields, t: Tree<Task>, initGone: bool, x: Task)
    requires Represents(f, t, initGone) && WellFormed(t) && x in t.kids && x != t.root
    ensures Represents(Adopted(f, t, x), Adopt(t, x), initGone)
  {
    var f', t' := Adopted(f, t, x), Adopt(t, x);
    if t.kids[x] == [] {
      assert [] + t.kids[t.root] == t.kids[t.root];
      assert t' == t;
    } else {
      AdoptedLists(f, t, initGone, x);
      AdoptedKids(f, t, initGone, x);
      AdoptedKeys(f, t, x);
    }
  }

  lemma AdoptedKeys(f: Fields, t: Tree<Task>, x: Task)
    requires x in t.kids && t.root in t.kids && x != t.root
    requires f.next.Keys == f.head.Keys == f.parent.Keys == f.ppid.Keys == t.kids.Keys
    requires t.kids[x] != [] && t.kids[x][|t.kids[x]| - 1] in f.next
    ensures var f' := Adopted(f, t, x);
      f'.next.Keys == f'.head.Keys == f'.parent.Keys == f'.ppid.Keys == Adopt(t, x).kids.Keys
  {
  }

  lemma AdoptedLists(f: Fields, t: Tree<Task>, initGone: bool, x: Task)
    requires Represents(f, t, initGone) && WellFormed(t) && x in t.kids && x != t.root && x in f.head && t.root in f.head
    requires t.kids[x] != []
    ensures t.kids[x][|t.kids[x]| - 1] in f.next
    ensures forall q: Task {:trigger ListOk(Adopted(f, t, x), Adopt(t, x), q)} ::
      q in Adopt(t, x).kids ==> ListOk(Adopted(f, t, x), Adopt(t, x), q)
  {
    var f', t', s := Adopted(f, t, x), Adopt(t, x), t.kids[x];
    assert ListOk(f, t, x) && ListOk(f, t, t.root);
    PathAt(f.next, null, f.head[x], s, |s| - 1);
    forall q: Task | q in t'.kids ensures ListOk(f', t', q) {
      assert ListOk(f, t, q);
      if q == t.root {
        Apart(t, x, t.root);
        PathSplice(f.next, null, f.head[x], s, f.head[t.root], t.kids[t.root]);
      } else if q == x {
        assert Path(f'.next, null, null, []);
      } else {
        Apart(t, x, q);
        PathFrame(f.next, f'.next, null, f.head[q], t.kids[q]);
      }
    }
  }

  lemma AdoptedKids(f: Fields, t: Tree<Task>, initGone: bool, x: Task)
    requires Represents(f, t, initGone) && WellFormed(t) && x in t.kids && x != t.root && x in f.head && t.root in f.head
    requires t.kids[x] != []
    ensures forall c: Task, q: Task {:trigger KidOk(Adopted(f, t, x), c, q, initGone, t.root)} ::
      ChildOf(Adopt(t, x), c, q) ==> KidOk(Adopted(f, t, x), c, q, initGone, t.root)
  {
    forall c: Task, q: Task | ChildOf(Adopt(t, x), c, q) ensures KidOk(Adopted(f, t, x), c, q, initGone, t.root) {
      AdoptMoves(t, x, c, q);
      if ChildOf(t, c, x) {
        assert KidOk(f, c, x, initGone, t.root);
      } else {
        assert KidOk(f, c, q, initGone, t.root);
      }
    }
  }

  /** When init itself exits, its children are told that their parent is 1. */
  function Disowned(f: Fields, s: seq<Task>): Fields {
    f.(ppid := map c | c in f.ppid :: if c in s then 1 else f.ppid[c])
  }

  lemma DisownRepresents(f: Fields, t: Tree<Task>, initGone: bool)
    requires Represents(f, t, initGone) && WellFormed(t)
    ensures Represents(Disowned(f, t.kids[t.root]), t, true)
    ensures Represents(f, t, true)
  {
    var f' := Disowned(f, t.kids[t.root]);
    forall p: Task | p in t.kids ensures ListOk(f', t, p) {
      assert ListOk(f, t, p);
    }
    forall c: Task, p: Task | ChildOf(t, c, p) ensures KidOk(f', c, p, true, t.root) && KidOk(f, c, p, true, t.root) {
      assert KidOk(f, c, p, initGone, t.root);
      if c in t.kids[t.root] {
        assert ChildOf(t, c, t.root);
      }
    }
  }

  /** Two children lists have no task in common. */
  lemma Apart(t: Tree<Task>, x: Task, q: Task)
    requires WellFormed(t) && x in t.kids && q in t.kids && x != q
    ensures NoDup(t.kids[x]) && forall c :: c in t.kids[x] ==> c !in t.kids[q]
  {
    forall c | c in t.kids[x] ensures c !in t.kids[q] {
      if c in t.kids[q] {
        assert ChildOf(t, c, x) && ChildOf(t, c, q);
      }
    }
  }

  // -- wait --

  /** The i-th child of p is unlinked; it is no longer in the tree. */
  function Unlinked(f: Fields, t: Tree<Task>, p: Task, i: nat): Fields
    requires p in t.kids && i < |t.kids[p]| && t.kids[p][i] in f.next
  {
    var c := t.kids[p][i];
    Fields((if i == 0 then f.next else f.next[t.kids[p][i - 1] := f.next[c]]) - {c},
      (if i == 0 then f.head[p := f.next[c]] else f.head) - {c}, f.parent - {c}, f.ppid - {c})
  }

  lemma UnlinkRepresents(f: Fields, t: Tree<Task>, initGone: bool, p: Task, i: nat)
    requires Represents(f, t, initGone) && WellFormed(t) && p in t.kids && i < |t.kids[p]|
    ensures t.kids[p][i] in f.next
    ensures Represents(Unlinked(f, t, p, i), Reap(t, p, i), initGone)
  {
    var c := t.kids[p][i];
    assert ChildOf(t, c, p);
    NotOwnChild(t, c);
    var f', t' := Unlinked(f, t, p, i), Reap(t, p, i);
    var next1 := if i == 0 then f.next else f.next[t.kids[p][i - 1] := f.next[c]];
    assert ListOk(f, t, p);
    PathRemove(f.next, null, f.head[p], t.kids[p], i);
    if i > 0 {
      assert ChildOf(t, t.kids[p][i - 1], p);
    }
    ReapedKids(t, p, i);
    forall q: Task | q in t'.kids ensures ListOk(f', t', q) {
      assert ListOk(f, t, q);
      if q != p {
        Apart(t, p, q);
        PathFrame(f.next, next1, null, f.head[q], t.kids[q]);
      }
      forall x | x in t'.kids[q] ensures x != c {
        assert ChildOf(t', x, q);
      }
      PathFrame(next1, f'.next, null, f'.head[q], t'.kids[q]);
    }
    forall d: Task, q: Task | ChildOf(t', d, q) ensures KidOk(f', d, q, initGone, t'.root) {
      assert KidOk(f, d, q, initGone, t.root);
    }
  }

  lemma ReapedKids(t: Tree<Task>, p: Task, i: nat)
    requires WellFormed(t) && p in t.kids && i < |t.kids[p]|
    ensures forall d: Task, q: Task {:trigger ChildOf(Reap(t, p, i), d, q)} ::
      ChildOf(Reap(t, p, i), d, q) ==> ChildOf(t, d, q) && d != t.kids[p][i] && q != t.kids[p][i]
  {
    assert ChildOf(t, t.kids[p][i], p);
    forall d: Task, q: Task | ChildOf(Reap(t, p, i), d, q)
      ensures ChildOf(t, d, q) && d != t.kids[p][i] && q != t.kids[p][i]
    {
      if q == p {
        WithoutMembers(t.kids[p], i, d);
      } else {
        assert ChildOf(t, d, q);
      }
    }
  }
}
