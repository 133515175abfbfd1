/**
  NULL-terminated singly linked lists, seen as a next-map: the shape shared by the sibling lists and
  the buckets of the task table.
 */
module Links {

  /** Following next from head visits exactly the nodes of s, in order, and then reaches nil. */
  ghost predicate Path<T>(next: map<T, T>, nil: T, head: T, s: seq<T>) {
    if s == [] then head == nil
    else head == s[0] && head != nil && head in next && Path(next, nil, next[head], s[1..])
  }

  ghost predicate NoDup<T>(s: seq<T>) {
    forall i, j :: 0 <= i < j < |s| ==> s[i] != s[j]
  }

  lemma {:induction false} PathAt<T>(next: map<T, T>, nil: T, head: T, s: seq<T>, i: nat)
    requires Path(next, nil, head, s) && i < |s|
    ensures s[i] != nil && s[i] in next
    ensures next[s[i]] == if i + 1 < |s| then s[i + 1] else nil
    ensures Path(next, nil, s[i], s[i..]) && Path(next, nil, next[s[i]], s[i + 1..])
  {
    if i == 0 {
      assert s[0..] == s;
    } else {
      PathAt(next, nil, next[head], s[1..], i - 1);
      assert s[1..][i - 1..] == s[i..] && s[1..][i..] == s[i + 1..];
    }
  }

  lemma {:induction false} PathUnique<T>(next: map<T, T>, nil: T, head: T, s: seq<T>, t: seq<T>)
    requires Path(next, nil, head, s) && Path(next, nil, head, t)
    ensures s == t
  {
    if s != [] && t != [] {
      PathUnique(next, nil, next[head], s[1..], t[1..]);
    }
  }

  /** A list that ends never visits a node twice. */
  lemma PathIsAcyclic<T>(next: map<T, T>, nil: T, head: T, s: seq<T>)
    requires Path(next, nil, head, s)
    ensures NoDup(s)
  {
    forall i, j | 0 <= i < j < |s|
      ensures s[i] != s[j]
    {
      PathAt(next, nil, head, s, i);
      PathAt(next, nil, head, s, j);
      if s[i] == s[j] {
        PathUnique(next, nil, s[i], s[i..], s[j..]);
      }
    }
  }

  /** Only the links of its own nodes matter to a list. */
  lemma {:induction false} PathFrame<T>(next: map<T, T>, next': map<T, T>, nil: T, head: T, s: seq<T>)
    requires Path(next, nil, head, s)
    requires forall x :: x in s && x in next ==> x in next' && next'[x] == next[x]
    ensures Path(next', nil, head, s)
  {
    if s != [] {
      assert forall x :: x in s[1..] ==> x in s;
      PathFrame(next, next', nil, next[head], s[1..]);
    }
  }

  lemma PathPrepend<T>(next: map<T, T>, nil: T, head: T, s: seq<T>, x: T)
    requires Path(next, nil, head, s) && x != nil && x !in s
    ensures Path(next[x := head], nil, x, [x] + s)
  {
    PathFrame(next, next[x := head], nil, head, s);
    assert ([x] + s)[1..] == s;
  }

  function Without<T>(s: seq<T>, i: nat): (r: seq<T>)
    requires i < |s|
    ensures |r| == |s| - 1
  {
    s[..i] + s[i + 1..]
  }

  lemma WithoutMembers<T>(s: seq<T>, i: nat, x: T)
    requires NoDup(s) && i < |s|
    ensures NoDup(Without(s, i))
    ensures x in Without(s, i) <==> x in s && x != s[i]
  {
    if x in s && x != s[i] {
      var j :| 0 <= j < |s| && s[j] == x;
      assert Without(s, i)[if j < i then j else j - 1] == x;
    }
    if x in Without(s, i) {
      var j :| 0 <= j < |s| - 1 && Without(s, i)[j] == x;
      assert s[if j < i then j else j + 1] == x;
    }
  }

  /** Unlinking the i-th node: the link that led to it now leads past it. */
  lemma {:induction false} PathRemove<T>(next: map<T, T>, nil: T, head: T, s: seq<T>, i: nat)
    requires Path(next, nil, head, s) && NoDup(s) && i < |s|
    ensures s[i] in next && (i > 0 ==> s[i - 1] in next)
    ensures if i == 0 then Path(next, nil, next[s[0]], Without(s, 0))
            else Path(next[s[i - 1] := next[s[i]]], nil, head, Without(s, i))
  {
    PathAt(next, nil, head, s, i);
    if i == 0 {
      assert Without(s, 0) == s[1..];
    } else {
      PathAt(next, nil, head, s, i - 1);
      var next' := next[s[i - 1] := next[s[i]]];
      var r := Without(s, i);
      if i == 1 {
        assert forall x :: x in s[2..] ==> x != s[0];
        PathFrame(next, next', nil, next[s[1]], s[2..]);
        assert r[1..] == s[2..];
      } else {
        PathRemove(next, nil, next[head], s[1..], i - 1);
        assert r[1..] == Without(s[1..], i - 1);
        assert s[1..][i - 2] == s[i - 1];
      }
    }
  }

  /** Hanging the list at head2 onto the last node. */
  lemma {:induction false} PathSplice<T>(next: map<T, T>, nil: T, head: T, s: seq<T>, head2: T, s2: seq<T>)
    requires Path(next, nil, head, s) && Path(next, nil, head2, s2) && s != []
    requires NoDup(s) && forall x :: x in s ==> x !in s2
    ensures Path(next[s[|s| - 1] := head2], nil, head, s + s2)
  {
    var last := s[|s| - 1];
    var next' := next[last := head2];
    assert (s + s2)[1..] == s[1..] + s2;
    if |s| == 1 {
      PathFrame(next, next', nil, head2, s2);
    } else {
      assert forall x :: x in s[1..] ==> x in s;
      PathSplice(next, nil, next[head], s[1..], head2, s2);
      assert s[0] != last;
    }
  }
}
