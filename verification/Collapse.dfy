/** IXLandSystem/fs/path.c, ixland_path_normalize: runs of slashes become one slash. */
module Collapses {
  import opened PathNames
  import opened Sequences

  /** One slash for each run of slashes; inSlash says that a slash has just been written. */
  function Squeeze(s: string, inSlash: bool): string {
    if s == "" then ""
    else if s[0] == '/' then (if inSlash then "" else "/") + Squeeze(s[1..], true)
    else [s[0]] + Squeeze(s[1..], false)
  }

  /** A trailing slash goes, unless it is all there is. */
  function Trim(s: string): string {
    if |s| > 1 && s[|s| - 1] == '/' then s[..|s| - 1] else s
  }

  function Collapse(s: string): string {
    Trim(Squeeze(s, false))
  }

  predicate Absolute(s: string) {
    s != "" && s[0] == '/'
  }

  /** Collapsing a pathname amounts to joining its non-empty components again. */
  lemma CollapseIsJoin(s: string)
    ensures Collapse(s) == (if Absolute(s) then "/" else "") + Join(Components(s))
  {
    ComponentsProper(s);
    ComponentsOfJoin(Components(s));
    if Absolute(s) {
      CollapseAbsolute(s, Join(Components(s)));
    } else if s != "" {
      CollapseRelative(s, Join(Components(s)));
    }
  }

  lemma CollapseAbsolute(s: string, j: string)
    requires Absolute(s) && j == Join(Components(s))
    requires if Components(s) == [] then j == "" else j != "" && j[|j| - 1] != '/'
    ensures Collapse(s) == "/" + j
  {
    var tail := if EndsInSlash(s[1..]) && Components(s) != [] then "/" else "";
    SqueezeIsJoin(s[1..]);
    assert Components(s[1..]) == Components(s);
    assert Squeeze(s, false) == "/" + (j + tail);
    TrimJoined(j, tail);
  }

  lemma TrimJoined(j: string, tail: string)
    requires tail == "" || (tail == "/" && j != "")
    requires j != "" ==> j[|j| - 1] != '/'
    ensures Trim("/" + (j + tail)) == "/" + j
  {
    Associates("/", j, tail);
    if tail == "" {
      assert "/" + j + tail == "/" + j;
    }
    TrimIs("/" + j, "/" + j + tail);
  }

  lemma CollapseRelative(s: string, j: string)
    requires s != "" && s[0] != '/' && j == Join(Components(s))
    requires Components(s) != [] ==> j != "" && j[|j| - 1] != '/'
    ensures Collapse(s) == j
  {
    assert Components(s) != [];
    SqueezeIsJoin(s);
    if !EndsInSlash(s) {
      assert j + "" == j;
    }
    TrimIs(j, Squeeze(s, false));
  }

  lemma TrimIs(t: string, s: string)
    requires t != "" && (t == "/" || t[|t| - 1] != '/') && (s == t || (t != "/" && s == t + "/"))
    ensures Trim(s) == t
  {
  }

  predicate EndsInSlash(s: string) {
    s != "" && s[|s| - 1] == '/'
  }

  function JoinedAgain(s: string): string {
    Join(Components(s)) + if EndsInSlash(s) && Components(s) != [] then "/" else ""
  }

  /** After a slash, what is squeezed out is the joined components and perhaps one more slash. */
  lemma {:induction false} SqueezeIsJoin(s: string)
    ensures Squeeze(s, true) == JoinedAgain(s)
    decreases |s|
  {
    if s == "" {
    } else if s[0] == '/' {
      SqueezeIsJoin(s[1..]);
      assert "" + Squeeze(s[1..], true) == Squeeze(s[1..], true);
    } else if Run(s) < |s| {
      SqueezeIsJoin(s[Run(s) + 1..]);
      SqueezeFirst(s);
      SqueezeRun(s, Run(s));
    } else {
      SqueezeLast(s);
      SqueezeRun(s, Run(s));
    }
  }

  /** The first component, a slash, and the rest. */
  lemma SqueezeFirst(s: string)
    requires s != "" && s[0] != '/' && Run(s) < |s|
    requires Squeeze(s[Run(s) + 1..], true) == JoinedAgain(s[Run(s) + 1..])
    ensures s[..Run(s)] + Squeeze(s[Run(s)..], false) == JoinedAgain(s)
  {
    var n := Run(s);
    var c, rest := s[..n], s[n + 1..];
    assert s[n..][1..] == rest;
    assert Squeeze(s[n..], false) == "/" + Squeeze(rest, true);
    assert Components(s) == [c] + Components(rest);
    if Components(rest) == [] {
      SlashesFollow(s, n);
      assert Join([c]) == c && "/" + JoinedAgain(rest) == "/";
    } else {
      JoinCons(c, Components(rest));
      assert EndsInSlash(s) == EndsInSlash(s[n + 1..]);
      Glue(c, Join(Components(rest)), if EndsInSlash(rest) then "/" else "");
    }
  }

  lemma Glue(c: string, j: string, tail: string)
    ensures c + ("/" + (j + tail)) == c + "/" + j + tail
  {
    Associates("/", j, tail);
    Associates(c, "/" + j, tail);
    Associates(c, "/", j);
  }

  lemma SqueezeLast(s: string)
    requires s != "" && Run(s) == |s|
    ensures s[..Run(s)] + Squeeze(s[Run(s)..], false) == JoinedAgain(s)
  {
    assert s[..|s|] == s && s[|s|..] == "";
    assert Components(s) == [s];
  }

  lemma SlashesFollow(s: string, n: nat)
    requires n < |s| && s[n] == '/' && Components(s[n + 1..]) == []
    ensures EndsInSlash(s)
    ensures Join(Components(s[n + 1..])) == ""
  {
    NoComponents(s[n + 1..]);
    if n + 1 < |s| {
      assert s[n + 1..][|s| - n - 2] == s[|s| - 1];
    }
  }

  lemma {:induction false} SqueezeRun(s: string, n: nat)
    requires n <= |s| && forall i :: 0 <= i < n ==> s[i] != '/'
    ensures n > 0 ==> forall b :: Squeeze(s, b) == s[..n] + Squeeze(s[n..], false)
  {
    if n > 1 {
      SqueezeRun(s[1..], n - 1);
      assert s[1..][..n - 1] == s[1..n] && s[1..][n - 1..] == s[n..];
      assert s[..n] == [s[0]] + s[1..n];
    }
  }

  lemma {:induction false} NoComponents(s: string)
    requires Components(s) == []
    ensures forall i :: 0 <= i < |s| ==> s[i] == '/'
  {
    if s != "" {
      assert s[0] == '/';
      NoComponents(s[1..]);
      assert s == [s[0]] + s[1..];
    }
  }

  lemma CollapseIsIdempotent(s: string)
    ensures Collapse(Collapse(s)) == Collapse(s)
  {
    CollapseIsJoin(s);
    ComponentsProper(s);
    ComponentsOfJoin(Components(s));
    assert "" + Join(Components(s)) == Join(Components(s));
    assert Absolute(Collapse(s)) == Absolute(s) && Components(Collapse(s)) == Components(s);
    CollapseIsJoin(Collapse(s));
  }

  // -- the buffer --

  /** strlen: where the terminating zero is. */
  function Length(a: seq<char>): (n: nat)
    requires '\0' in a
    ensures n < |a| && a[n] == '\0' && forall i :: 0 <= i < n ==> a[i] != '\0'
  {
    if a[0] == '\0' then 0 else 1 + Length(a[1..])
  }

  function Str(a: seq<char>): (s: string)
    requires '\0' in a
    ensures '\0' !in s
  {
    a[..Length(a)]
  }

  lemma {:induction false} StrIs(a: seq<char>, s: string)
    requires |s| < |a| && a[..|s|] == s && a[|s|] == '\0' && '\0' !in s
    ensures '\0' in a && Str(a) == s
  {
    assert a[|s|] in a;
    forall i | 0 <= i < |s| ensures a[i] != '\0' {
      assert s[i] in s;
    }
  }

  datatype Errno = EOK | EINVAL | ENAMETOOLONG | ENOENT

  lemma SqueezeStep(s: string, src: nat, inSlash: bool)
    requires src < |s|
    ensures Squeeze(s[src..], inSlash) ==
      (if s[src] != '/' then [s[src]] else if inSlash then "" else "/") + Squeeze(s[src + 1..], s[src] == '/')
  {
    assert s[src..][1..] == s[src + 1..];
  }

  /**
    One pass over the pathname, in place. At every point of the loop the write position is at or before the
    read position, and what is still to be read is untouched.
   */
  method SqueezeInPlace(path: array<char>) returns (dst: nat)
    requires '\0' in path[..]
    modifies path
    ensures var s := old(Str(path[..])); dst <= |s| && path[..dst] == Squeeze(s, false)
    ensures forall i :: dst <= i < path.Length ==> path[i] == old(path[i])
  {
    ghost var was, len, s := path[..], Length(path[..]), Str(path[..]);
    ghost var goal := Squeeze(s, false);
    var src, inSlash := 0, false;
    dst := 0;
    assert s[0..] == s && path[..0] + goal == goal;
    while path[src] != '\0'
      invariant dst <= src <= len && |was| == path.Length
      invariant forall i :: dst <= i < path.Length ==> path[i] == was[i]
      invariant path[..dst] + Squeeze(s[src..], inSlash) == goal
      decreases len - src
    {
      SqueezeStep(s, src, inSlash);
      ghost var todo := Squeeze(s[src + 1..], s[src] == '/');
      if path[src] == '/' {
        if !inSlash {
          Put(path, dst, path[src], todo);
          dst := dst + 1;
          inSlash := true;
        } else {
          assert "" + todo == todo;
        }
      } else {
        Put(path, dst, path[src], todo);
        dst := dst + 1;
        inSlash := false;
      }
      assert path[..dst] + todo == goal;
      src := src + 1;
    }
    assert s[src..] == "" && path[..dst] + "" == path[..dst];
  }

  /** One character more of the output; tail is what will come after it. */
  method Put(path: array<char>, dst: nat, c: char, ghost tail: string)
    requires dst < path.Length
    modifies path
    ensures path[..dst + 1] + tail == old(path[..dst]) + ([c] + tail)
    ensures forall i :: dst < i < path.Length ==> path[i] == old(path[i])
  {
    path[dst] := c;
    assert path[..dst + 1] == old(path[..dst]) + [c];
    Associates(old(path[..dst]), [c], tail);
  }

  /**
    The collapsed pathname replaces the pathname in its own buffer; the buffer beyond it is as it was. A
    pathname that does not fit in pathLen with its terminating zero is left alone.
   */
  method Normalize(path: array?<char>, pathLen: nat) returns (e: Errno)
    requires path != null ==> '\0' in path[..]
    modifies path
    ensures e == if path == null || pathLen == 0 then EINVAL else if old(Length(path[..])) >= pathLen then ENAMETOOLONG else EOK
    ensures path != null && e == EOK ==> var c := old(Collapse(Str(path[..])));
      |c| < path.Length && path[..] == c + ['\0'] + old(path[..])[|c| + 1..]
    ensures path != null && e != EOK ==> path[..] == old(path[..])
  {
    if path == null || pathLen == 0 {
      return EINVAL;
    }
    var len := Length(path[..]);
    if len >= pathLen {
      return ENAMETOOLONG;
    }
    var dst := SqueezeInPlace(path);
    if dst > 1 && path[dst - 1] == '/' {
      dst := dst - 1;
    }
    assert path[..dst] == old(Collapse(Str(path[..])));
    path[dst] := '\0';
    e := EOK;
  }
}
