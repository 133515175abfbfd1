/** IXLandSystem/fs/path.c, __ixland_path_normalize as it works on its buffer. */
module DotsInPlace {
  import opened PathNames
  import opened Collapses
  import opened Resolution

  /** From src on the buffer still holds the pathname s, and its terminating zero. */
  ghost predicate Unread(a: seq<char>, s: string, src: int) {
    && 0 <= src <= |s| < |a| && '\0' !in s
    && a[src..|s|] == s[src..] && a[|s|] == '\0'
  }

  lemma UnreadAt(a: seq<char>, s: string, src: int, i: int)
    requires Unread(a, s, src) && src <= i <= |s|
    ensures a[i] == (if i < |s| then s[i] else '\0') && (a[i] == '\0' <==> i == |s|)
  {
    if i < |s| {
      assert a[src..|s|][i - src] == s[src..][i - src];
      assert s[i] in s;
    }
  }

  method SkipSlashes(path: array<char>, start: nat, ghost s: string) returns (src: nat)
    requires Unread(path[..], s, start)
    ensures start <= src <= |s| && s[src..] == Skip(s[start..])
  {
    src := start;
    UnreadAt(path[..], s, start, src);
    while path[src] == '/'
      invariant start <= src <= |s| && Skip(s[src..]) == Skip(s[start..])
      invariant path[src] == if src < |s| then s[src] else '\0'
      decreases |s| - src
    {
      assert s[src..][1..] == s[src + 1..];
      src := src + 1;
      UnreadAt(path[..], s, start, src);
    }
  }

  /** dst goes back to the slash before the last component. */
  method GoBack(path: array<char>, end: nat) returns (dst: nat)
    requires 1 < end <= path.Length
    ensures dst < end && path[..dst] == Back(path[..end])
  {
    dst := end - 1;
    assert path[..end][..dst] == path[..dst];
    while dst > 0 && path[dst] != '/'
      invariant 0 <= dst < end
      invariant Back(path[..end]) == if dst == 0 then path[..1] else Back(path[..dst + 1])
    {
      assert path[..dst + 1][..dst] == path[..dst];
      dst := dst - 1;
    }
    if dst == 0 {
      dst := dst + 1;
    } else {
      assert path[..dst + 1][..dst] == path[..dst];
    }
  }

  /** Behind the slashes: a dot component is passed over, and the last component goes with "..". */
  method AtDots(path: array<char>, src0: nat, dst0: nat, ghost s: string) returns (src: nat, dst: nat)
    requires Unread(path[..], s, src0) && dst0 <= src0
    ensures src0 <= src && dst <= dst0 && Unread(path[..], s, src)
    ensures var r := s[src0..];
      if OneDot(r) then s[src..] == r[1..] && dst == dst0
      else if TwoDots(r) then s[src..] == r[2..] && path[..dst] == if dst0 > 1 then Back(path[..dst0]) else path[..dst0]
      else src == src0 && dst == dst0
    ensures src > src0 <==> OneDot(s[src0..]) || TwoDots(s[src0..])
  {
    src, dst := src0, dst0;
    UnreadAt(path[..], s, src0, src0);
    if path[src] == '.' {
      UnreadAt(path[..], s, src0, src0 + 1);
      if path[src + 1] == '\0' || path[src + 1] == '/' {
        src := src + 1;
        StillUnread(path[..], s, src0, src);
        return;
      }
      UnreadAt(path[..], s, src0, src0 + 2);
      if path[src + 1] == '.' && (path[src + 2] == '\0' || path[src + 2] == '/') {
        src := src + 2;
        StillUnread(path[..], s, src0, src);
        if dst > 1 {
          dst := GoBack(path, dst);
        }
      }
    }
  }

  /** One slash is written, unless there is one already or nothing before it. */
  method PutSlash(path: array<char>, src: nat, dst0: nat, ghost s: string) returns (dst: nat)
    requires Unread(path[..], s, src) && dst0 < src
    modifies path
    ensures dst <= src && Unread(path[..], s, src) && path[src..] == old(path[src..])
    ensures path[..dst] == old(if dst0 > 0 && path[dst0 - 1] != '/' then path[..dst0] + "/" else path[..dst0])
  {
    dst := dst0;
    if dst > 0 && path[dst - 1] != '/' {
      ghost var was := path[..];
      path[dst] := '/';
      dst := dst + 1;
      SameUnread(was, path[..], s, src);
    }
  }

  /** The loop at a slash: the slashes, a dot component if there is one, or else one slash to be written. */
  method AtSlash(path: array<char>, src0: nat, dst0: nat, ghost s: string) returns (src: nat, dst: nat)
    requires Unread(path[..], s, src0) && dst0 <= src0 < |s| && s[src0] == '/'
    modifies path
    ensures src0 < src && dst <= src && Unread(path[..], s, src) && path[src..] == old(path[src..])
    ensures Loop(path[..dst], s[src..]) == old(Loop(path[..dst0], s[src0..]))
  {
    var next := SkipSlashes(path, src0, s);
    StillUnread(path[..], s, src0, next);
    src, dst := AtDots(path, next, dst0, s);
    if src > next {
      return;
    }
    dst := PutSlash(path, src, dst, s);
  }

  lemma StillUnread(a: seq<char>, s: string, src: int, src': int)
    requires Unread(a, s, src) && src <= src' <= |s|
    ensures Unread(a, s, src')
  {
    assert a[src..|s|][src' - src..] == a[src'..|s|] && s[src..][src' - src..] == s[src'..];
  }

  lemma SameUnread(a: seq<char>, b: seq<char>, s: string, src: int)
    requires Unread(a, s, src) && |b| == |a| && b[src..] == a[src..]
    ensures Unread(b, s, src)
  {
    forall i | src <= i < |a| ensures b[i] == a[i] {
      assert b[src..][i - src] == a[src..][i - src];
    }
  }

  /** The loop at any other character, which is copied. */
  method Copy(path: array<char>, src: nat, dst: nat, ghost s: string)
    requires Unread(path[..], s, src) && dst <= src < |s| && s[src] != '/'
    modifies path
    ensures Unread(path[..], s, src + 1) && path[src + 1..] == old(path[src + 1..])
    ensures Loop(path[..dst + 1], s[src + 1..]) == old(Loop(path[..dst], s[src..]))
  {
    ghost var was := path[..];
    UnreadAt(was, s, src, src);
    StillUnread(was, s, src, src + 1);
    path[dst] := path[src];
    assert path[..dst + 1] == was[..dst] + [s[src]];
    assert s[src..][1..] == s[src + 1..];
    SameUnread(was, path[..], s, src + 1);
  }

  /** The main loop: it never writes past what it has read. */
  method Rewrite(path: array<char>, src0: nat, dst0: nat, ghost s: string) returns (dst: nat)
    requires Unread(path[..], s, src0) && dst0 <= src0
    modifies path
    ensures dst <= |s| && path[..dst] == old(Loop(path[..dst0], s[src0..])) && path[|s|..] == old(path[|s|..])
  {
    var src := src0;
    dst := dst0;
    UnreadAt(path[..], s, src, src);
    while path[src] != '\0'
      invariant dst <= src && Unread(path[..], s, src) && path[|s|..] == old(path[|s|..])
      invariant Loop(path[..dst], s[src..]) == old(Loop(path[..dst0], s[src0..]))
      decreases |s| - src
    {
      UnreadAt(path[..], s, src, src);
      ghost var was, from := path[..], src;
      if path[src] == '/' {
        src, dst := AtSlash(path, src, dst, s);
      } else {
        Copy(path, src, dst, s);
        src, dst := src + 1, dst + 1;
      }
      assert was[src..][|s| - src..] == was[|s|..] && path[src..][|s| - src..] == path[|s|..];
    }
    UnreadAt(path[..], s, src, src);
  }

  /** The leading slashes, and "/./" at the start. */
  method Begin(path: array<char>, ghost s: string) returns (src: nat, dst: nat)
    requires Unread(path[..], s, 0) && s != ""
    modifies path
    ensures dst <= src && Unread(path[..], s, src) && path[|s|..] == old(path[|s|..])
    ensures path[..dst] == (if Absolute(s) then "/" else "") && s[src..] == Start(s)
  {
    dst := 0;
    UnreadAt(path[..], s, 0, 0);
    var isAbsolute := path[0] == '/';
    assert s[0..] == s;
    src := SkipSlashes(path, 0, s);
    StillUnread(path[..], s, 0, src);
    if isAbsolute {
      ghost var was := path[..];
      assert src > 0;
      path[dst] := '/';
      dst := dst + 1;
      assert path[..dst] == "/";
      SameUnread(was, path[..], s, src);
      ghost var r := s[src..];
      UnreadAt(path[..], s, src, src);
      if path[src] == '.' {
        UnreadAt(path[..], s, src, src + 1);
        if path[src + 1] == '/' || path[src + 1] == '\0' {
          assert OneDot(r) && r[1..] == s[src + 1..];
          StillUnread(path[..], s, src, src + 1);
          src := SkipSlashes(path, src + 1, s);
          StillUnread(path[..], s, |s| - |r| + 1, src);
        }
      }
    }
  }

  /**
    __ixland_path_normalize: the pathname in the buffer becomes Normal of it, and nothing behind its
    terminating zero is touched.
   */
  method NormalizeDots(path: array?<char>)
    requires path != null ==> '\0' in path[..]
    modifies path
    ensures path != null ==>
      && '\0' in path[..] && Str(path[..]) == old(Normal(Str(path[..])))
      && path[old(Length(path[..])) + 1..] == old(path[Length(path[..]) + 1..])
  {
    if path == null || path[0] == '\0' {
      return;
    }
    ghost var s, was := Str(path[..]), path[..];
    assert Unread(path[..], s, 0);
    var src, dst := Begin(path, s);
    dst := Rewrite(path, src, dst, s);
    ghost var out := path[..dst];
    if dst > 1 && path[dst - 1] == '/' {
      dst := dst - 1;
    }
    ghost var tail := path[..];
    path[dst] := '\0';
    assert tail[|s|..][1..] == was[|s|..][1..];
    assert path[..dst] == Normal(s) && path[|s| + 1..] == tail[|s| + 1..];
    NormalHasNoZero(s);
    StrIs(path[..], Normal(s));
  }
}
