/**
  IXLandSystem/fs/path.c, __ixland_path_normalize: dot components are resolved in place. POSIX.1-2017 XBD,
  section 4.13, speaks of the same components.
 */
module Resolution {
  import opened PathNames
  import opened Collapses

  predicate Dot(c: string) { c == "." || c == ".." }

  // -- what a sequence of components means --

  /** A stack of directories: "." stays, ".." goes up, and going up from the root stays there. */
  function Resolve(stack: seq<string>, cs: seq<string>): seq<string>
    decreases |cs|
  {
    if cs == [] then stack
    else if cs[0] == "." then Resolve(stack, cs[1..])
    else if cs[0] == ".." then Resolve(if stack == [] then [] else stack[..|stack| - 1], cs[1..])
    else Resolve(stack + [cs[0]], cs[1..])
  }

  /**
    What the code makes of the components of an absolute pathname: one leading "." is skipped, and the
    component after that is taken literally, even if it is a dot component.
   */
  function Resolved(cs: seq<string>): seq<string> {
    var cs1 := if cs != [] && cs[0] == "." then cs[1..] else cs;
    if cs1 == [] then [] else Resolve([cs1[0]], cs1[1..])
  }

  // -- what the code does, character by character --

  predicate OneDot(r: string) {
    r != "" && r[0] == '.' && (|r| == 1 || r[1] == '/')
  }

  predicate TwoDots(r: string) {
    |r| >= 2 && r[0] == '.' && r[1] == '.' && (|r| == 2 || r[2] == '/')
  }

  /** Back to the slash before the last component, but not past the first character. */
  function Back(out: string): (r: string)
    requires |out| > 1
    ensures |r| < |out| && r <= out
  {
    var n := |out| - 1;
    if n == 1 || out[n] == '/' then out[..n] else Back(out[..n])
  }

  /** out has been written and rest is still to be read. */
  function Loop(out: string, rest: string): (r: string)
    decreases |rest|
  {
    if rest == "" then out
    else if rest[0] == '/' then
      var r := Skip(rest);
      if OneDot(r) then Loop(out, r[1..])
      else if TwoDots(r) then Loop(if |out| > 1 then Back(out) else out, r[2..])
      else Loop(if out != "" && out[|out| - 1] != '/' then out + "/" else out, r)
    else Loop(out + [rest[0]], rest[1..])
  }

  /** Where the main loop starts reading. */
  function Start(s: string): (r: string)
    ensures |r| <= |s|
    ensures Absolute(s) ==> |r| < |s|
  {
    var r := Skip(s);
    if Absolute(s) && OneDot(r) then Skip(r[1..]) else r
  }

  function Normal(s: string): string {
    if s == "" then "" else Trim(Loop(if Absolute(s) then "/" else "", Start(s)))
  }

  /** The output never grows longer than the input: the write position stays behind the read position. */
  lemma {:induction false} LoopFits(out: string, rest: string)
    ensures |Loop(out, rest)| <= |out| + |rest|
    decreases |rest|
  {
    if rest != "" {
      if rest[0] == '/' {
        var r := Skip(rest);
        if OneDot(r) {
          LoopFits(out, r[1..]);
        } else if TwoDots(r) {
          LoopFits(if |out| > 1 then Back(out) else out, r[2..]);
        } else {
          LoopFits(if out != "" && out[|out| - 1] != '/' then out + "/" else out, r);
        }
      } else {
        LoopFits(out + [rest[0]], rest[1..]);
      }
    }
  }

  lemma NormalFits(s: string)
    ensures |Normal(s)| <= |s|
  {
    LoopFits(if Absolute(s) then "/" else "", Start(s));
  }

  lemma {:induction false} LoopHasNoZero(out: string, rest: string)
    requires '\0' !in out && '\0' !in rest
    ensures '\0' !in Loop(out, rest)
    decreases |rest|
  {
    if rest != "" {
      if rest[0] == '/' {
        SkipIsSuffix(rest);
        var r := Skip(rest);
        if OneDot(r) {
          LoopHasNoZero(out, r[1..]);
        } else if TwoDots(r) {
          LoopHasNoZero(if |out| > 1 then Back(out) else out, r[2..]);
        } else {
          LoopHasNoZero(if out != "" && out[|out| - 1] != '/' then out + "/" else out, r);
        }
      } else {
        LoopHasNoZero(out + [rest[0]], rest[1..]);
      }
    }
  }

  lemma {:induction false} SkipIsSuffix(s: string)
    ensures forall c :: c in Skip(s) ==> c in s
  {
    if s != "" && s[0] == '/' {
      SkipIsSuffix(s[1..]);
    }
  }

  lemma NormalHasNoZero(s: string)
    requires '\0' !in s
    ensures '\0' !in Normal(s)
  {
    SkipIsSuffix(s);
    var r := Skip(s);
    if r != "" {
      SkipIsSuffix(r[1..]);
    }
    LoopHasNoZero(if Absolute(s) then "/" else "", Start(s));
  }

  // -- both agree --

  /** The absolute pathname of a stack of directories. */
  function Written(stack: seq<string>): string {
    "/" + Join(stack)
  }

  lemma {:induction false} CopyRun(out: string, r: string)
    ensures Loop(out, r) == Loop(out + r[..Run(r)], r[Run(r)..])
    decreases |r|
  {
    var n := Run(r);
    if n == 0 {
      assert out + r[..0] == out && r[0..] == r;
    } else {
      CopyRun(out + [r[0]], r[1..]);
      assert out + [r[0]] + r[1..][..n - 1] == out + r[..n];
      assert r[1..][n - 1..] == r[n..];
    }
  }

  lemma {:induction false} BackIs(front: string, c: string)
    requires Proper(c) && front != "" && front[0] == '/'
    ensures Back(if front == "/" then front + c else front + "/" + c) == front
    decreases |c|
  {
    var out := if front == "/" then front + c else front + "/" + c;
    var n := |out| - 1;
    if |c| == 1 {
      if front == "/" {
        assert out[..n] == front;
      } else {
        assert out[n] != '/' && out[..n] == front + "/";
        assert out[..n][..n - 1] == front;
      }
    } else {
      var c1 := c[..|c| - 1];
      assert out[n] == c[|c| - 1];
      assert out[..n] == if front == "/" then front + c1 else front + "/" + c1;
      BackIs(front, c1);
    }
  }

  lemma WrittenGrows(stack: seq<string>, c: string)
    requires AllProper(stack) && Proper(c)
    ensures Written(stack + [c]) == if stack == [] then "/" + c else Written(stack) + "/" + c
    ensures (Written(stack) == "/" <==> stack == []) && Back(Written(stack + [c])) == Written(stack)
  {
    ComponentsOfJoin(stack);
    if stack == [] {
      assert stack + [c] == [c];
    } else {
      assert (stack + [c])[..|stack|] == stack;
      assert "/" + (Join(stack) + "/" + c) == "/" + Join(stack) + "/" + c;
    }
    BackIs(Written(stack), c);
  }

  /** At a slash or at the end, with a stack written out, the rest of the loop resolves the rest of the components. */
  lemma {:induction false} LoopResolves(stack: seq<string>, rest: string)
    requires AllProper(stack) && (rest == "" || rest[0] == '/')
    ensures Trim(Loop(Written(stack), rest)) == Written(Resolve(stack, Components(rest)))
    decreases |rest|
  {
    if rest == "" {
      EndResolves(stack, rest);
    } else {
      var r := Skip(rest);
      SkipKeepsComponents(rest);
      if r == "" {
        EndResolves(stack, rest);
      } else if OneDot(r) {
        StayResolves(stack, rest);
        LoopResolves(stack, r[1..]);
      } else if TwoDots(r) {
        PopResolves(stack, rest);
        LoopResolves(if stack == [] then [] else stack[..|stack| - 1], r[2..]);
      } else {
        PushResolves(stack, rest);
        LoopResolves(stack + [r[..Run(r)]], r[Run(r)..]);
      }
    }
  }

  /** At the end there is at most a slash too many. */
  lemma EndResolves(stack: seq<string>, rest: string)
    requires AllProper(stack) && Skip(rest) == ""
    ensures Trim(Loop(Written(stack), rest)) == Written(stack) && Components(rest) == []
  {
    SkipKeepsComponents(rest);
    ComponentsOfJoin(stack);
    if rest != "" {
      assert stack != [] ==> Trim(Written(stack) + "/") == Written(stack);
    }
  }

  /** "." changes nothing. */
  lemma StayResolves(stack: seq<string>, rest: string)
    requires rest != "" && rest[0] == '/' && OneDot(Skip(rest))
    ensures Components(Skip(rest)) == ["."] + Components(Skip(rest)[1..])
    ensures Loop(Written(stack), rest) == Loop(Written(stack), Skip(rest)[1..])
  {
    var r := Skip(rest);
    assert r == "." + r[1..];
    RunOfProper(".", r[1..]);
  }

  /** ".." takes the last component back. */
  lemma PopResolves(stack: seq<string>, rest: string)
    requires AllProper(stack) && rest != "" && rest[0] == '/' && TwoDots(Skip(rest)) && !OneDot(Skip(rest))
    ensures Components(Skip(rest)) == [".."] + Components(Skip(rest)[2..])
    ensures Loop(Written(stack), rest) == Loop(Written(if stack == [] then [] else stack[..|stack| - 1]), Skip(rest)[2..])
  {
    var r := Skip(rest);
    assert r == ".." + r[2..];
    RunOfProper("..", r[2..]);
    PopWritten(stack);
  }

  lemma PopWritten(stack: seq<string>)
    requires AllProper(stack)
    ensures var out := Written(stack);
      (if |out| > 1 then Back(out) else out) == Written(if stack == [] then [] else stack[..|stack| - 1])
  {
    ComponentsOfJoin(stack);
    if stack != [] {
      var n := |stack| - 1;
      assert stack == stack[..n] + [stack[n]];
      WrittenGrows(stack[..n], stack[n]);
    }
  }

  lemma FirstComponent(r: string)
    requires r != "" && r[0] != '/'
    ensures var c := r[..Run(r)];
      && Proper(c) && Components(r) == [c] + Components(r[Run(r)..])
      && (c == "." <==> OneDot(r)) && (c == ".." <==> TwoDots(r))
  {
    OneDotIs(r, Run(r));
    TwoDotsIs(r, Run(r));
  }

  lemma OneDotIs(r: string, n: nat)
    requires 0 < n <= |r| && (n < |r| ==> r[n] == '/') && forall i :: 0 <= i < n ==> r[i] != '/'
    ensures r[..n] == "." <==> OneDot(r)
  {
    if r[..n] == "." {
      assert r[..n][0] == r[0] && n == 1;
    }
    if OneDot(r) {
      assert n == 1;
    }
  }

  lemma TwoDotsIs(r: string, n: nat)
    requires 0 < n <= |r| && (n < |r| ==> r[n] == '/') && forall i :: 0 <= i < n ==> r[i] != '/'
    ensures r[..n] == ".." <==> TwoDots(r)
  {
    if r[..n] == ".." {
      assert r[..n][0] == r[0] && r[..n][1] == r[1] && n == 2;
    }
    if TwoDots(r) {
      assert n == 2;
    }
  }

  /** A component that is not a dot component is copied behind a slash. */
  lemma PushResolves(stack: seq<string>, rest: string)
    requires AllProper(stack) && rest != "" && rest[0] == '/'
    requires Skip(rest) != "" && !OneDot(Skip(rest)) && !TwoDots(Skip(rest))
    ensures var r := Skip(rest);
      var c := r[..Run(r)];
      && Proper(c) && !Dot(c) && Components(r) == [c] + Components(r[Run(r)..])
      && Loop(Written(stack), rest) == Loop(Written(stack + [c]), r[Run(r)..])
  {
    var r, out := Skip(rest), Written(stack);
    var c := r[..Run(r)];
    FirstComponent(r);
    WrittenGrows(stack, c);
    ComponentsOfJoin(stack);
    CopyAfterSlash(out, r, c, stack);
  }

  lemma CopyAfterSlash(out: string, r: string, c: string, stack: seq<string>)
    requires c == r[..Run(r)] && out != "" && (out[|out| - 1] == '/' <==> out == "/")
    requires Written(stack + [c]) == if out == "/" then "/" + c else out + "/" + c
    ensures Loop(if out[|out| - 1] != '/' then out + "/" else out, r) == Loop(Written(stack + [c]), r[Run(r)..])
  {
    CopyRun(if out[|out| - 1] != '/' then out + "/" else out, r);
  }

  // -- main results --

  /** The main loop starts behind one leading ".". */
  lemma StartComponents(s: string)
    requires Absolute(s)
    ensures var cs := Components(s);
      && Components(Start(s)) == (if cs != [] && cs[0] == "." then cs[1..] else cs)
      && (Start(s) != "" ==> Start(s)[0] != '/')
  {
    var r := Skip(s);
    SkipKeepsComponents(s);
    if OneDot(r) {
      assert r == "." + r[1..];
      RunOfProper(".", r[1..]);
      SkipKeepsComponents(r[1..]);
      assert ["."] + Components(r[1..]) == Components(s);
    } else if r != "" {
      FirstComponent(r);
    }
  }

  /** Every absolute pathname comes out as the directory its components lead to. */
  lemma NormalResolves(s: string)
    requires Absolute(s)
    ensures Normal(s) == Written(Resolved(Components(s)))
  {
    StartComponents(s);
    LiteralFirst(Start(s));
  }

  /** The first component after the start is copied as it is. */
  lemma LiteralFirst(t: string)
    requires t != "" ==> t[0] != '/'
    ensures var cs := Components(t);
      Trim(Loop("/", t)) == Written(if cs == [] then [] else Resolve([cs[0]], cs[1..]))
  {
    if t != "" {
      var c, rest := t[..Run(t)], t[Run(t)..];
      FirstComponent(t);
      CopyRun("/", t);
      assert "/" + c == Written([c]);
      LoopResolves([c], rest);
      assert ([c] + Components(rest))[1..] == Components(rest);
    }
  }

  /** The components climb higher than they have descended. */
  predicate Sinks(cs: seq<string>, depth: nat)
    decreases |cs|
  {
    cs != [] &&
    if cs[0] == "." then Sinks(cs[1..], depth)
    else if cs[0] == ".." then depth == 0 || Sinks(cs[1..], depth - 1)
    else Sinks(cs[1..], depth + 1)
  }

  /** The first component that is taken literally is a dot component, and nothing after it climbs past it. */
  predicate KeepsDot(cs: seq<string>) {
    var cs1 := if cs != [] && cs[0] == "." then cs[1..] else cs;
    cs1 != [] && Dot(cs1[0]) && !Sinks(cs1[1..], 0)
  }

  lemma {:induction false} ResolveAbove(d: string, stack: seq<string>, cs: seq<string>)
    ensures Resolve([d] + stack, cs) == if Sinks(cs, |stack|) then Resolve(stack, cs) else [d] + Resolve(stack, cs)
    decreases |cs|
  {
    if cs != [] {
      if cs[0] == "." {
        ResolveAbove(d, stack, cs[1..]);
      } else if cs[0] == ".." {
        if stack == [] {
          assert ([d] + stack)[..0] == [];
        } else {
          assert ([d] + stack)[..|stack|] == [d] + stack[..|stack| - 1];
          ResolveAbove(d, stack[..|stack| - 1], cs[1..]);
        }
      } else {
        assert [d] + stack + [cs[0]] == [d] + (stack + [cs[0]]);
        ResolveAbove(d, stack + [cs[0]], cs[1..]);
      }
    }
  }

  /** What stays on the stack are components; dot components do not get there. */
  lemma {:induction false} ResolveProper(stack: seq<string>, cs: seq<string>)
    requires AllProper(stack) && AllProper(cs)
    ensures AllProper(Resolve(stack, cs))
    ensures (forall i :: 0 <= i < |stack| ==> !Dot(stack[i])) ==> forall i :: 0 <= i < |Resolve(stack, cs)| ==> !Dot(Resolve(stack, cs)[i])
    decreases |cs|
  {
    if cs != [] {
      ResolveProper(if cs[0] == "." then stack
        else if cs[0] == ".." then (if stack == [] then [] else stack[..|stack| - 1])
        else stack + [cs[0]], cs[1..]);
    }
  }

  /**
    The result is the directory that the components lead to from the root, as POSIX has it, exactly unless
    a leading dot component has been taken literally and is still there.
   */
  lemma NormalIsResolutionIff(s: string)
    requires Absolute(s)
    ensures Normal(s) == Written(Resolve([], Components(s))) <==> !KeepsDot(Components(s))
  {
    NormalResolves(s);
    ComponentsProper(s);
    var cs := Components(s);
    var cs1 := if cs != [] && cs[0] == "." then cs[1..] else cs;
    assert Resolve([], cs) == Resolve([], cs1);
    if cs1 != [] {
      var d, rest := cs1[0], cs1[1..];
      ResolveAbove(d, [], rest);
      assert [d] + [] == [d];
      ResolveProper([], rest);
      ResolveProper([d], rest);
      if Dot(d) {
        assert Resolve([], cs1) == Resolve([], rest);
        if !Sinks(rest, 0) {
          WrittenDiffers(Resolve([], rest), [d] + Resolve([], rest));
        }
      } else {
        assert [] + [d] == [d];
      }
    }
  }

  /** In particular it is so when the first component is not a dot component. */
  lemma NormalIsResolution(s: string)
    requires Absolute(s) && (Components(s) == [] || !Dot(Components(s)[0]))
    ensures Normal(s) == Written(Resolve([], Components(s)))
  {
    NormalIsResolutionIff(s);
  }

  lemma WrittenDiffers(a: seq<string>, b: seq<string>)
    requires AllProper(a) && AllProper(b) && a != b
    ensures Written(a) != Written(b)
  {
    ComponentsOfJoin(a);
    ComponentsOfJoin(b);
  }

  // -- idempotence --

  /** Resolving what has been resolved changes nothing, if no dot component has stayed. */
  lemma {:induction false} ResolveAgain(stack: seq<string>, cs: seq<string>)
    requires forall i :: 0 <= i < |cs| ==> !Dot(cs[i])
    ensures Resolve(stack, cs) == stack + cs
    decreases |cs|
  {
    if cs == [] {
      assert stack + cs == stack;
    } else {
      ResolveAgain(stack + [cs[0]], cs[1..]);
      assert stack + [cs[0]] + cs[1..] == stack + cs;
    }
  }

  /** What has been taken literally at the bottom stays there, and above it there is no dot component. */
  lemma ResolvedShape(cs: seq<string>)
    requires AllProper(cs)
    ensures var r := Resolved(cs);
      && AllProper(r) && (forall i :: 1 <= i < |r| ==> !Dot(r[i]))
      && (r != [] && Dot(r[0]) <==> KeepsDot(cs))
      && (KeepsDot(cs) ==> r[0] == if cs[0] == "." then cs[1] else cs[0])
  {
    var cs1 := if cs != [] && cs[0] == "." then cs[1..] else cs;
    if cs1 != [] {
      var d, rest := cs1[0], cs1[1..];
      ResolveAbove(d, [], rest);
      assert [d] + [] == [d];
      ResolveProper([], rest);
      if !Dot(d) {
        ResolveProper([d], rest);
      }
    }
  }

  /** Resolving the result again drops a leading ".", and nothing else. */
  lemma ResolvedAgain(r: seq<string>)
    requires forall i :: 1 <= i < |r| ==> !Dot(r[i])
    ensures Resolved(r) == if r != [] && r[0] == "." then r[1..] else r
  {
    var r1 := if r != [] && r[0] == "." then r[1..] else r;
    if r1 != [] {
      ResolveAgain([r1[0]], r1[1..]);
      assert [r1[0]] + r1[1..] == r1;
    }
  }

  /** Normalizing twice is normalizing once, exactly unless the result begins with a component ".". */
  lemma NormalIsIdempotentIff(s: string)
    requires Absolute(s)
    ensures Absolute(Normal(s))
    ensures var cs := Components(s);
      Normal(Normal(s)) == Normal(s) <==> !(KeepsDot(cs) && |cs| > 1 && cs[0] == "." && cs[1] == ".")
  {
    var cs := Components(s);
    var r := Resolved(cs);
    NormalResolves(s);
    ComponentsProper(s);
    ResolvedShape(cs);
    ComponentsOfJoin(r);
    NormalResolves(Normal(s));
    assert Components(Normal(s)) == r;
    ResolvedAgain(r);
    if r != [] && r[0] == "." {
      WrittenDiffers(r[1..], r);
    }
  }

  /** The pathname of the first kind that comes to mind. */
  lemma LeadingDotsStay()
    ensures Normal("/././a") == "/./a" && Normal("/./a") == "/a"
  {
    var s, t := "/././a", "/./a";
    assert s[1..] == "././a" && t[1..] == "./a";
    assert Skip(s) == "././a" && Skip(t) == "./a";
    assert s[1..][1..] == "/./a" && t[1..][1..] == "/a";
    assert "/./a"[1..] == "./a" && "/a"[1..] == "a";
    assert Start(s) == "./a" && Start(t) == "a";
    CopyRun("/", "./a");
    assert Run("a") == 1 && "/" + "."  == "/.";
    assert Run("./a") == 1 && "./a"[..1] == "." && "./a"[1..] == "/a";
    assert Loop("/.", "/a") == Loop("/./", "a");
    assert Loop("/./", "a") == Loop("/./a", "");
    assert Loop("/", "a") == Loop("/a", "");
  }
}
