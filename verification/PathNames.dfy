/** Pathnames as strings, and as the components between their slashes. */
module PathNames {
  import opened Sequences

  /** The string without its leading slashes. */
  function Skip(s: string): (r: string)
    ensures |r| <= |s| && (r != "" ==> r[0] != '/')
    ensures s != "" && s[0] == '/' ==> |r| < |s|
  {
    if s != "" && s[0] == '/' then Skip(s[1..]) else s
  }

  /** The length of the leading component. */
  function Run(s: string): (n: nat)
    ensures n <= |s| && (n < |s| ==> s[n] == '/') && forall i :: 0 <= i < n ==> s[i] != '/'
    ensures s != "" && s[0] != '/' ==> n > 0
  {
    if s == "" || s[0] == '/' then 0 else 1 + Run(s[1..])
  }

  /** The non-empty components, in order. */
  function Components(s: string): seq<string>
    decreases |s|
  {
    if s == "" then []
    else if s[0] == '/' then Components(s[1..])
    else [s[..Run(s)]] + Components(s[Run(s)..])
  }

  function Join(cs: seq<string>): string {
    if cs == [] then ""
    else if |cs| == 1 then cs[0]
    else Join(cs[..|cs| - 1]) + "/" + cs[|cs| - 1]
  }

  /** A component: not empty, and without slashes. */
  predicate Proper(c: string) {
    c != "" && forall i :: 0 <= i < |c| ==> c[i] != '/'
  }

  predicate AllProper(cs: seq<string>) {
    forall i :: 0 <= i < |cs| ==> Proper(cs[i])
  }

  lemma {:induction false} ComponentsProper(s: string)
    ensures AllProper(Components(s))
    decreases |s|
  {
    if s != "" {
      if s[0] == '/' {
        ComponentsProper(s[1..]);
      } else {
        ComponentsProper(s[Run(s)..]);
      }
    }
  }

  lemma {:induction false} SkipKeepsComponents(s: string)
    ensures Components(Skip(s)) == Components(s)
  {
    if s != "" && s[0] == '/' {
      SkipKeepsComponents(s[1..]);
    }
  }

  lemma {:induction false} RunOfProper(c: string, rest: string)
    requires Proper(c) && (rest == "" || rest[0] == '/')
    ensures Run(c + rest) == |c| && Components(c + rest) == [c] + Components(rest)
  {
    RunIs(c, rest);
    assert (c + rest)[..|c|] == c && (c + rest)[|c|..] == rest;
  }

  lemma {:induction false} RunIs(c: string, rest: string)
    requires (forall i :: 0 <= i < |c| ==> c[i] != '/') && (rest == "" || rest[0] == '/')
    ensures Run(c + rest) == |c|
  {
    if c == "" {
      assert c + rest == rest;
    } else {
      RunIs(c[1..], rest);
      assert (c + rest)[1..] == c[1..] + rest;
    }
  }

  lemma {:induction false} JoinCons(c: string, cs: seq<string>)
    requires cs != []
    ensures Join([c] + cs) == c + "/" + Join(cs)
  {
    var n := |cs| - 1;
    if n == 0 {
      assert ([c] + cs)[..1] == [c];
    } else {
      JoinCons(c, cs[..n]);
      assert ([c] + cs)[..n + 1] == [c] + cs[..n];
      Associates(c + "/", Join(cs[..n]), "/");
      Associates(c + "/", Join(cs[..n]) + "/", cs[n]);
    }
  }

  /** Splitting what was joined gives the components back. */
  lemma {:induction false} ComponentsOfJoin(cs: seq<string>)
    requires AllProper(cs)
    ensures Components(Join(cs)) == cs && Components("/" + Join(cs)) == cs
    ensures cs != [] ==> Join(cs) != "" && Join(cs)[0] != '/' && Join(cs)[|Join(cs)| - 1] != '/'
  {
    assert ("/" + Join(cs))[1..] == Join(cs);
    if cs != [] {
      var rest := cs[1..];
      ComponentsOfJoin(rest);
      assert cs == [cs[0]] + rest;
      if rest == [] {
        RunOfProper(cs[0], "");
        assert cs[0] + "" == cs[0];
      } else {
        JoinCons(cs[0], rest);
        RunOfProper(cs[0], "/" + Join(rest));
        assert cs[0] + ("/" + Join(rest)) == cs[0] + "/" + Join(rest);
      }
    }
  }
}
