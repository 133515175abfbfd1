/** IXLandSystem/fs/path.c: classification, and translation between virtual and host pathnames. */
module Translation {
  import opened Wrappers
  import opened PathNames
  import opened Sequences
  import opened Collapses

  datatype PathType = Invalid | OwnSandbox | External | VirtualLinux | AbsoluteHost

  const PREFIXES := ["/bin/", "/sbin/", "/usr/", "/lib/", "/lib64/", "/etc/",
    "/var/", "/home/", "/root/", "/tmp/", "/dev/", "/proc/", "/sys/"]

  const DEFAULT_ROOT := "/var/mobile/Containers/IXLand"

  /** ixland_path_classify; it never answers OwnSandbox or External. */
  function Classify(path: string): PathType {
    if path == "" then Invalid
    else if path[0] == '/' then
      if path == "/" || exists i :: 0 <= i < |PREFIXES| && PREFIXES[i] <= path then VirtualLinux else AbsoluteHost
    else VirtualLinux
  }

  datatype Result = Ok(path: string) | Err(error: Errno)

  function Copied(path: string, len: nat): Result {
    if |path| >= len then Err(ENAMETOOLONG) else Ok(path)
  }

  /** ixland_path_translate with the sandbox at root; None is the null pointer, or a buffer of no length. */
  function Translated(path: Option<string>, root: string, len: nat): Result {
    if path.None? || len == 0 then Err(EINVAL)
    else match Classify(path.value)
      case VirtualLinux => if |root| + |path.value| + 1 >= len then Err(ENAMETOOLONG) else Ok(Collapse(root + path.value))
      case OwnSandbox | AbsoluteHost => Copied(path.value, len)
      case _ => Err(ENOENT)
  }

  /** ixland_path_reverse_translate. */
  function Reversed(path: Option<string>, root: string, len: nat): Result {
    if path.None? || len == 0 then Err(EINVAL)
    else if root <= path.value then Copied(path.value[|root|..], len)
    else Copied(path.value, len)
  }

  // -- round trips --

  /** A root as the sandbox has it: absolute, without "//", and without a slash at the end. */
  predicate CleanRoot(root: string) {
    && Absolute(root) && root[|root| - 1] != '/'
    && forall i :: 0 <= i < |root| - 1 ==> root[i] != '/' || root[i + 1] != '/'
  }

  predicate OnlySlashes(s: string) {
    s != "" && forall i :: 0 <= i < |s| ==> s[i] == '/'
  }

  /** Only the root directory is a virtual pathname without a name in it. */
  lemma VirtualHasName(v: string)
    requires Classify(v) == VirtualLinux && v != "/"
    ensures !OnlySlashes(v)
  {
    if Absolute(v) {
      var i :| 0 <= i < |PREFIXES| && PREFIXES[i] <= v;
      assert |PREFIXES[i]| > 1 && PREFIXES[i][1] != '/';
      assert v[1] == PREFIXES[i][1];
    }
  }

  /** Behind a clean root nothing of the root changes. */
  lemma {:induction false} SqueezeBehind(root: string, v: string, inSlash: bool)
    requires root != "" ==> root[|root| - 1] != '/' && (inSlash ==> root[0] != '/')
    requires root == "" ==> !inSlash
    requires forall i :: 0 <= i < |root| - 1 ==> root[i] != '/' || root[i + 1] != '/'
    ensures Squeeze(root + v, inSlash) == root + Squeeze(v, false)
  {
    if root == "" {
      assert root + v == v;
    } else {
      assert (root + v)[1..] == root[1..] + v;
      SqueezeBehind(root[1..], v, root[0] == '/');
      assert [root[0]] + root[1..] == root;
    }
  }

  lemma {:induction false} SqueezeSlashes(v: string, inSlash: bool)
    ensures Squeeze(v, inSlash) == (if inSlash then "" else "/") <==> (if inSlash then v == "" || OnlySlashes(v) else OnlySlashes(v))
    ensures Squeeze(v, false) == "" <==> v == ""
  {
    if v != "" {
      SqueezeSlashes(v[1..], true);
      SqueezeSlashes(v[1..], false);
      assert v == [v[0]] + v[1..];
    }
  }

  /** Collapsing goes through the root, exactly unless there is nothing but slashes behind it. */
  lemma CollapseBehindRootIff(root: string, v: string)
    requires CleanRoot(root)
    ensures Collapse(root + v) == root + Collapse(v) <==> !OnlySlashes(v)
    ensures OnlySlashes(v) ==> Collapse(root + v) == root
  {
    SqueezeBehind(root, v, false);
    SqueezeSlashes(v, false);
    var q := Squeeze(v, false);
    if q == "" {
      assert root + q == root;
    } else {
      assert (root + q)[..|root + q| - 1] == root + q[..|q| - 1];
    }
  }

  lemma CollapsedUnderRoot(root: string, v: string)
    requires CleanRoot(root) && (v == "/" || !OnlySlashes(v))
    ensures Collapse(root + v) == if v == "/" then root else root + (if Absolute(v) then "/" else "") + Join(Components(v))
  {
    CollapseBehindRootIff(root, v);
    if v == "/" {
      assert OnlySlashes(v);
    } else {
      CollapseIsJoin(v);
      Associates(root, if Absolute(v) then "/" else "", Join(Components(v)));
    }
  }

  lemma VirtualTranslates(v: string, root: string, hostLen: nat)
    requires Classify(v) == VirtualLinux && |root| + |v| + 1 < hostLen
    ensures Translated(Some(v), root, hostLen) == Ok(Collapse(root + v)) && (v == "/" || !OnlySlashes(v))
  {
    if v != "/" {
      VirtualHasName(v);
    }
  }

  /**
    Where a virtual pathname leads on the host: the root, and behind it the components of the pathname, after
    a slash if it is absolute. The root directory leads to the root itself.
   */
  lemma VirtualLiesUnderRoot(v: string, root: string, hostLen: nat)
    requires CleanRoot(root) && Classify(v) == VirtualLinux && |root| + |v| + 1 < hostLen
    ensures Translated(Some(v), root, hostLen)
      == Ok(if v == "/" then root else root + (if Absolute(v) then "/" else "") + Join(Components(v)))
  {
    VirtualTranslates(v, root, hostLen);
    CollapsedUnderRoot(root, v);
  }

  /** When a translation to the host fails; a pathname that is neither empty nor virtual stays as it is. */
  lemma TranslationFails(path: string, root: string, hostLen: nat)
    requires hostLen > 0
    ensures var r := Translated(Some(path), root, hostLen);
      && (r == Err(ENOENT) <==> path == "")
      && (r == Err(ENAMETOOLONG) <==>
           path != "" && hostLen <= |path| + if Classify(path) == VirtualLinux then |root| + 1 else 0)
      && (r.Err? ==> r.error in {ENOENT, ENAMETOOLONG})
      && (r.Ok? && Classify(path) != VirtualLinux ==> r.path == path)
  {
  }

  /**
    A virtual pathname that fits the buffers comes back collapsed; the root directory alone does not, it
    comes back empty.
   */
  lemma VirtualRoundTripIff(v: string, root: string, hostLen: nat, virtualLen: nat)
    requires CleanRoot(root) && Classify(v) == VirtualLinux
    requires |root| + |v| + 1 < hostLen && |Collapse(v)| < virtualLen
    ensures var host := Translated(Some(v), root, hostLen);
      && host.Ok? && (Reversed(Some(host.path), root, virtualLen) == Ok(Collapse(v)) <==> v != "/")
      && (v == "/" ==> Reversed(Some(host.path), root, virtualLen) == Ok(""))
  {
    CollapseBehindRootIff(root, v);
    if v == "/" {
      assert Collapse("/") == "/" by {
        assert v[1..] == "";
      }
      assert root[|root|..] == "";
    } else {
      VirtualHasName(v);
      assert (root + Collapse(v))[|root|..] == Collapse(v);
    }
  }

  /** A host pathname comes back as it is, exactly unless it lies under the root by its spelling. */
  lemma HostRoundTripIff(v: string, root: string, hostLen: nat, virtualLen: nat)
    requires CleanRoot(root) && Classify(v) == AbsoluteHost && |v| < hostLen && |v| < virtualLen
    ensures var host := Translated(Some(v), root, hostLen);
      host == Ok(v) && (Reversed(Some(host.path), root, virtualLen) == Ok(v) <==> !(root <= v))
  {
  }

  // -- the buffers --

  /** snprintf of a string that fits. */
  method Print(buffer: array<char>, s: string)
    requires |s| < buffer.Length
    modifies buffer
    ensures buffer[..|s|] == s && buffer[|s|] == '\0'
  {
    var i := 0;
    while i < |s|
      invariant 0 <= i <= |s| && buffer[..i] == s[..i]
    {
      buffer[i] := s[i];
      i := i + 1;
    }
    buffer[i] := '\0';
  }

  /** strncpy of a string that fits, and the zero that the caller puts at the end of the buffer. */
  method StrNCopy(buffer: array<char>, s: string, len: nat)
    requires |s| < len <= buffer.Length
    modifies buffer
    ensures buffer[..|s|] == s && buffer[|s|] == '\0'
  {
    var i := 0;
    while i < len - 1
      invariant 0 <= i <= len - 1
      invariant buffer[..i] == if i <= |s| then s[..i] else s + seq(i - |s|, _ => '\0')
    {
      buffer[i] := if i < |s| then s[i] else '\0';
      i := i + 1;
    }
    buffer[len - 1] := '\0';
    assert buffer[..|s|] == s;
  }

  lemma {:induction false} SqueezeHasNoZero(s: string, inSlash: bool)
    requires '\0' !in s
    ensures '\0' !in Squeeze(s, inSlash)
  {
    if s != "" {
      SqueezeHasNoZero(s[1..], s[0] == '/');
    }
  }

  /** env is the value of IXLAND_ROOT, if it is set. */
  function RootOf(env: Option<string>): string {
    if env.Some? then env.value else DEFAULT_ROOT
  }

  predicate CString(s: Option<string>) {
    s.Some? ==> '\0' !in s.value
  }

  /** What a call leaves in the buffer: the result's pathname, or on an error what was there. */
  ghost predicate Holds(e: Errno, buffer: seq<char>, was: seq<char>, result: Result) {
    match result
    case Ok(path) => e == EOK && '\0' in buffer && Str(buffer) == path
    case Err(error) => e == error && buffer == was
  }

  method Translate(virtualPath: Option<string>, host: array?<char>, hostLen: nat, env: Option<string>) returns (e: Errno)
    requires CString(virtualPath) && CString(env) && (host != null ==> hostLen <= host.Length)
    modifies host
    ensures host == null ==> e == EINVAL
    ensures host != null ==> Holds(e, host[..], old(host[..]), Translated(virtualPath, RootOf(env), hostLen))
  {
    if virtualPath.None? || host == null || hostLen == 0 {
      return EINVAL;
    }
    var path := virtualPath.value;
    match Classify(path) {
      case VirtualLinux =>
        var root := RootOf(env);
        if |root| + |path| + 1 >= hostLen {
          return ENAMETOOLONG;
        }
        e := PrintAndNormalize(root + path, host, hostLen);
      case OwnSandbox | AbsoluteHost =>
        e := CopyOut(path, host, hostLen);
      case _ =>
        e := ENOENT;
    }
  }

  method CopyOut(path: string, buffer: array<char>, len: nat) returns (e: Errno)
    requires '\0' !in path && len <= buffer.Length
    modifies buffer
    ensures Holds(e, buffer[..], old(buffer[..]), Copied(path, len))
  {
    if |path| >= len {
      return ENAMETOOLONG;
    }
    StrNCopy(buffer, path, len);
    StrIs(buffer[..], path);
    e := EOK;
  }

  method PrintAndNormalize(path: string, host: array<char>, hostLen: nat) returns (e: Errno)
    requires '\0' !in path && |path| + 1 < hostLen <= host.Length
    modifies host
    ensures Holds(e, host[..], old(host[..]), Ok(Collapse(path)))
  {
    Print(host, path);
    StrIs(host[..], path);
    e := Normalize(host, hostLen);
    SqueezeHasNoZero(path, false);
    StrIs(host[..], Collapse(path));
  }

  method ReverseTranslate(hostPath: Option<string>, virtual: array?<char>, virtualLen: nat, env: Option<string>) returns (e: Errno)
    requires CString(hostPath) && CString(env) && (virtual != null ==> virtualLen <= virtual.Length)
    modifies virtual
    ensures virtual == null ==> e == EINVAL
    ensures virtual != null ==> Holds(e, virtual[..], old(virtual[..]), Reversed(hostPath, RootOf(env), virtualLen))
  {
    if hostPath.None? || virtual == null || virtualLen == 0 {
      return EINVAL;
    }
    var root := RootOf(env);
    if root <= hostPath.value {
      e := CopyOut(hostPath.value[|root|..], virtual, virtualLen);
      return;
    }
    e := CopyOut(hostPath.value, virtual, virtualLen);
  }
}
