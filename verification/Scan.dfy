/**
  What one scan of an argument vector means, without any permutation: a plain recursive parser over the
  unread arguments. IXLandSystem/getopt_long.c must deliver the same values while it shuffles argv.
 */
module Scan {
  import opened Wrappers
  import opened LongOptions

  const BADCH := '?' as int
  const INORDER := 1

  /** What becomes of non-options: moved behind the options, delivered as arguments of option 1, or the end of the scan. */
  datatype Mode = Permuting | InOrder | Posix

  /** options has lost its leading '+' or '-'; long is NULL when the caller has no long table. */
  datatype Config = Config(options: string, long: Option<seq<LongOption>>, mode: Mode, longOnly: bool)

  function Configure(options: string, long: Option<seq<LongOption>>, posixlyCorrect: bool, longOnly: bool): Config {
    var first := if options == "" then '\0' else options[0];
    Config(
      if first == '+' || first == '-' then options[1..] else options,
      long,
      if first == '-' then InOrder else if posixlyCorrect || first == '+' then Posix else Permuting,
      longOnly)
  }

  /** No long option returns -1, the value that tells the caller that the scan is over. */
  predicate WellFormed(cfg: Config) {
    cfg.long.Some? ==> forall o :: o in cfg.long.value ==> o.val != -1
  }

  function BadArg(cfg: Config): int {
    if cfg.options != "" && cfg.options[0] == ':' then ':' as int else '?' as int
  }

  /** strchr, as an index; the length of s if c does not occur. */
  function IndexOf(s: string, c: char): (i: nat)
    ensures i <= |s|
    ensures i < |s| ==> s[i] == c
  {
    if s == "" || s[0] == c then 0 else 1 + IndexOf(s[1..], c)
  }

  lemma IndexOfAbsent(s: string, c: char)
    ensures IndexOf(s, c) == |s| <==> c !in s
  {
  }

  /**
    One call's worth of option: the value returned, optarg, optopt (None: as it was), the table index
    stored through idx and the value stored through a flag pointer, how many arguments are used up, and
    how far into the next one the scan has come (0: it has not started).
   */
  datatype Outcome = Outcome(ret: int, optarg: Option<string>, optopt: Option<int>, idx: Option<nat>,
                             store: Option<(nat, int)>, taken: nat, off: nat)

  function Reject(ret: int, optopt: int, taken: nat, off: nat): Outcome {
    Outcome(ret, None, Some(optopt), None, None, taken, off)
  }

  function OptoptOf(o: LongOption): int {
    if o.flag == None then o.val else 0
  }

  /** A long option spelled by text, with next the arguments after it; taken == 0 says it may be a short one. */
  function ParseLong(cfg: Config, text: string, next: seq<string>, shortToo: bool): (r: Outcome)
    requires cfg.long.Some? && WellFormed(cfg)
    ensures r.off == 0 && r.taken <= 1 + |next|
    ensures if r.ret == -1 then shortToo && r == Outcome(-1, None, None, None, None, 0, 0) else r.taken > 0
  {
    var m := Resolve(cfg.long.value, text[..IndexOf(text, '=')], shortToo, cfg.longOnly);
    match m
    case Ambiguous => Reject(BADCH, 0, 1, 0)
    case Unknown => if shortToo then Outcome(-1, None, None, None, None, 0, 0) else Reject(BADCH, 0, 1, 0)
    case Found(i) => TakeLong(cfg, i, cfg.long.value[i], text, next)
  }

  /** Entry o of the table, found at i: its argument follows '=' or, if it must have one, is the next argument. */
  function TakeLong(cfg: Config, i: nat, o: LongOption, text: string, next: seq<string>): (r: Outcome)
    requires o.val != -1
    ensures r.off == 0 && 0 < r.taken <= 1 + |next| && r.ret != -1
  {
    var eq := IndexOf(text, '=');
    if o.hasArg == NO_ARGUMENT && eq < |text| then Reject(BADCH, OptoptOf(o), 1, 0)
    else if o.hasArg == REQUIRED_ARGUMENT && eq == |text| && next == [] then Reject(BadArg(cfg), OptoptOf(o), 1, 0)
    else
      var fromNext := o.hasArg == REQUIRED_ARGUMENT && eq == |text|;
      var optarg := if fromNext then Some(next[0])
                    else if (o.hasArg == REQUIRED_ARGUMENT || o.hasArg == OPTIONAL_ARGUMENT) && eq < |text|
                    then Some(text[eq + 1..]) else None;
      var taken := if fromNext then 2 else 1;
      match o.flag
      case Some(variable) => Outcome(0, optarg, None, Some(i), Some((variable, o.val)), taken, 0)
      case None => Outcome(o.val, optarg, None, Some(i), None, taken, 0)
  }

  function After(taken: nat, o: Outcome): Outcome {
    o.(taken := taken + o.taken)
  }

  /** The option at offset off of the first argument. Only a '-' that is no option at all gives -1. */
  function LexAt(cfg: Config, args: seq<string>, off: nat): (r: Outcome)
    requires WellFormed(cfg) && |args| > 0 && 1 <= off < |args[0]|
    ensures r.taken <= |args|
    ensures r.ret == -1 ==> r.taken == 0 && r.off == 0 && cfg.long == None && '-' !in cfg.options && Reported(r) == DONE
    ensures r.ret != -1 ==> if r.off == 0 then r.taken > 0 else r.taken == 0 && off < r.off < |args[0]|
  {
    var o := LexLong(cfg, args, off);
    if o.ret != -1 then o else LexShort(cfg, args, off)
  }

  /** The option as a long one: -1 when it is not, and has to be a short one. */
  function LexLong(cfg: Config, args: seq<string>, off: nat): (r: Outcome)
    requires WellFormed(cfg) && |args| > 0 && 1 <= off < |args[0]|
    ensures r.taken <= |args| && r.off == 0
    ensures r.ret == -1 ==> r.taken == 0 && r.optarg == None && r.optopt == None && r.idx == None && r.store == None
    ensures r.ret == -1 ==> cfg.long == None || args[0][off] != '-'
    ensures r.ret != -1 ==> r.taken > 0
  {
    var c := args[0][off];
    if cfg.long.Some? && (c == '-' || cfg.longOnly) then
      ParseLong(cfg, if c == '-' then args[0][off + 1..] else args[0][off..], args[1..], MayBeShort(cfg, c))
    else Outcome(-1, None, None, None, None, 0, 0)
  }

  predicate MayBeShort(cfg: Config, c: char) {
    c != '-' && c != ':' && c in cfg.options
  }

  function LexShort(cfg: Config, args: seq<string>, off: nat): (r: Outcome)
    requires WellFormed(cfg) && |args| > 0 && 1 <= off < |args[0]|
    requires args[0][off] == '-' ==> cfg.long == None
    ensures r.taken <= |args|
    ensures r.ret == -1 ==> r.taken == 0 && r.off == 0 && cfg.long == None && '-' !in cfg.options && Reported(r) == DONE
    ensures r.ret != -1 ==> if r.off == 0 then r.taken > 0 else r.taken == 0 && off < r.off < |args[0]|
  {
    var c, rest := args[0][off], args[0][off + 1..];
    var taken, off' := if rest == "" then 1 else 0, if rest == "" then 0 else off + 1;
    var i := IndexOf(cfg.options, c);
    if c == ':' || (c == '-' && rest != "") || i == |cfg.options| then
      IndexOfAbsent(cfg.options, c);
      if c == '-' && rest == "" then Outcome(-1, None, None, None, None, 0, 0)
      else Reject(BADCH, c as int, taken, off')
    else if cfg.long.Some? && c == 'W' && i + 1 < |cfg.options| && cfg.options[i + 1] == ';' then
      LexDashW(cfg, rest, args[1..])
    else if i + 1 == |cfg.options| || cfg.options[i + 1] != ':' then Outcome(c as int, None, None, None, None, taken, off')
    else LexArgument(cfg, c, rest, args[1..], i + 2 < |cfg.options| && cfg.options[i + 2] == ':')
  }

  /** "-Wname" and "-W name" are "--name". */
  function LexDashW(cfg: Config, rest: string, next: seq<string>): (r: Outcome)
    requires WellFormed(cfg) && cfg.long.Some?
    ensures 0 < r.taken <= 1 + |next| && r.off == 0 && r.ret != -1
  {
    if rest != "" then ParseLong(cfg, rest, next, false)
    else if next == [] then Reject(BadArg(cfg), 'W' as int, 1, 0)
    else After(1, ParseLong(cfg, next[0], next[1..], false))
  }

  /** The option letter c with its argument: the rest of the cluster, or (unless it is optional) the next argument. */
  function LexArgument(cfg: Config, c: char, rest: string, next: seq<string>, optional: bool): (r: Outcome)
    ensures 0 < r.taken <= 1 + |next| && r.off == 0 && r.ret != -1
  {
    if rest != "" then Outcome(c as int, Some(rest), None, None, None, 1, 0)
    else if optional then Outcome(c as int, None, None, None, None, 1, 0)
    else if next == [] then Reject(BadArg(cfg), c as int, 1, 0)
    else Outcome(c as int, Some(next[0]), None, None, None, 2, 0)
  }

  /** What a call delivers: an outcome, without how far the scan has come by it. */
  datatype Event = Event(ret: int, optarg: Option<string>, idx: Option<nat>, optopt: Option<int>, store: Option<(nat, int)>)

  function Reported(o: Outcome): Event {
    Event(o.ret, o.optarg, o.idx, o.optopt, o.store)
  }

  /** An event that concerns no option. */
  function Plain(ret: int, optarg: Option<string>): Event {
    Event(ret, optarg, None, None, None)
  }

  const DONE := Plain(-1, None)

  /** What a caller has before it when a call returns: besides its results, optopt and the variables behind flag pointers. */
  datatype Sight = Sight(ret: int, optarg: Option<string>, idx: Option<nat>, optopt: int, vars: map<nat, int>)

  /** The call that delivers e shows s; optopt and the variables stay from one call to the next unless e changes them. */
  predicate Shown(e: Event, s: Sight, optopt: int, vars: map<nat, int>) {
    && s.ret == e.ret && s.optarg == e.optarg && s.idx == e.idx
    && s.optopt == (if e.optopt.Some? then e.optopt.value else optopt)
    && s.vars == (if e.store.Some? then vars[e.store.value.0 := e.store.value.1] else vars)
  }

  /** That for event k, when optopt and the variables were as given before the first. */
  predicate ShownAt(events: seq<Event>, sights: seq<Sight>, k: nat, optopt0: int, vars0: map<nat, int>)
    requires k < |events| == |sights|
  {
    Shown(events[k], sights[k], if k == 0 then optopt0 else sights[k - 1].optopt, if k == 0 then vars0 else sights[k - 1].vars)
  }

  /** These events have shown the caller these sights, and left optopt and the variables so. */
  ghost predicate Told(events: seq<Event>, sights: seq<Sight>, optopt: int, vars: map<nat, int>, optopt0: int, vars0: map<nat, int>) {
    && |sights| == |events|
    && (forall k :: 0 <= k < |events| ==> ShownAt(events, sights, k, optopt0, vars0))
    && optopt == (if sights == [] then optopt0 else sights[|sights| - 1].optopt)
    && vars == (if sights == [] then vars0 else sights[|sights| - 1].vars)
  }

  lemma OneMoreEvent(events: seq<Event>, e: Event, sights: seq<Sight>, s: Sight, optopt: int, vars: map<nat, int>,
                     optopt0: int, vars0: map<nat, int>)
    requires Told(events, sights, optopt, vars, optopt0, vars0) && Shown(e, s, optopt, vars)
    ensures Told(events + [e], sights + [s], s.optopt, s.vars, optopt0, vars0)
  {
    forall k | 0 <= k < |events| + 1
      ensures ShownAt(events + [e], sights + [s], k, optopt0, vars0)
    {
      assert k < |events| ==> ShownAt(events, sights, k, optopt0, vars0);
    }
  }

  /**
    A whole scan: the options with their arguments, the non-options that were passed over, the rest that
    was never looked at, and what the calls delivered. halted: the scan ended at a lone '-' in a cluster.
   */
  datatype Parsed = Parsed(opts: seq<string>, nonopts: seq<string>, tail: seq<string>, events: seq<Event>, halted: bool)

  predicate IsNonOption(arg: string) {
    arg == "" || arg[0] != '-' || |arg| == 1
  }

  function Parse(cfg: Config, args: seq<string>, off: nat): Parsed
    requires WellFormed(cfg) && (off > 0 ==> |args| > 0 && off < |args[0]|)
    decreases |args|, if off > 0 then |args[0]| - off else if args == [] then 0 else |args[0]|
  {
    if off > 0 then Deliver(cfg, args, off)
    else if args == [] then Parsed([], [], [], [], false)
    else if IsNonOption(args[0]) then
      match cfg.mode
      case InOrder =>
        var p := Parse(cfg, args[1..], 0);
        p.(opts := [args[0]] + p.opts, events := [Plain(INORDER, Some(args[0]))] + p.events)
      case Posix => Parsed([], [], args, [], false)
      case Permuting =>
        var p := Parse(cfg, args[1..], 0);
        p.(nonopts := [args[0]] + p.nonopts)
    else if args[0] == "--" then Parsed([args[0]], [], args[1..], [], false)
    else Deliver(cfg, args, 1)
  }

  function Deliver(cfg: Config, args: seq<string>, off: nat): Parsed
    requires WellFormed(cfg) && |args| > 0 && 1 <= off < |args[0]|
    decreases |args|, |args[0]| - off, 0
  {
    var o := LexAt(cfg, args, off);
    if o.ret == -1 then Parsed([], [], args, [], true)
    else
      var p := Parse(cfg, args[o.taken..], o.off);
      p.(opts := args[..o.taken] + p.opts, events := [Reported(o)] + p.events)
  }

  // -- a scan is a stable partition of its arguments --

  datatype Kind = Option_ | Operand | Unseen

  /** The arguments of one kind, in their original order. */
  function Pick(args: seq<string>, kinds: seq<Kind>, kind: Kind): (r: seq<string>)
    requires |kinds| == |args|
  {
    if args == [] then [] else (if kinds[0] == kind then [args[0]] else []) + Pick(args[1..], kinds[1..], kind)
  }

  lemma {:induction false} PickAppend(a: seq<string>, b: seq<string>, ka: seq<Kind>, kb: seq<Kind>, kind: Kind)
    requires |ka| == |a| && |kb| == |b|
    ensures Pick(a + b, ka + kb, kind) == Pick(a, ka, kind) + Pick(b, kb, kind)
  {
    if a == [] {
      assert a + b == b && ka + kb == kb;
    } else {
      assert (a + b)[1..] == a[1..] + b && (ka + kb)[1..] == ka[1..] + kb;
      PickAppend(a[1..], b, ka[1..], kb, kind);
    }
  }

  lemma {:induction false} PickUniform(a: seq<string>, ka: seq<Kind>, k: Kind, kind: Kind)
    requires |ka| == |a| && forall i :: 0 <= i < |ka| ==> ka[i] == k
    ensures Pick(a, ka, kind) == if k == kind then a else []
  {
    if a != [] {
      PickUniform(a[1..], ka[1..], k, kind);
    }
  }

  /** The three kinds together hold every argument exactly as often as it was given. */
  lemma {:induction false} PickConserves(args: seq<string>, kinds: seq<Kind>)
    requires |kinds| == |args|
    ensures multiset(Pick(args, kinds, Option_)) + multiset(Pick(args, kinds, Operand)) + multiset(Pick(args, kinds, Unseen))
      == multiset(args)
  {
    if args != [] {
      assert args == [args[0]] + args[1..];
      PickConserves(args[1..], kinds[1..]);
    }
  }

  ghost predicate Partitions(p: Parsed, args: seq<string>, kinds: seq<Kind>) {
    && |kinds| == |args|
    && p.opts == Pick(args, kinds, Option_)
    && p.nonopts == Pick(args, kinds, Operand)
    && p.tail == Pick(args, kinds, Unseen)
    && (forall i :: 0 <= i < |args| && kinds[i] == Operand ==> IsNonOption(args[i]))
    && (forall i, j :: 0 <= i < j < |args| && kinds[i] == Unseen ==> kinds[j] == Unseen)
  }

  lemma PickPrepend(args: seq<string>, n: nat, k: Kind, kinds: seq<Kind>, kind: Kind)
    requires n <= |args| && |kinds| == |args| - n
    ensures Pick(args, seq(n, _ => k) + kinds, kind) == (if k == kind then args[..n] else []) + Pick(args[n..], kinds, kind)
  {
    assert args == args[..n] + args[n..];
    PickAppend(args[..n], args[n..], seq(n, _ => k), kinds, kind);
    PickUniform(args[..n], seq(n, _ => k), k, kind);
  }

  /** Prepending n arguments of one kind. */
  lemma PartitionsPrepend(p: Parsed, q: Parsed, args: seq<string>, n: nat, k: Kind, kinds: seq<Kind>) returns (r: seq<Kind>)
    requires n <= |args| && Partitions(q, args[n..], kinds) && k != Unseen
    requires k == Operand ==> forall i :: 0 <= i < n ==> IsNonOption(args[i])
    requires p.opts == (if k == Option_ then args[..n] else []) + q.opts
    requires p.nonopts == (if k == Operand then args[..n] else []) + q.nonopts
    requires p.tail == q.tail
    ensures Partitions(p, args, r) && r == seq(n, _ => k) + kinds
  {
    r := seq(n, _ => k) + kinds;
    PickPrepend(args, n, k, kinds, Option_);
    PickPrepend(args, n, k, kinds, Operand);
    PickPrepend(args, n, k, kinds, Unseen);
    forall i | 0 <= i < |args| && r[i] == Operand
      ensures IsNonOption(args[i])
    {
      if i >= n {
        assert kinds[i - n] == Operand && args[n..][i - n] == args[i];
      }
    }
  }

  lemma PartitionsUnseen(p: Parsed, args: seq<string>) returns (r: seq<Kind>)
    requires p.opts == [] && p.nonopts == [] && p.tail == args
    ensures Partitions(p, args, r) && r == seq(|args|, _ => Unseen)
  {
    r := seq(|args|, _ => Unseen);
    PickUniform(args, r, Unseen, Option_);
    PickUniform(args, r, Unseen, Operand);
    PickUniform(args, r, Unseen, Unseen);
  }

  /** Without permutation there are no operands, so options and rest are argv as it was. */
  lemma {:induction false} UnpermutedScanKeepsOrder(cfg: Config, args: seq<string>, off: nat)
    requires WellFormed(cfg) && (off > 0 ==> |args| > 0 && off < |args[0]|) && cfg.mode != Permuting
    ensures var p := Parse(cfg, args, off); p.nonopts == [] && p.opts + p.tail == args
    decreases |args|, if off > 0 then |args[0]| - off else if args == [] then 0 else |args[0]|
  {
    if args != [] {
      if off == 0 && IsNonOption(args[0]) {
        if cfg.mode == InOrder {
          UnpermutedScanKeepsOrder(cfg, args[1..], 0);
        }
      } else if off > 0 || args[0] != "--" {
        UnpermutedDelivery(cfg, args, if off == 0 then 1 else off);
      }
    }
  }

  lemma {:induction false} UnpermutedDelivery(cfg: Config, args: seq<string>, off: nat)
    requires WellFormed(cfg) && |args| > 0 && 1 <= off < |args[0]| && cfg.mode != Permuting
    ensures var p := Deliver(cfg, args, off); p.nonopts == [] && p.opts + p.tail == args
    decreases |args|, |args[0]| - off, 0
  {
    var o := LexAt(cfg, args, off);
    if o.ret != -1 {
      UnpermutedScanKeepsOrder(cfg, args[o.taken..], o.off);
      Rejoin(args, o.taken, Parse(cfg, args[o.taken..], o.off).opts, Parse(cfg, args[o.taken..], o.off).tail);
    }
  }

  lemma Rejoin(args: seq<string>, n: nat, opts: seq<string>, tail: seq<string>)
    requires n <= |args| && opts + tail == args[n..]
    ensures (args[..n] + opts) + tail == args
  {
    assert (args[..n] + opts) + tail == args[..n] + (opts + tail);
  }

  /** args ends with "--" and then tail. */
  predicate EndsAfterDashDash(args: seq<string>, tail: seq<string>) {
    && |tail| < |args|
    && args[|args| - |tail| - 1] == "--"
    && args[|args| - |tail|..] == tail
  }

  lemma EndsAfterDrop(args: seq<string>, n: nat, tail: seq<string>)
    requires n <= |args| && EndsAfterDashDash(args[n..], tail)
    ensures EndsAfterDashDash(args, tail)
  {
    var k := |args| - |tail|;
    assert args[n..][k - n - 1] == args[k - 1];
    assert args[n..][k - n..] == args[k..];
  }

  /** In permuting mode the scan leaves something unseen only behind a "--", which it counts among the options. */
  lemma {:induction false} RestFollowsDashDash(cfg: Config, args: seq<string>, off: nat)
    requires WellFormed(cfg) && (off > 0 ==> |args| > 0 && off < |args[0]|) && cfg.mode == Permuting
    ensures var p := Parse(cfg, args, off);
      !p.halted && p.tail != [] ==> EndsAfterDashDash(args, p.tail) && "--" in p.opts
    decreases |args|, if off > 0 then |args[0]| - off else if args == [] then 0 else |args[0]|
  {
    if args != [] {
      if off == 0 && IsNonOption(args[0]) {
        RestFollowsDashDash(cfg, args[1..], 0);
        var q := Parse(cfg, args[1..], 0);
        if !q.halted && q.tail != [] {
          EndsAfterDrop(args, 1, q.tail);
        }
      } else if off > 0 || args[0] != "--" {
        var o := LexAt(cfg, args, if off == 0 then 1 else off);
        if o.ret != -1 {
          RestFollowsDashDash(cfg, args[o.taken..], o.off);
          var q := Parse(cfg, args[o.taken..], o.off);
          if !q.halted && q.tail != [] {
            EndsAfterDrop(args, o.taken, q.tail);
          }
        }
      }
    }
  }

  // -- scans that end at a lone '-' --

  /** A caller that passes a long table, or lists '-' as an option, never sees such a scan ... */
  lemma {:induction false} NeverHalts(cfg: Config, args: seq<string>, off: nat)
    requires WellFormed(cfg) && (off > 0 ==> |args| > 0 && off < |args[0]|)
    requires cfg.long.Some? || '-' in cfg.options
    ensures !Parse(cfg, args, off).halted
    decreases |args|, if off > 0 then |args[0]| - off else if args == [] then 0 else |args[0]|
  {
    if args != [] {
      if off == 0 && IsNonOption(args[0]) {
        if cfg.mode != Posix {
          NeverHalts(cfg, args[1..], 0);
        }
      } else if off > 0 || args[0] != "--" {
        var o := LexAt(cfg, args, if off == 0 then 1 else off);
        NeverHalts(cfg, args[o.taken..], o.off);
      }
    }
  }

  /** ... and every other caller does on some arguments. */
  lemma HaltsOtherwise(cfg: Config) returns (args: seq<string>)
    requires cfg.long == None && '-' !in cfg.options
    ensures Parse(cfg, args, 0).halted
  {
    args := ["-:-"];
    assert LexAt(cfg, args, 1) == Reject(BADCH, ':' as int, 0, 2);
    assert args[0][3..] == "";
    assert LexAt(cfg, args, 2).ret == -1;
    assert args[0..] == args;
    assert Parse(cfg, args, 2) == Deliver(cfg, args, 2);
    assert Parse(cfg, args, 0) == Deliver(cfg, args, 1);
  }
}
