/**
  IXLandSystem/getopt_long.c, the scanner: getopt_internal with its static state, and the calling loop
  that runs it to the end of argv.
 */
module Getopt {
  import opened Wrappers
  import opened LongOptions
  import opened Scan
  import opened Traces
  import opened Permute

  /** A char pointer into a string; it points at the terminating NUL when off is the length. */
  datatype Cursor = Cursor(text: string, off: nat) {
    function Rest(): string {
      if off <= |text| then text[off..] else ""
    }
  }

  const EMSG := Cursor("", 0)

  /** The part of the scanner's state that says where it is in argv. */
  datatype Position = Position(optind: int, place: Cursor, nonoptStart: int, nonoptEnd: int, optreset: bool)

  predicate Resetting(p: Position) {
    p.optreset || p.optind == 0
  }

  /** Between two calls, or anywhere in the loop that looks for the next option. */
  ghost predicate Coherent(p: Position, argv: seq<string>) {
    if Resetting(p) then p.optind >= 0
    else
      && p.optind >= 1
      && (p.optind > |argv| ==> p.nonoptStart == p.nonoptEnd == -1)
      && (p.place.Rest() != "" ==> p.optind < |argv| && p.place.text == argv[p.optind] && p.place.off >= 1)
      && (p.nonoptStart == -1 ==> p.nonoptEnd == -1)
      && (p.nonoptStart != -1 ==> 1 <= p.nonoptStart < p.optind)
      && (p.nonoptStart != -1 && p.nonoptEnd == -1 ==> p.place.Rest() == "")
      && (p.nonoptEnd != -1 ==> p.nonoptStart < p.nonoptEnd <= p.optind && (p.place.Rest() == "" ==> p.nonoptEnd < p.optind))
  }

  /** What argv and the state stand for: what is behind the scan, the operands it holds back, and what lies ahead. */
  datatype View = View(front: seq<string>, skipped: seq<string>, unread: seq<string>, off: nat)

  ghost function Start(p: Position, argv: seq<string>): nat
    requires p.optind >= 0
  {
    var start := if p.optind == 0 then 1 else p.optind;
    if start <= |argv| then start else |argv|
  }

  ghost function ViewOf(p: Position, argv: seq<string>): (v: View)
    requires Coherent(p, argv)
    ensures v.off > 0 ==> v.unread != [] && v.off < |v.unread[0]|
  {
    if Resetting(p) || p.optind > |argv| then View(argv[..Start(p, argv)], [], argv[Start(p, argv)..], 0)
    else Split(p, argv, if p.place.Rest() == "" then 0 else p.place.off)
  }

  predicate InRange(p: Position, argv: seq<string>) {
    && 0 <= p.optind <= |argv|
    && (p.nonoptStart == -1 ==> p.nonoptEnd == -1)
    && (p.nonoptStart != -1 ==> 0 <= p.nonoptStart <= p.optind)
    && (p.nonoptEnd != -1 ==> p.nonoptStart <= p.nonoptEnd <= p.optind)
  }

  /** argv cut up at nonopt_start, nonopt_end and optind. */
  function Split(p: Position, argv: seq<string>, off: nat): View
    requires InRange(p, argv)
  {
    var s := if p.nonoptStart == -1 then p.optind else p.nonoptStart;
    var e := if p.nonoptEnd == -1 then p.optind else p.nonoptEnd;
    View(argv[..s] + argv[e..p.optind], argv[s..e], argv[p.optind..], off)
  }

  /** How the whole scan will have sorted argv by the time it ends, and what it has yet to deliver. */
  ghost function Total(cfg: Config, v: View): Parsed
    requires WellFormed(cfg) && (v.off > 0 ==> v.unread != [] && v.off < |v.unread[0]|)
  {
    var p := Parse(cfg, v.unread, v.off);
    p.(opts := v.front + p.opts, nonopts := v.skipped + p.nonopts)
  }

  lemma ExchangeParts(a: seq<string>, s: nat, e: nat, t: nat)
    requires s <= e <= t <= |a|
    ensures var b := Exchange(a, s, e, t);
      && b[..s + (t - e)] == a[..s] + a[e..t]
      && b[s + (t - e)..t] == a[s..e]
      && b[t..] == a[t..]
      && multiset(b) == multiset(a)
  {
    var b := Exchange(a, s, e, t);
    assert b == (a[..s] + a[e..t]) + (a[s..e] + a[t..]);
    assert a == ((a[..s] + a[s..e]) + a[e..t]) + a[t..];
    assert b[s + (t - e)..t] == a[s..e];
    assert b[t..] == a[t..];
  }

  // -- how the moves of the scanner change the view --

  /** Looking for the next argument, with a pending reset carried out. */
  ghost predicate Looking(p: Position, argv: seq<string>) {
    !Resetting(p) && p.place == EMSG && Coherent(p, argv)
  }

  function Cleared(p: Position): Position {
    p.(optreset := false, place := EMSG)
  }

  /** The operands held back are moved behind the options scanned since. */
  function Settle(p: Position, argv: seq<string>): seq<string>
    requires p.nonoptEnd != -1 ==> 0 <= p.nonoptStart <= p.nonoptEnd <= p.optind <= |argv|
  {
    if p.nonoptEnd != -1 then Exchange(argv, p.nonoptStart, p.nonoptEnd, p.optind) else argv
  }

  /** Where they start then. */
  function SettledStart(p: Position): int {
    if p.nonoptEnd != -1 then p.optind - (p.nonoptEnd - p.nonoptStart)
    else if p.nonoptStart != -1 then p.nonoptStart
    else p.optind
  }

  function PassedOverPos(p: Position): Position {
    p.(nonoptStart := SettledStart(p), nonoptEnd := -1, optind := p.optind + 1)
  }

  function FinishedPos(p: Position): Position {
    p.(optind := SettledStart(p), nonoptStart := -1, nonoptEnd := -1)
  }

  /** The scan is over: argv is sorted, and optind is at the first argument behind the options. */
  ghost predicate Finished(p: Position, argv: seq<string>, front: seq<string>, skipped: seq<string>, rest: seq<string>) {
    && argv == front + skipped + rest
    && Looking(p, argv) && p.nonoptStart == p.nonoptEnd == -1
    && (p.optind > |argv| || p.optind == |front|)
  }

  lemma Settled(p: Position, argv: seq<string>)
    requires Looking(p, argv) && p.optind <= |argv|
    ensures var v, b, s := ViewOf(p, argv), Settle(p, argv), SettledStart(p);
      && |b| == |argv| && 1 <= s <= p.optind && s == |v.front|
      && b[..s] == v.front && b[s..p.optind] == v.skipped && b[p.optind..] == v.unread
      && Finished(FinishedPos(p), b, v.front, v.skipped, v.unread)
      && multiset(b) == multiset(argv)
  {
    var b, s := Settle(p, argv), SettledStart(p);
    if p.nonoptEnd != -1 {
      ExchangeParts(argv, p.nonoptStart, p.nonoptEnd, p.optind);
    }
    assert b == b[..s] + b[s..p.optind] + b[p.optind..];
  }

  /** An operand is passed over: it joins the ones held back, which have first been moved up to it. */
  lemma PassedOver(p: Position, argv: seq<string>)
    requires Looking(p, argv) && p.optind < |argv|
    ensures var v, b := ViewOf(p, argv), Settle(p, argv);
      && |b| == |argv| && Looking(PassedOverPos(p), b)
      && ViewOf(PassedOverPos(p), b) == View(v.front, v.skipped + [v.unread[0]], v.unread[1..], 0)
  {
    Settled(p, argv);
    var b := Settle(p, argv);
    var s := SettledStart(p);
    assert b[s..p.optind + 1] == b[s..p.optind] + [b[p.optind]];
    assert b[..s] + b[p.optind + 1..p.optind + 1] == b[..s];
    assert b[p.optind] == b[p.optind..][0];
  }

  /** The argument at optind is an option: the operands held back end in front of it. */
  function Opened(p: Position): Position {
    if p.nonoptStart != -1 && p.nonoptEnd == -1 then p.(nonoptEnd := p.optind) else p
  }

  lemma OpenedView(p: Position, argv: seq<string>)
    requires Looking(p, argv) && p.optind < |argv| && |argv[p.optind]| > 1
    ensures var p' := Opened(p).(place := Cursor(argv[p.optind], 1));
      && Coherent(p', argv) && !Resetting(p')
      && ViewOf(p', argv) == ViewOf(p, argv).(off := 1)
  {
  }

  /** The argument at optind is taken whole. */
  lemma TakenWhole(p: Position, argv: seq<string>)
    requires Looking(p, argv) && p.optind < |argv|
    ensures var v := ViewOf(p, argv);
      var p' := Opened(p).(optind := p.optind + 1);
      && Looking(p', argv)
      && ViewOf(p', argv) == View(v.front + [v.unread[0]], v.skipped, v.unread[1..], 0)
  {
    var e := if Opened(p).nonoptEnd == -1 then p.optind + 1 else Opened(p).nonoptEnd;
    if e <= p.optind {
      assert argv[e..p.optind + 1] == argv[e..p.optind] + [argv[p.optind]];
    } else {
      assert argv[..p.optind + 1] == argv[..p.optind] + [argv[p.optind]];
    }
  }

  /** An option is delivered: o.taken arguments are behind the scan, which is o.off into the next. */
  lemma DeliveredView(p: Position, argv: seq<string>, o: Outcome, place: Cursor)
    requires Coherent(p, argv) && !Resetting(p) && p.place.Rest() != "" && o.taken <= |argv| - p.optind
    requires if o.off == 0 then o.taken > 0 && place.Rest() == ""
             else o.taken == 0 && 1 <= o.off < |p.place.text| && place == Cursor(p.place.text, o.off)
    ensures var v := ViewOf(p, argv);
      var p' := p.(optind := p.optind + o.taken, place := place);
      && Coherent(p', argv) && !Resetting(p')
      && ViewOf(p', argv) == View(v.front + v.unread[..o.taken], v.skipped, v.unread[o.taken..], o.off)
  {
    var p' := p.(optind := p.optind + o.taken, place := place);
    DeliveredCoherent(p, argv, o, p');
    var v, v' := ViewOf(p, argv), ViewOf(p', argv);
    SplitGrows(p, argv, p', p.place.off, o.off);
    Slices(argv, p.optind, p'.optind);
    assert v.unread == argv[p.optind..];
  }

  lemma DeliveredCoherent(p: Position, argv: seq<string>, o: Outcome, p': Position)
    requires Coherent(p, argv) && !Resetting(p) && p.place.Rest() != "" && o.taken <= |argv| - p.optind
    requires if o.off == 0 then o.taken > 0 && p'.place.Rest() == ""
             else o.taken == 0 && 1 <= o.off < |p.place.text| && p'.place == Cursor(p.place.text, o.off)
    requires p' == p.(optind := p.optind + o.taken, place := p'.place)
    ensures Coherent(p', argv) && !Resetting(p') && InRange(p, argv) && InRange(p', argv)
    ensures ViewOf(p, argv) == Split(p, argv, p.place.off)
    ensures ViewOf(p', argv) == Split(p', argv, o.off)
  {
  }

  lemma SplitGrows(p: Position, argv: seq<string>, p': Position, off: nat, off': nat)
    requires InRange(p, argv) && p.optind <= p'.optind <= |argv| && (p.nonoptStart != -1 ==> p.nonoptEnd != -1)
    requires p'.nonoptStart == p.nonoptStart && p'.nonoptEnd == p.nonoptEnd
    ensures var v := Split(p, argv, off);
      Split(p', argv, off') == View(v.front + argv[p.optind..p'.optind], v.skipped, argv[p'.optind..], off')
  {
    var t := p'.optind;
    if p.nonoptEnd != -1 {
      assert argv[p.nonoptEnd..t] == argv[p.nonoptEnd..p.optind] + argv[p.optind..t];
      assert argv[..p.nonoptStart] + (argv[p.nonoptEnd..p.optind] + argv[p.optind..t])
        == argv[..p.nonoptStart] + argv[p.nonoptEnd..p.optind] + argv[p.optind..t];
    } else {
      assert argv[..t] + argv[t..t] == argv[..p.optind] + argv[p.optind..p.optind] + argv[p.optind..t];
    }
  }

  lemma Slices(a: seq<string>, j: nat, k: nat)
    requires j <= k <= |a|
    ensures a[j..][..k - j] == a[j..k] && a[j..][k - j..] == a[k..]
  {
    assert a[j..][..k - j] == a[j..k];
    assert a[j..][k - j..] == a[k..];
  }

  ghost predicate Callable(cfg: Config, p: Position, argv: seq<string>) {
    && WellFormed(cfg) && Coherent(p, argv)
    && (cfg.mode != Permuting && !Resetting(p) ==> p.nonoptStart == -1)
  }

  ghost function Outlook(cfg: Config, p: Position, argv: seq<string>): Parsed
    requires Callable(cfg, p, argv)
  {
    Total(cfg, ViewOf(p, argv))
  }

  /** The unread arguments are where they were, and argv holds the same arguments. */
  predicate Fits(p: Position, argv: seq<string>) {
    0 <= p.optind <= |argv| && argv != []
  }

  predicate SameUnread(p: Position, a: seq<string>, p': Position, a': seq<string>) {
    && |a'| == |a| && multiset(a') == multiset(a)
    && 0 <= p.optind <= p'.optind && (p'.optind <= |a| ==> a'[p'.optind..] == a[p'.optind..])
  }

  /** From (p, a) to (p', a') nothing has been delivered and the outcome of the scan is the same. */
  ghost predicate Progress(cfg: Config, p: Position, a: seq<string>, p': Position, a': seq<string>) {
    && Callable(cfg, p, a) && Callable(cfg, p', a')
    && SameUnread(p, a, p', a')
    && Outlook(cfg, p', a') == Outlook(cfg, p, a)
    && (Fits(p, a) ==> Fits(p', a'))
  }

  /** Mentioned where the definition of CallDelivers is needed; the verifier leaves it folded elsewhere. */
  ghost predicate Spelled(e: Event, n: int) { true }

  /**
    What a call with the state p and argv a does, leaving p' and a': it delivers the first event of the
    scan that is still to come and leaves the rest of that scan to later calls; or there is none left,
    and argv is sorted.
   */
  ghost predicate CallDelivers(cfg: Config, p: Position, a: seq<string>, p': Position, a': seq<string>, e: Event) {
    forall n {:trigger Spelled(e, n)} :: Spelled(e, n) ==>
      && Callable(cfg, p, a)
      && |a'| == |a| && multiset(a') == multiset(a)
      && (Fits(p, a) ==> Fits(p', a'))
      && var t := Outlook(cfg, p, a);
      if t.events != [] then
        && e.ret != -1 && t.events[0] == e
        && Callable(cfg, p', a') && !Resetting(p')
        && Outlook(cfg, p', a') == t.(events := t.events[1..])
        && SameUnread(p, a, p', a')
      else
        && e == DONE
        && if t.halted then InRange(p', a') && Split(p', a', 0) == View(t.opts, t.nonopts, t.tail, 0)
           else Finished(p', a', t.opts, t.nonopts, t.tail)
  }

  lemma SkipsOperand(cfg: Config, p: Position, a: seq<string>)
    requires Callable(cfg, p, a) && Looking(p, a) && p.optind < |a| && IsNonOption(a[p.optind]) && cfg.mode == Permuting
    ensures |Settle(p, a)| == |a| && Progress(cfg, p, a, PassedOverPos(p), Settle(p, a))
  {
    Settled(p, a);
    PassedOver(p, a);
    SkipKeepsTotal(cfg, ViewOf(p, a));
    SuffixKept(Settle(p, a), a, p.optind);
  }

  lemma SkipKeepsTotal(cfg: Config, v: View)
    requires WellFormed(cfg) && v.off == 0 && v.unread != [] && IsNonOption(v.unread[0]) && cfg.mode == Permuting
    ensures Total(cfg, View(v.front, v.skipped + [v.unread[0]], v.unread[1..], 0)) == Total(cfg, v)
  {
    var q := Parse(cfg, v.unread[1..], 0);
    assert v.skipped + ([v.unread[0]] + q.nonopts) == (v.skipped + [v.unread[0]]) + q.nonopts;
  }

  lemma SuffixKept(b: seq<string>, a: seq<string>, i: nat)
    requires |b| == |a| && i < |a| && b[i..] == a[i..]
    ensures b[i + 1..] == a[i + 1..]
  {
    assert b[i + 1..] == b[i..][1..];
    assert a[i + 1..] == a[i..][1..];
  }

  lemma OpensOption(cfg: Config, p: Position, a: seq<string>)
    requires Callable(cfg, p, a) && Looking(p, a) && p.optind < |a| && !IsNonOption(a[p.optind]) && a[p.optind] != "--"
    ensures Progress(cfg, p, a, Opened(p).(place := Cursor(a[p.optind], 1)), a)
  {
    OpenedView(p, a);
    var u := ViewOf(p, a).unread;
    assert Parse(cfg, u, 0) == Deliver(cfg, u, 1) == Parse(cfg, u, 1);
  }

  lemma DeliversArgument(cfg: Config, p: Position, a: seq<string>)
    requires Callable(cfg, p, a) && Looking(p, a) && p.optind < |a| && IsNonOption(a[p.optind]) && cfg.mode == InOrder
    ensures CallDelivers(cfg, p, a, p.(optind := p.optind + 1), a, Plain(INORDER, Some(a[p.optind])))
  {
    TakenWhole(p, a);
    var v := ViewOf(p, a);
    var q := Parse(cfg, v.unread[1..], 0);
    assert v.front + ([v.unread[0]] + q.opts) == (v.front + [v.unread[0]]) + q.opts;
  }

  lemma StopsAtDashDash(cfg: Config, p: Position, a: seq<string>)
    requires Callable(cfg, p, a) && Looking(p, a) && p.optind < |a| && a[p.optind] == "--"
    ensures var q := Opened(p).(optind := p.optind + 1);
      CallDelivers(cfg, p, a, FinishedPos(q), Settle(q, a), DONE)
  {
    TakenWhole(p, a);
    Settled(Opened(p).(optind := p.optind + 1), a);
  }

  lemma StopsAtEnd(cfg: Config, p: Position, a: seq<string>)
    requires Callable(cfg, p, a) && Looking(p, a) && p.optind >= |a|
    ensures CallDelivers(cfg, p, a, FinishedPos(p), Settle(p, a), DONE)
  {
    var v := ViewOf(p, a);
    assert v.unread == [];
    assert Outlook(cfg, p, a) == Parsed(v.front, v.skipped, [], [], false) by {
      assert v.front + [] == v.front && v.skipped + [] == v.skipped;
    }
    if p.optind == |a| {
      Settled(p, a);
    }
  }

  lemma DeliversOption(cfg: Config, p: Position, a: seq<string>, o: Outcome, place: Cursor)
    requires Callable(cfg, p, a) && !Resetting(p) && p.place.Rest() != "" && o == LexAt(cfg, a[p.optind..], p.place.off)
    requires if o.off > 0 then place == Cursor(p.place.text, o.off) else place.Rest() == ""
    ensures CallDelivers(cfg, p, a, p.(optind := p.optind + o.taken, place := place), a, Reported(o))
  {
    var v := ViewOf(p, a);
    assert Parse(cfg, v.unread, v.off) == Deliver(cfg, v.unread, v.off);
    if o.ret == -1 {
      assert Outlook(cfg, p, a) == Parsed(v.front + [], v.skipped + [], v.unread, [], true);
    } else {
      DeliveredView(p, a, o, place);
      DeliverTotal(cfg, v, o);
      assert SameUnread(p, a, p.(optind := p.optind + o.taken, place := place), a);
    }
  }

  lemma DeliverTotal(cfg: Config, v: View, o: Outcome)
    requires WellFormed(cfg) && v.off > 0 && v.unread != [] && v.off < |v.unread[0]|
    requires o == LexAt(cfg, v.unread, v.off) && o.ret != -1
    ensures var t := Total(cfg, v);
      && t.events != [] && t.events[0] == Reported(o)
      && Total(cfg, View(v.front + v.unread[..o.taken], v.skipped, v.unread[o.taken..], o.off)) == t.(events := t.events[1..])
  {
    assert Parse(cfg, v.unread, v.off) == Deliver(cfg, v.unread, v.off);
    var q := Parse(cfg, v.unread[o.taken..], o.off);
    assert v.front + (v.unread[..o.taken] + q.opts) == (v.front + v.unread[..o.taken]) + q.opts;
  }

  lemma ProgressTransitive(cfg: Config, p0: Position, a0: seq<string>, p1: Position, a1: seq<string>, p2: Position, a2: seq<string>)
    requires Progress(cfg, p0, a0, p1, a1) && Progress(cfg, p1, a1, p2, a2)
    ensures Progress(cfg, p0, a0, p2, a2)
  {
    UnreadTransitive(p0, a0, p1, a1, p2, a2);
  }

  lemma UnreadTransitive(p0: Position, a0: seq<string>, p1: Position, a1: seq<string>, p2: Position, a2: seq<string>)
    requires SameUnread(p0, a0, p1, a1) && SameUnread(p1, a1, p2, a2)
    ensures SameUnread(p0, a0, p2, a2)
  {
    if p2.optind <= |a0| {
      assert a1[p2.optind..] == a1[p1.optind..][p2.optind - p1.optind..];
      assert a0[p2.optind..] == a0[p1.optind..][p2.optind - p1.optind..];
    }
  }

  lemma DeliversAfterProgress(cfg: Config, p0: Position, a0: seq<string>, p: Position, a: seq<string>,
                              p': Position, a': seq<string>, e: Event)
    requires Progress(cfg, p0, a0, p, a) && CallDelivers(cfg, p, a, p', a', e)
    ensures CallDelivers(cfg, p0, a0, p', a', e)
  {
    assert Spelled(e, 0);
    if Outlook(cfg, p, a).events != [] {
      UnreadTransitive(p0, a0, p, a, p', a');
    }
  }

  lemma DeliversOptionAfterProgress(cfg: Config, p0: Position, a0: seq<string>, p: Position, a: seq<string>, o: Outcome,
                                    p': Position, a': seq<string>)
    requires Progress(cfg, p0, a0, p, a)
    requires !Resetting(p) && p.place.Rest() != "" && o == LexAt(cfg, a[p.optind..], p.place.off)
    requires if o.off > 0 then p'.place == Cursor(p.place.text, o.off) else p'.place.Rest() == ""
    requires p' == p.(optind := p.optind + o.taken, place := p'.place) && a' == a
    ensures CallDelivers(cfg, p0, a0, p', a', Reported(o))
  {
    DeliversOption(cfg, p, a, o, p'.place);
    DeliversAfterProgress(cfg, p0, a0, p, a, p', a', Reported(o));
  }

  /** events have been delivered since (p0, a0), and left are still to come. */
  ghost predicate ScannedSoFar(cfg: Config, p0: Position, a0: seq<string>, events: seq<Event>, p: Position, a: seq<string>,
                               left: seq<Event>) {
    && Callable(cfg, p0, a0) && Callable(cfg, p, a)
    && multiset(a) == multiset(a0) && (Fits(p0, a0) ==> Fits(p, a))
    && var t0 := Outlook(cfg, p0, a0);
    && events + left == t0.events
    && Outlook(cfg, p, a) == t0.(events := left)
  }

  lemma ScanGoesOn(cfg: Config, p0: Position, a0: seq<string>, events: seq<Event>, p: Position, a: seq<string>, left: seq<Event>,
                   p': Position, a': seq<string>, e: Event)
    requires ScannedSoFar(cfg, p0, a0, events, p, a, left)
    requires CallDelivers(cfg, p, a, p', a', e) && e.ret != -1
    ensures left != [] && ScannedSoFar(cfg, p0, a0, events + [e], p', a', left[1..])
  {
    assert Spelled(e, 0);
    assert left == [left[0]] + left[1..];
  }

  /** What a whole scan from (p0, a0) leaves behind. */
  ghost predicate Scanned(cfg: Config, p0: Position, a0: seq<string>, events: seq<Event>, p': Position, a': seq<string>) {
    && Callable(cfg, p0, a0)
    && multiset(a') == multiset(a0) && (Fits(p0, a0) ==> Fits(p', a'))
    && var t := Outlook(cfg, p0, a0);
    && events == t.events
    && if t.halted then InRange(p', a') && Split(p', a', 0) == View(t.opts, t.nonopts, t.tail, 0)
       else Finished(p', a', t.opts, t.nonopts, t.tail)
  }

  lemma ScanEnds(cfg: Config, p0: Position, a0: seq<string>, events: seq<Event>, p: Position, a: seq<string>, left: seq<Event>,
                 p': Position, a': seq<string>, e: Event)
    requires ScannedSoFar(cfg, p0, a0, events, p, a, left)
    requires CallDelivers(cfg, p, a, p', a', e) && e.ret == -1
    ensures Scanned(cfg, p0, a0, events, p', a') && e == DONE
  {
    assert Spelled(e, 0);
  }

  // -- the same in terms of the rules --

  /** What lies ahead of a scan: the legs it will go, and the sort of each argument that is still unread. */
  datatype Course = Course(legs: seq<Leg>, kinds: seq<Kind>)

  ghost predicate LiesAhead(cfg: Config, v: View, c: Course) {
    && Traced(cfg, v.unread, Spot(0, v.off), c.legs)
    && |c.kinds| == |v.unread| && SortedBy(v.unread, 0, c.legs, c.kinds)
  }

  /** How that sorts argv: what is behind the scan with the options, the operands, and the unseen rest. */
  ghost function Sorted(v: View, c: Course): View
    requires |c.kinds| == |v.unread|
  {
    View(v.front + Pick(v.unread, c.kinds, Option_), v.skipped + Pick(v.unread, c.kinds, Operand), Pick(v.unread, c.kinds, Unseen), 0)
  }

  /** The scan is over, after this course; only at a lone '-' are operands left where they were. */
  ghost predicate Over(cfg: Config, v: View, c: Course, p': Position, a': seq<string>) {
    && |c.kinds| == |v.unread|
    && var w := Sorted(v, c);
       if Halts(cfg, v.unread, EndOf(Spot(0, v.off), c.legs)) then InRange(p', a') && Split(p', a', 0) == w
       else Finished(p', a', w.front, w.skipped, w.unread)
  }

  /**
    A call with this view and course delivers the first event on the course, and leaves the rest of the
    course ahead, with argv sorted the same way in the end; or there is none, and the scan is over.
   */
  ghost predicate Delivers(cfg: Config, v: View, now: Course, p': Position, a': seq<string>, e: Event, later: Course) {
    && LiesAhead(cfg, v, now)
    && var events := EventsOf(now.legs);
       if events == [] then e == Event(-1, None, None, None, None) && Over(cfg, v, now, p', a')
       else
         && e == events[0] && e.ret != -1
         && Callable(cfg, p', a') && !Resetting(p')
         && LiesAhead(cfg, ViewOf(p', a'), later) && EventsOf(later.legs) == events[1..]
         && Sorted(ViewOf(p', a'), later) == Sorted(v, now)
  }

  lemma OutlookIsCourse(cfg: Config, p: Position, a: seq<string>) returns (c: Course)
    requires Callable(cfg, p, a)
    ensures var v, t := ViewOf(p, a), Outlook(cfg, p, a);
      && LiesAhead(cfg, v, c) && EventsOf(c.legs) == t.events
      && Sorted(v, c) == View(t.opts, t.nonopts, t.tail, 0)
      && (t.halted <==> Halts(cfg, v.unread, EndOf(Spot(0, v.off), c.legs)))
  {
    var v := ViewOf(p, a);
    assert v.unread[0..] == v.unread;
    var legs, kinds := ParseIsTraced(cfg, v.unread, Spot(0, v.off));
    c := Course(legs, kinds);
  }

  lemma CallIsTraced(cfg: Config, p: Position, a: seq<string>, p': Position, a': seq<string>, e: Event) returns (now: Course, later: Course)
    requires Callable(cfg, p, a) && CallDelivers(cfg, p, a, p', a', e)
    ensures Delivers(cfg, ViewOf(p, a), now, p', a', e, later)
  {
    assert Spelled(e, 0);
    now := OutlookIsCourse(cfg, p, a);
    later := now;
    if EventsOf(now.legs) != [] {
      later := OutlookIsCourse(cfg, p', a');
    }
  }

  lemma ScanIsTraced(cfg: Config, p0: Position, a0: seq<string>, events: seq<Event>, p': Position, a': seq<string>) returns (c: Course)
    requires Scanned(cfg, p0, a0, events, p', a')
    ensures LiesAhead(cfg, ViewOf(p0, a0), c) && EventsOf(c.legs) == events && Over(cfg, ViewOf(p0, a0), c, p', a')
  {
    c := OutlookIsCourse(cfg, p0, a0);
  }

  lemma ClearsReset(cfg: Config, p: Position, a: seq<string>)
    requires Callable(cfg, p, a) && p.optind >= 1 && (p.optreset ==> p.nonoptStart == p.nonoptEnd == -1)
    requires p.optreset || p.place.Rest() == ""
    ensures Progress(cfg, p, a, Cleared(p), a) && Looking(Cleared(p), a)
  {
  }

  /** What the look at the next argument comes to. */
  datatype Step = Again | Open | Argument | FirstOperand | DashDash | End

  /** The state and argv after each outcome of a look at (p, a). */
  ghost predicate Looked(cfg: Config, p: Position, a: seq<string>, step: Step, p': Position, a': seq<string>)
    requires Looking(p, a)
  {
    match step
    case Again => p.optind < |a| && IsNonOption(a[p.optind]) && cfg.mode == Permuting
      && p' == PassedOverPos(p) && a' == Settle(p, a)
    case Open => p.optind < |a| && !IsNonOption(a[p.optind]) && a[p.optind] != "--"
      && p' == Opened(p).(place := Cursor(a[p.optind], 1)) && a' == a
    case Argument => p.optind < |a| && IsNonOption(a[p.optind]) && cfg.mode == InOrder
      && p' == p.(optind := p.optind + 1) && a' == a
    case FirstOperand => p.optind < |a| && IsNonOption(a[p.optind]) && cfg.mode == Posix
      && p' == p && a' == a
    case DashDash => p.optind < |a| && a[p.optind] == "--"
      && p' == FinishedPos(Opened(p).(optind := p.optind + 1))
      && a' == Settle(Opened(p).(optind := p.optind + 1), a)
    case End => p.optind >= |a| && p' == FinishedPos(p) && a' == Settle(p, a)
  }

  lemma StepMeaning(cfg: Config, p: Position, a: seq<string>, step: Step, p': Position, a': seq<string>, e: Event)
    requires Callable(cfg, p, a) && Looking(p, a) && Looked(cfg, p, a, step, p', a')
    requires e == if step.Argument? then Plain(INORDER, Some(a[p.optind])) else DONE
    ensures if step.Again? || step.Open? then Progress(cfg, p, a, p', a')
            else CallDelivers(cfg, p, a, p', a', e)
  {
    match step
    case Again => SkipsOperand(cfg, p, a);
    case Open => OpensOption(cfg, p, a);
    case Argument => DeliversArgument(cfg, p, a);
    case FirstOperand => Settled(p, a);
    case DashDash => StopsAtDashDash(cfg, p, a);
    case End => StopsAtEnd(cfg, p, a);
  }

  lemma LookMeaning(cfg: Config, p0: Position, a0: seq<string>, p: Position, a: seq<string>, step: Step,
                    p': Position, a': seq<string>, e: Event)
    requires Progress(cfg, p0, a0, p, a) && Progress(cfg, p, a, Cleared(p), a)
    requires Looking(Cleared(p), a) && Looked(cfg, Cleared(p), a, step, p', a')
    requires e == if step.Argument? then Plain(INORDER, Some(a[p.optind])) else DONE
    ensures if step.Again? || step.Open? then Progress(cfg, p0, a0, p', a')
            else CallDelivers(cfg, p0, a0, p', a', e)
  {
    ProgressTransitive(cfg, p0, a0, p, a, Cleared(p), a);
    StepMeaning(cfg, Cleared(p), a, step, p', a', e);
    if step.Again? || step.Open? {
      ProgressTransitive(cfg, p0, a0, Cleared(p), a, p', a');
    } else {
      DeliversAfterProgress(cfg, p0, a0, Cleared(p), a, p', a', e);
    }
  }

  /** The start of a call carries the caller's wish for a reset into the state. */
  function Begun(p: Position): Position {
    var q := if p.optind == 0 then p.(optind := 1, optreset := true) else p;
    if q.optreset then q.(nonoptStart := -1, nonoptEnd := -1) else q
  }

  lemma BeginsCall(cfg: Config, p: Position, a: seq<string>)
    requires Callable(cfg, p, a)
    ensures Progress(cfg, p, a, Begun(p), a)
  {
  }

  class Scanner {
    var optind: int
    var optarg: Option<string>
    var optopt: int
    var optreset: bool
    var place: Cursor
    var nonoptStart: int
    var nonoptEnd: int
    var flagVars: map<nat, int>

    constructor (vars: map<nat, int>)
      ensures Pos() == Position(1, EMSG, -1, -1, false) && optopt == BADCH && flagVars == vars
    {
      optind, optarg, optopt, optreset := 1, None, BADCH, false;
      place, nonoptStart, nonoptEnd, flagVars := EMSG, -1, -1, vars;
    }

    ghost function Pos(): Position
      reads this
    {
      Position(optind, place, nonoptStart, nonoptEnd, optreset)
    }

    /** The call that has just returned ret and idx has delivered e, when optopt and the flag variables were as given. */
    ghost predicate Shows(e: Event, ret: int, idx: Option<nat>, optopt0: int, vars0: map<nat, int>)
      reads this`optarg, this`optopt, this`flagVars
    {
      Shown(e, Sight(ret, optarg, idx, optopt, flagVars), optopt0, vars0)
    }

    /** The state after delivering o, when optind, optopt and the flag variables were as given. */
    ghost predicate Delivered(o: Outcome, ret: int, idx: Option<nat>, optind0: int, optopt0: int, vars0: map<nat, int>)
      reads this
    {
      Shows(Reported(o), ret, idx, optopt0, vars0) && optind == optind0 + o.taken
    }

    method ParseLongOptions(nargv: array<string>, cfg: Config, shortToo: bool, ghost next: seq<string>)
      returns (ret: int, idx: Option<nat>, ghost out: Outcome)
      requires cfg.long.Some? && WellFormed(cfg)
      requires 0 <= optind < nargv.Length && optarg == None && next == nargv[optind + 1..]
      modifies this`optind, this`optarg, this`optopt, this`flagVars
      ensures if ret == -1 then shortToo && NoLongName(cfg, place.Rest(), shortToo)
              else LongRule(cfg, place.Rest(), next, shortToo, Reported(out), out.taken)
      ensures out == ParseLong(cfg, place.Rest(), next, shortToo)
      ensures Delivered(out, ret, idx, old(optind), old(optopt), old(flagVars))
    {
      out := ParseLong(cfg, place.Rest(), next, shortToo);
      ParseLongRule(cfg, place.Rest(), next, shortToo);
      var currentArgv := place.Rest();
      ret, idx := BADCH, None;
      optind := optind + 1;
      var eq := IndexOf(currentArgv, '=');
      var m := FindLongOption(cfg.long.value, currentArgv[..eq], shortToo, cfg.longOnly);
      match m {
        case Ambiguous =>
          optopt := 0;
        case Unknown =>
          if shortToo {
            optind := optind - 1;
            ret := -1;
          } else {
            optopt := 0;
          }
        case Found(i) =>
          ret, idx, out := TakeLongOption(nargv, cfg, i, cfg.long.value[i], currentArgv, next);
      }
    }

    /** parse_long_options once entry i is found: optind is already past the option. */
    method TakeLongOption(nargv: array<string>, cfg: Config, i: nat, o: LongOption, currentArgv: string, ghost next: seq<string>)
      returns (ret: int, idx: Option<nat>, ghost out: Outcome)
      requires o.val != -1 && 1 <= optind <= nargv.Length && optarg == None && next == nargv[optind..]
      modifies this`optind, this`optarg, this`optopt, this`flagVars
      ensures forall word, attached :: SpelledAs(currentArgv, word, attached) ==>
        EntryRule(cfg, i, o, attached, next, Reported(out), out.taken)
      ensures out == TakeLong(cfg, i, o, currentArgv, next)
      ensures Delivered(out, ret, idx, old(optind) - 1, old(optopt), old(flagVars))
    {
      out := TakeLong(cfg, i, o, currentArgv, next);
      TakeLongRule(cfg, i, o, currentArgv, next);
      var eq := IndexOf(currentArgv, '=');
      var hasEqual := eq < |currentArgv|;
      if o.hasArg == NO_ARGUMENT && hasEqual {
        optopt := OptoptOf(o);
        ret, idx := BADCH, None;
        return;
      }
      if o.hasArg == REQUIRED_ARGUMENT || o.hasArg == OPTIONAL_ARGUMENT {
        if hasEqual {
          optarg := Some(currentArgv[eq + 1..]);
        } else if o.hasArg == REQUIRED_ARGUMENT {
          // argv is terminated by NULL
          optarg := if optind < nargv.Length then Some(nargv[optind]) else None;
          optind := optind + 1;
        }
      }
      if o.hasArg == REQUIRED_ARGUMENT && optarg == None {
        optopt := OptoptOf(o);
        optind := optind - 1;
        ret, idx := BadArg(cfg), None;
        return;
      }
      idx := Some(i);
      match o.flag {
        case Some(variable) =>
          flagVars := flagVars[variable := o.val];
          ret := 0;
        case None =>
          ret := o.val;
      }
    }

    /** From the check for long options to the end of getopt_internal: place is inside argument optind. */
    method ScanOption(nargv: array<string>, cfg: Config, ghost args: seq<string>)
      returns (ret: int, idx: Option<nat>, ghost out: Outcome)
      requires WellFormed(cfg) && 0 <= optind < nargv.Length && optarg == None
      requires args == nargv[optind..] && place.text == args[0] && 1 <= place.off < |place.text|
      modifies this`optind, this`optarg, this`optopt, this`flagVars, this`place
      ensures out == LexAt(cfg, args, old(place.off))
      ensures Delivered(out, ret, idx, old(optind), old(optopt), old(flagVars))
      ensures if out.off > 0 then place == Cursor(old(place.text), out.off) else place.Rest() == ""
    {
      ret, idx, out := ScanLong(nargv, cfg, args);
      if ret == -1 {
        ret, idx, out := ScanShort(nargv, cfg, args);
      }
    }

    method ScanLong(nargv: array<string>, cfg: Config, ghost args: seq<string>)
      returns (ret: int, idx: Option<nat>, ghost out: Outcome)
      requires WellFormed(cfg) && 0 <= optind < nargv.Length && optarg == None
      requires args == nargv[optind..] && place.text == args[0] && 1 <= place.off < |place.text|
      modifies this`optind, this`optarg, this`optopt, this`flagVars, this`place
      ensures out == LexLong(cfg, args, old(place.off))
      ensures Delivered(out, ret, idx, old(optind), old(optopt), old(flagVars))
      ensures if ret == -1 then place == old(place) else place.Rest() == ""
    {
      ret, idx, out := -1, None, Outcome(-1, None, None, None, None, 0, 0);
      var c := place.text[place.off];
      if cfg.long.Some? && place.off != 0 && (c == '-' || cfg.longOnly) {
        ghost var text := if c == '-' then args[0][place.off + 1..] else args[0][place.off..];
        ret, idx, out := ScanLongName(nargv, cfg, c, text, args[1..]);
      }
    }

    /** The name of a long option, behind its second '-' if it has one. */
    method ScanLongName(nargv: array<string>, cfg: Config, c: char, ghost text: string, ghost next: seq<string>)
      returns (ret: int, idx: Option<nat>, ghost out: Outcome)
      requires WellFormed(cfg) && cfg.long.Some? && 0 <= optind < nargv.Length && optarg == None && next == nargv[optind + 1..]
      requires place.off < |place.text| && text == place.text[if c == '-' then place.off + 1 else place.off..]
      modifies this`optind, this`optarg, this`optopt, this`flagVars, this`place
      ensures out == ParseLong(cfg, text, next, MayBeShort(cfg, c))
      ensures Delivered(out, ret, idx, old(optind), old(optopt), old(flagVars))
      ensures if ret == -1 then place == old(place) else place.Rest() == ""
    {
      if c == '-' {
        place := Cursor(place.text, place.off + 1);
      }
      ret, idx, out := ParseLongOptions(nargv, cfg, MayBeShort(cfg, c), next);
      if ret != -1 {
        place := EMSG;
      }
    }

    method ScanShort(nargv: array<string>, cfg: Config, ghost args: seq<string>)
      returns (ret: int, idx: Option<nat>, ghost out: Outcome)
      requires WellFormed(cfg) && 0 <= optind < nargv.Length && optarg == None
      requires args == nargv[optind..] && place.text == args[0] && 1 <= place.off < |place.text|
      requires place.text[place.off] == '-' ==> cfg.long == None
      modifies this`optind, this`optarg, this`optopt, this`flagVars, this`place
      ensures out == LexShort(cfg, args, old(place.off))
      ensures Delivered(out, ret, idx, old(optind), old(optopt), old(flagVars))
      ensures if out.off > 0 then place == Cursor(old(place.text), out.off) else place.Rest() == ""
    {
      out := LexShort(cfg, args, place.off);
      var c := place.text[place.off];
      place := Cursor(place.text, place.off + 1);
      var oli := IndexOf(cfg.options, c);
      if c == ':' || (c == '-' && place.Rest() != "") || oli == |cfg.options| {
        ret, idx := BADCH, None;
        if c == '-' && place.Rest() == "" {
          ret := -1;
          return;
        }
        if place.Rest() == "" {
          optind := optind + 1;
        }
        optopt := c as int;
        return;
      }
      if cfg.long.Some? && c == 'W' && oli + 1 < |cfg.options| && cfg.options[oli + 1] == ';' {
        ret, idx, out := ScanDashW(nargv, cfg, args[1..]);
        return;
      }
      oli := oli + 1;
      if oli == |cfg.options| || cfg.options[oli] != ':' {
        if place.Rest() == "" {
          optind := optind + 1;
        }
        ret, idx := c as int, None;
        return;
      }
      ret, idx, out := ScanArgument(nargv, cfg, c, oli + 1 < |cfg.options| && cfg.options[oli + 1] == ':', args[1..]);
    }

    /** The letter W has just been read. */
    method ScanDashW(nargv: array<string>, cfg: Config, ghost next: seq<string>)
      returns (ret: int, idx: Option<nat>, ghost out: Outcome)
      requires WellFormed(cfg) && cfg.long.Some?
      requires 0 <= optind < nargv.Length && optarg == None && next == nargv[optind + 1..]
      modifies this`optind, this`optarg, this`optopt, this`flagVars, this`place
      ensures out == LexDashW(cfg, old(place.Rest()), next)
      ensures Delivered(out, ret, idx, old(optind), old(optopt), old(flagVars))
      ensures place.Rest() == ""
    {
      if place.Rest() != "" {
        ret, idx, out := ParseLongOptions(nargv, cfg, false, next);
      } else {
        optind := optind + 1;
        if optind >= nargv.Length {
          optopt := 'W' as int;
          ret, idx, out := BadArg(cfg), None, LexDashW(cfg, "", next);
        } else {
          place := Cursor(nargv[optind], 0);
          ret, idx, out := ParseLongOptions(nargv, cfg, false, next[1..]);
          out := After(1, out);
        }
      }
      place := EMSG;
    }

    /** The letter c, which takes an argument, has just been read. */
    method ScanArgument(nargv: array<string>, cfg: Config, c: char, optional: bool, ghost next: seq<string>)
      returns (ret: int, idx: Option<nat>, ghost out: Outcome)
      requires 0 <= optind < nargv.Length && next == nargv[optind + 1..]
      modifies this`optind, this`optarg, this`optopt, this`place
      ensures out == LexArgument(cfg, c, old(place.Rest()), next, optional)
      ensures Delivered(out, ret, idx, old(optind), old(optopt), old(flagVars))
      ensures place.Rest() == ""
    {
      out := LexArgument(cfg, c, place.Rest(), next, optional);
      ret, idx := c as int, None;
      optarg := None;
      if place.Rest() != "" {
        optarg := Some(place.Rest());
      } else if !optional {
        optind := optind + 1;
        if optind >= nargv.Length {
          place := EMSG;
          optopt := c as int;
          ret := BadArg(cfg);
          return;
        }
        optarg := Some(nargv[optind]);
      }
      place := EMSG;
      optind := optind + 1;
    }

    /** The block at start: look at the argument at optind, or find that there is none. */
    method UpdatePlace(nargv: array<string>, cfg: Config, ghost p: Position) returns (step: Step)
      requires p == Cleared(Pos()) && Looking(p, nargv[..]) && (optreset || place.Rest() == "")
      modifies this`optind, this`optarg, this`optreset, this`place, this`nonoptStart, this`nonoptEnd, nargv
      ensures Looked(cfg, p, old(nargv[..]), step, Pos(), nargv[..])
      ensures optarg == if step.Argument? then Some(old(nargv[..])[p.optind]) else old(optarg)
    {
      optreset := false;
      if optind >= nargv.Length {
        place := EMSG;
        FinishAtEnd(nargv, p);
        return End;
      }
      place := Cursor(nargv[optind], 0);
      if IsNonOption(nargv[optind]) {
        place := EMSG;
        if cfg.mode == InOrder {
          optarg := Some(nargv[optind]);
          optind := optind + 1;
          return Argument;
        }
        if cfg.mode == Posix {
          return FirstOperand;
        }
        PassOver(nargv, p);
        return Again;
      }
      if nonoptStart != -1 && nonoptEnd == -1 {
        nonoptEnd := optind;
      }
      place := Cursor(place.text, 1);
      if place.text[1] == '-' && |place.text| == 2 {
        optind := optind + 1;
        place := EMSG;
        FinishAtDashDash(nargv, Opened(p).(optind := p.optind + 1));
        return DashDash;
      }
      return Open;
    }

    /** The end of argv: the operands held back go behind the options, if any followed them. */
    method FinishAtEnd(nargv: array<string>, ghost p: Position)
      requires p == Pos() && Looking(p, nargv[..]) && optind >= nargv.Length
      modifies this`optind, this`nonoptStart, this`nonoptEnd, nargv
      ensures Pos() == FinishedPos(p) && nargv[..] == Settle(p, old(nargv[..]))
    {
      if nonoptEnd != -1 {
        PermuteArgs(nonoptStart, nonoptEnd, optind, nargv);
        optind := optind - (nonoptEnd - nonoptStart);
      } else if nonoptStart != -1 {
        optind := nonoptStart;
      }
      nonoptStart, nonoptEnd := -1, -1;
    }

    /** optind has just moved past a "--", so operands held back end in front of that. */
    method FinishAtDashDash(nargv: array<string>, ghost p: Position)
      requires p == Pos() && Looking(p, nargv[..]) && optind <= nargv.Length && (nonoptStart != -1 ==> nonoptEnd != -1)
      modifies this`optind, this`nonoptStart, this`nonoptEnd, nargv
      ensures Pos() == FinishedPos(p) && nargv[..] == Settle(p, old(nargv[..]))
    {
      if nonoptEnd != -1 {
        PermuteArgs(nonoptStart, nonoptEnd, optind, nargv);
        optind := optind - (nonoptEnd - nonoptStart);
      }
      nonoptStart, nonoptEnd := -1, -1;
    }

    /** Hold the operand at optind back, behind the ones already held, which are first moved up to it. */
    method PassOver(nargv: array<string>, ghost p: Position)
      requires p == Pos() && Looking(p, nargv[..]) && optind < nargv.Length
      modifies this`optind, this`nonoptStart, this`nonoptEnd, nargv
      ensures Pos() == PassedOverPos(p) && nargv[..] == Settle(p, old(nargv[..]))
    {
      if nonoptStart == -1 {
        nonoptStart := optind;
      } else if nonoptEnd != -1 {
        PermuteArgs(nonoptStart, nonoptEnd, optind, nargv);
        nonoptStart := optind - (nonoptEnd - nonoptStart);
        nonoptEnd := -1;
      }
      optind := optind + 1;
    }

    /** The same with what the call returns if that ends it. */
    method TakeStep(nargv: array<string>, cfg: Config, ghost p: Position) returns (step: Step, ret: int, ghost e: Event)
      requires p == Cleared(Pos()) && Looking(p, nargv[..]) && (optreset || place.Rest() == "") && optarg == None
      modifies this`optind, this`optarg, this`optreset, this`place, this`nonoptStart, this`nonoptEnd, nargv
      ensures Looked(cfg, p, old(nargv[..]), step, Pos(), nargv[..])
      ensures e == (if step.Argument? then Plain(INORDER, Some(old(nargv[..])[p.optind])) else DONE)
      ensures Shows(e, ret, None, optopt, flagVars)
    {
      step := UpdatePlace(nargv, cfg, p);
      ret := if step.Argument? then INORDER else -1;
      e := Plain(ret, optarg);
    }

    /**
      One look at the next argument, in a call that began at (p0, a0): an operand is passed over, an
      option is opened, or the call is over.
     */
    method Look(nargv: array<string>, cfg: Config, ghost p0: Position, ghost a0: seq<string>) returns (step: Step, ret: int, ghost e: Event)
      requires Progress(cfg, p0, a0, Pos(), nargv[..]) && optind >= 1 && (optreset ==> nonoptStart == nonoptEnd == -1)
      requires (optreset || place.Rest() == "") && optarg == None
      modifies this`optind, this`optarg, this`optreset, this`place, this`nonoptStart, this`nonoptEnd, nargv
      ensures if step.Again? || step.Open? then Progress(cfg, p0, a0, Pos(), nargv[..])
              else CallDelivers(cfg, p0, a0, Pos(), nargv[..], e) && Shows(e, ret, None, optopt, flagVars)
      ensures step.Again? || step.Open? ==> optarg == None && !optreset && 1 <= old(optind) < nargv.Length
      ensures step.Again? ==> place.Rest() == "" && optind == old(optind) + 1
      ensures step.Open? ==> place.Rest() != "" && optind == old(optind)
    {
      ghost var p, a := Pos(), nargv[..];
      ClearsReset(cfg, p, a);
      step, ret, e := TakeStep(nargv, cfg, Cleared(p));
      LookMeaning(cfg, p0, a0, p, a, step, Pos(), nargv[..], e);
    }

    /** The loop at start: it ends at an option, or the call, which began at (p0, a0), is over. */
    method FindOption(nargv: array<string>, cfg: Config, ghost p0: Position, ghost a0: seq<string>)
      returns (found: bool, ret: int, ghost e: Event)
      requires Progress(cfg, p0, a0, Pos(), nargv[..]) && optind >= 1 && (optreset ==> nonoptStart == nonoptEnd == -1)
      requires optarg == None
      modifies this`optind, this`optarg, this`optreset, this`place, this`nonoptStart, this`nonoptEnd, nargv
      ensures if found then Progress(cfg, p0, a0, Pos(), nargv[..])
              else CallDelivers(cfg, p0, a0, Pos(), nargv[..], e) && Shows(e, ret, None, optopt, flagVars)
      ensures found ==> !Resetting(Pos()) && place.Rest() != "" && optarg == None
    {
      ret, e := 0, DONE;
      while optreset || place.Rest() == ""
        invariant Progress(cfg, p0, a0, Pos(), nargv[..])
        invariant optind >= 1 && (optreset ==> nonoptStart == nonoptEnd == -1) && optarg == None
        decreases nargv.Length - optind, optreset || place.Rest() == ""
      {
        var step;
        step, ret, e := Look(nargv, cfg, p0, a0);
        if !step.Again? && !step.Open? {
          return false, ret, e;
        }
      }
      found := true;
    }

    /**
      One call. Callable says that the state belongs to this argv, and that an argument vector is scanned
      in one mode from start to end.
     */
    method GetoptInternal(nargv: array<string>, options: string, long: Option<seq<LongOption>>, posixlyCorrect: bool, longOnly: bool)
      returns (ret: int, idx: Option<nat>, ghost e: Event, ghost now: Course, ghost later: Course)
      requires Callable(Configure(options, long, posixlyCorrect, longOnly), Pos(), nargv[..])
      modifies this, nargv
      ensures CallDelivers(Configure(options, long, posixlyCorrect, longOnly), old(Pos()), old(nargv[..]),
        Pos(), nargv[..], e)
      ensures Delivers(Configure(options, long, posixlyCorrect, longOnly), ViewOf(old(Pos()), old(nargv[..])), now,
        Pos(), nargv[..], e, later)
      ensures ret == e.ret && idx == e.idx && optarg == e.optarg
      ensures optopt == if e.optopt.Some? then e.optopt.value else old(optopt)
      ensures flagVars == if e.store.Some? then old(flagVars)[e.store.value.0 := e.store.value.1] else old(flagVars)
    {
      var cfg := Configure(options, long, posixlyCorrect, longOnly);
      ghost var p0, a0 := Pos(), nargv[..];
      BeginCall(nargv, cfg);
      ret, idx, e := Serve(nargv, cfg, p0, a0);
      now, later := CallIsTraced(cfg, p0, a0, Pos(), nargv[..], e);
    }

    /** The call, which began at (p0, a0), from the label start on. */
    method Serve(nargv: array<string>, cfg: Config, ghost p0: Position, ghost a0: seq<string>)
      returns (ret: int, idx: Option<nat>, ghost e: Event)
      requires Progress(cfg, p0, a0, Pos(), nargv[..]) && optind >= 1 && (optreset ==> nonoptStart == nonoptEnd == -1)
      requires optarg == None
      modifies this, nargv
      ensures CallDelivers(cfg, p0, a0, Pos(), nargv[..], e) && Shows(e, ret, idx, old(optopt), old(flagVars))
    {
      var found;
      idx := None;
      found, ret, e := FindOption(nargv, cfg, p0, a0);
      if found {
        ret, idx, e := FinishOption(nargv, cfg, p0, a0);
      }
    }

    method BeginCall(nargv: array<string>, cfg: Config)
      requires Callable(cfg, Pos(), nargv[..])
      modifies this`optind, this`optarg, this`optreset, this`nonoptStart, this`nonoptEnd
      ensures Progress(cfg, old(Pos()), nargv[..], Pos(), nargv[..])
      ensures optind >= 1 && (optreset ==> nonoptStart == nonoptEnd == -1) && optarg == None
    {
      ghost var p := Pos();
      BeginsCall(cfg, p, nargv[..]);
      if optind == 0 {
        optind, optreset := 1, true;
      }
      optarg := None;
      if optreset {
        nonoptStart, nonoptEnd := -1, -1;
      }
      assert Pos() == Begun(p);
    }

    /** The rest of a call that has found an option. */
    method FinishOption(nargv: array<string>, cfg: Config, ghost p0: Position, ghost a0: seq<string>)
      returns (ret: int, idx: Option<nat>, ghost e: Event)
      requires Progress(cfg, p0, a0, Pos(), nargv[..])
      requires !Resetting(Pos()) && place.Rest() != "" && optarg == None
      modifies this`optind, this`optarg, this`optopt, this`flagVars, this`place
      ensures CallDelivers(cfg, p0, a0, Pos(), nargv[..], e) && Shows(e, ret, idx, old(optopt), old(flagVars))
    {
      ghost var p, a := Pos(), nargv[..];
      ghost var out;
      ret, idx, out := ScanOption(nargv, cfg, nargv[optind..]);
      e := Reported(out);
      DeliversOptionAfterProgress(cfg, p0, a0, p, a, out, Pos(), nargv[..]);
    }

    /**
      The loop every caller runs: getopt_long until it returns -1. It delivers what the plain parser
      finds in the arguments that are still unread, in the same order, and unless the scan halts it
      leaves argv sorted: options with their arguments, then operands, then the unseen rest.
     */
    method ScanAll(nargv: array<string>, options: string, long: Option<seq<LongOption>>, posixlyCorrect: bool, longOnly: bool)
      returns (sights: seq<Sight>, ghost course: Course)
      requires Callable(Configure(options, long, posixlyCorrect, longOnly), Pos(), nargv[..])
      modifies this, nargv
      ensures var cfg := Configure(options, long, posixlyCorrect, longOnly);
        && multiset(nargv[..]) == multiset(old(nargv[..])) && (old(Fits(Pos(), nargv[..])) ==> Fits(Pos(), nargv[..]))
        && LiesAhead(cfg, ViewOf(old(Pos()), old(nargv[..])), course)
        && Told(EventsOf(course.legs), sights, optopt, flagVars, old(optopt), old(flagVars))
        && Over(cfg, ViewOf(old(Pos()), old(nargv[..])), course, Pos(), nargv[..])
    {
      ghost var cfg, p0, a0 := Configure(options, long, posixlyCorrect, longOnly), Pos(), nargv[..];
      ghost var events, left := [], Outlook(cfg, p0, a0).events;
      sights := [];
      var done := false;
      while !done
        invariant if done then Scanned(cfg, p0, a0, events, Pos(), nargv[..]) else ScannedSoFar(cfg, p0, a0, events, Pos(), nargv[..], left)
        invariant Told(events, sights, optopt, flagVars, old(optopt), old(flagVars))
        decreases !done, |left|
      {
        done, sights, events, left :=
          ScanOn(nargv, options, long, posixlyCorrect, longOnly, sights, p0, a0, events, left, old(optopt), old(flagVars));
      }
      course := ScanIsTraced(cfg, p0, a0, events, Pos(), nargv[..]);
    }

    /** One more call of the loop. */
    method ScanOn(nargv: array<string>, options: string, long: Option<seq<LongOption>>, posixlyCorrect: bool, longOnly: bool,
                  sights: seq<Sight>, ghost p0: Position, ghost a0: seq<string>, ghost events: seq<Event>, ghost left: seq<Event>,
                  ghost optopt0: int, ghost vars0: map<nat, int>)
      returns (done: bool, sights': seq<Sight>, ghost events': seq<Event>, ghost left': seq<Event>)
      requires ScannedSoFar(Configure(options, long, posixlyCorrect, longOnly), p0, a0, events, Pos(), nargv[..], left)
      requires Told(events, sights, optopt, flagVars, optopt0, vars0)
      modifies this, nargv
      ensures var cfg := Configure(options, long, posixlyCorrect, longOnly);
        if done then events' == events && Scanned(cfg, p0, a0, events', Pos(), nargv[..])
        else |left'| < |left| && ScannedSoFar(cfg, p0, a0, events', Pos(), nargv[..], left')
      ensures Told(events', sights', optopt, flagVars, optopt0, vars0)
    {
      ghost var cfg, p, a := Configure(options, long, posixlyCorrect, longOnly), Pos(), nargv[..];
      ghost var optopt1, vars1 := optopt, flagVars;
      var ret, idx;
      ghost var e, now, later;
      ret, idx, e, now, later := GetoptInternal(nargv, options, long, posixlyCorrect, longOnly);
      done := ret == -1;
      sights', events', left' := sights, events, left;
      if done {
        ScanEnds(cfg, p0, a0, events, p, a, left, Pos(), nargv[..], e);
      } else {
        ScanGoesOn(cfg, p0, a0, events, p, a, left, Pos(), nargv[..], e);
        var sight := Sight(ret, optarg, idx, optopt, flagVars);
        OneMoreEvent(events, e, sights, sight, optopt1, vars1, optopt0, vars0);
        sights' := sights + [sight];
        events', left' := events + [e], left[1..];
      }
    }
  }

  /**
    getopt_long on a fresh scanner, a long table and a permuting option string: argv ends up as the
    program name, every option and option argument (and "--"), every operand passed over, and what
    follows "--", each in the original order, with optind at the first operand. The calls deliver what
    the legs of the scan do, one after the other.
   */
  method StablePartition(nargv: array<string>, options: string, long: seq<LongOption>, longOnly: bool, vars: map<nat, int>)
    returns (sights: seq<Sight>, scanner: Scanner, ghost legs: seq<Leg>, ghost kinds: seq<Kind>)
    requires nargv.Length > 0 && (forall o :: o in long ==> o.val != -1)
    requires options == "" || (options[0] != '+' && options[0] != '-')
    modifies nargv
    ensures var args := old(nargv[1..]);
      && Traced(Config(options, Some(long), Permuting, longOnly), args, Spot(0, 0), legs)
      && |kinds| == |args| && SortedBy(args, 0, legs, kinds)
      && Told(EventsOf(legs), sights, scanner.optopt, scanner.flagVars, BADCH, vars)
      && var opts, rest := Pick(args, kinds, Option_), Pick(args, kinds, Unseen);
      && nargv[..] == old(nargv[..1]) + opts + Pick(args, kinds, Operand) + rest
      && scanner.optind == 1 + |opts|
      && (rest != [] ==> EndsAfterDashDash(args, rest) && "--" in opts)
  {
    ghost var cfg := Configure(options, Some(long), false, longOnly);
    ghost var argv := nargv[..];
    scanner := new Scanner(vars);
    ghost var course;
    sights, course := scanner.ScanAll(nargv, options, Some(long), false, longOnly);
    legs, kinds := course.legs, course.kinds;
    FreshScan(cfg, argv, course, scanner.Pos(), nargv[..]);
  }

  /** A scan of a whole argument vector in permuting mode. */
  lemma FreshScan(cfg: Config, argv: seq<string>, c: Course, p': Position, a': seq<string>)
    requires WellFormed(cfg) && |argv| > 0 && cfg.mode == Permuting && cfg.long.Some?
    requires var v := ViewOf(Position(1, EMSG, -1, -1, false), argv); LiesAhead(cfg, v, c) && Over(cfg, v, c, p', a')
    requires Fits(p', a')
    ensures var args := argv[1..];
      && Traced(cfg, args, Spot(0, 0), c.legs) && |c.kinds| == |args| && SortedBy(args, 0, c.legs, c.kinds)
      && var opts, rest := Pick(args, c.kinds, Option_), Pick(args, c.kinds, Unseen);
      && a' == argv[..1] + opts + Pick(args, c.kinds, Operand) + rest
      && p'.optind == 1 + |opts|
      && (rest != [] ==> EndsAfterDashDash(args, rest) && "--" in opts)
  {
    var args := argv[1..];
    FreshView(argv);
    FreshCourse(cfg, args, c);
  }

  lemma FreshView(argv: seq<string>)
    requires |argv| > 0
    ensures ViewOf(Position(1, EMSG, -1, -1, false), argv) == View(argv[..1], [], argv[1..], 0)
  {
    assert argv[..1] + argv[1..1] == argv[..1];
  }

  lemma FreshCourse(cfg: Config, args: seq<string>, c: Course)
    requires WellFormed(cfg) && cfg.mode == Permuting && cfg.long.Some?
    requires Traced(cfg, args, Spot(0, 0), c.legs) && |c.kinds| == |args| && SortedBy(args, 0, c.legs, c.kinds)
    ensures !Halts(cfg, args, EndOf(Spot(0, 0), c.legs))
    ensures var rest := Pick(args, c.kinds, Unseen);
      rest != [] ==> EndsAfterDashDash(args, rest) && "--" in Pick(args, c.kinds, Option_)
  {
    assert args[0..] == args;
    TraceIsParse(cfg, args, Spot(0, 0), c.legs, c.kinds);
    NeverHalts(cfg, args, 0);
    RestFollowsDashDash(cfg, args, 0);
  }
}
