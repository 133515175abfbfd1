/**
  What getopt_long promises, said about the arguments themselves: the places a scan goes through, one leg
  for each thing it reads, and for each leg what is delivered there and where in argv it stands.
 */
module Traces {
  import opened Wrappers
  import opened LongOptions
  import opened Scan

  /** A place in the arguments: off characters into one of them; off is 0 when it has not been looked at. */
  datatype Spot = Spot(arg: nat, off: nat)

  /** What is read between two places, and the event it delivers, if any. */
  datatype Leg = Leg(from: Spot, event: Option<Event>, to: Spot)

  /** An option that is not accepted: the answer is '?', and optopt says which. */
  predicate Refused(e: Event, optopt: int) {
    e == Event('?' as int, None, None, Some(optopt), None)
  }

  /** An option without its argument: the answer is ':' if the option string starts with that, and '?' if not. */
  predicate Lacking(cfg: Config, e: Event, optopt: int) {
    e == Event(if [':'] <= cfg.options then ':' as int else '?' as int, None, None, Some(optopt), None)
  }

  // -- long options --

  /** text is a word and, behind its first '=', what is attached to it. */
  predicate SpelledAs(text: string, word: string, attached: Option<string>) {
    '=' !in word && text == word + if attached.Some? then "=" + attached.value else ""
  }

  /** Entry i of the table, with what is attached to its name, in front of the arguments next. */
  predicate EntryRule(cfg: Config, i: nat, o: LongOption, attached: Option<string>, next: seq<string>, e: Event, taken: nat) {
    var needsNext := o.hasArg == REQUIRED_ARGUMENT && attached == None;
    if o.hasArg == NO_ARGUMENT && attached.Some? then
      Refused(e, if o.flag == None then o.val else 0) && taken == 1
    else if needsNext && next == [] then
      Lacking(cfg, e, if o.flag == None then o.val else 0) && taken == 1
    else
      && taken == (if needsNext then 2 else 1)
      && e.optarg == (if needsNext then Some(next[0])
                      else if o.hasArg == REQUIRED_ARGUMENT || o.hasArg == OPTIONAL_ARGUMENT then attached
                      else None)
      && e.idx == Some(i) && e.optopt == None
      && match o.flag
         case Some(variable) => e.ret == 0 && e.store == Some((variable, o.val))
         case None => e.ret == o.val && e.store == None
  }

  /** A long option that is spelled word, with what is attached to it. */
  predicate WordRule(cfg: Config, word: string, attached: Option<string>, next: seq<string>, shortToo: bool, e: Event, taken: nat)
    requires cfg.long.Some?
  {
    match Resolve(cfg.long.value, word, shortToo, cfg.longOnly)
    case Ambiguous => Refused(e, 0) && taken == 1
    case Unknown => !shortToo && Refused(e, 0) && taken == 1
    case Found(i) => EntryRule(cfg, i, cfg.long.value[i], attached, next, e, taken)
  }

  ghost predicate LongRule(cfg: Config, text: string, next: seq<string>, shortToo: bool, e: Event, taken: nat)
    requires cfg.long.Some?
  {
    exists word, attached :: SpelledAs(text, word, attached) && WordRule(cfg, word, attached, next, shortToo, e, taken)
  }

  /** text names no long option. */
  ghost predicate NoLongName(cfg: Config, text: string, shortToo: bool)
    requires cfg.long.Some?
  {
    exists word, attached :: SpelledAs(text, word, attached) && Resolve(cfg.long.value, word, shortToo, cfg.longOnly) == Unknown
  }

  // -- short options --

  /** The first mention of c in the option string is between before and after. */
  predicate Listed(options: string, before: string, c: char, after: string) {
    c !in before && options == before + [c] + after
  }

  /** A letter without an argument: the scan goes on behind it, in the same argument or the next. */
  predicate GoesOn(rest: string, off: nat, taken: nat, off': nat) {
    if rest == "" then taken == 1 && off' == 0 else taken == 0 && off' == off + 1
  }

  /** The letter c with rest behind it in the cluster, when the option string goes on with after behind c. */
  ghost predicate LetterRule(cfg: Config, c: char, after: string, rest: string, next: seq<string>, off: nat,
                             e: Event, taken: nat, off': nat) {
    if cfg.long.Some? && c == 'W' && [';'] <= after then
      && off' == 0
      && if rest != "" then LongRule(cfg, rest, next, false, e, taken)
         else if next == [] then Lacking(cfg, e, 'W' as int) && taken == 1
         else taken > 1 && LongRule(cfg, next[0], next[1..], false, e, taken - 1)
    else if !([':'] <= after) then
      e == Event(c as int, None, None, None, None) && GoesOn(rest, off, taken, off')
    else
      && off' == 0
      && if rest != "" then e == Event(c as int, Some(rest), None, None, None) && taken == 1
         else if "::" <= after then e == Event(c as int, None, None, None, None) && taken == 1
         else if next == [] then Lacking(cfg, e, c as int) && taken == 1
         else e == Event(c as int, Some(next[0]), None, None, None) && taken == 2
  }

  ghost predicate ShortRule(cfg: Config, c: char, rest: string, next: seq<string>, off: nat, e: Event, taken: nat, off': nat) {
    if c == ':' || c !in cfg.options || (c == '-' && rest != "") then
      Refused(e, c as int) && GoesOn(rest, off, taken, off')
    else
      exists before, after ::
        Listed(cfg.options, before, c, after) && LetterRule(cfg, c, after, rest, next, off, e, taken, off')
  }

  // -- the scan --

  /**
    The option off characters into arg, in front of the arguments next. It is a long option behind a second
    '-', or anywhere when only long options are wanted; but a word that could be letters as well has to
    be the name of one.
   */
  ghost predicate OptionRule(cfg: Config, arg: string, next: seq<string>, off: nat, e: Event, taken: nat, off': nat)
    requires off < |arg|
  {
    var c := arg[off];
    var text := if c == '-' then arg[off + 1..] else arg[off..];
    var shortToo := c != '-' && c != ':' && c in cfg.options;
    if cfg.long.Some? && (c == '-' || cfg.longOnly) && !(shortToo && NoLongName(cfg, text, shortToo)) then
      off' == 0 && LongRule(cfg, text, next, shortToo, e, taken)
    else ShortRule(cfg, c, arg[off + 1..], next, off, e, taken, off')
  }

  /** The scan cannot go on from here: a '-' that ends a cluster and is no option. */
  predicate Halts(cfg: Config, args: seq<string>, at: Spot) {
    && at.arg < |args| && 0 < at.off == |args[at.arg]| - 1
    && args[at.arg][at.off] == '-' && '-' !in cfg.options && cfg.long == None
  }

  predicate AtOperand(args: seq<string>, at: Spot) {
    at.arg < |args| && at.off == 0 && (|args[at.arg]| < 2 || args[at.arg][0] != '-')
  }

  predicate AtDashDash(args: seq<string>, at: Spot) {
    at.arg < |args| && at.off == 0 && args[at.arg] == "--"
  }

  /** How far into its argument an option starts; one that has not been looked at starts with '-'. */
  function Offset(at: Spot): nat {
    if at.off == 0 then 1 else at.off
  }

  /** An option starts off characters into number i; event is what it delivers, and to is where it ends. */
  ghost predicate LegalOption(cfg: Config, args: seq<string>, i: nat, off: nat, event: Option<Event>, to: Spot) {
    && i < |args| && i <= to.arg && off < |args[i]| && event.Some?
    && OptionRule(cfg, args[i], args[i + 1..], off, event.value, to.arg - i, to.off)
  }

  ghost predicate Legal(cfg: Config, args: seq<string>, leg: Leg) {
    var i := leg.from.arg;
    && i < |args| && i <= leg.to.arg
    && if AtOperand(args, leg.from) then
         && leg.to == Spot(i + 1, 0) && cfg.mode != Posix
         && leg.event == if cfg.mode == InOrder then Some(Event(1, Some(args[i]), None, None, None)) else None
       else if AtDashDash(args, leg.from) then leg.to == Spot(i + 1, 0) && leg.event == None
       else !Halts(cfg, args, leg.from) && LegalOption(cfg, args, i, Offset(leg.from), leg.event, leg.to)
  }

  /** The scan is over here: there is nothing left, or something it does not pass. */
  predicate Stops(cfg: Config, args: seq<string>, at: Spot) {
    at == Spot(|args|, 0) || (cfg.mode == Posix && AtOperand(args, at)) || Halts(cfg, args, at)
  }

  /** A whole scan from a place on: legs that follow each other, to where it stops or behind a "--". */
  ghost predicate Traced(cfg: Config, args: seq<string>, at: Spot, legs: seq<Leg>)
    decreases |legs|
  {
    if legs == [] then Stops(cfg, args, at)
    else
      && legs[0].from == at && Legal(cfg, args, legs[0])
      && if AtDashDash(args, at) then |legs| == 1 else Traced(cfg, args, legs[0].to, legs[1..])
  }

  function EndOf(at: Spot, legs: seq<Leg>): Spot {
    if legs == [] then at else legs[|legs| - 1].to
  }

  /** What is delivered on the way. */
  function EventsOf(legs: seq<Leg>): seq<Event> {
    if legs == [] then []
    else (if legs[0].event.Some? then [legs[0].event.value] else []) + EventsOf(legs[1..])
  }

  /** The sort of the arguments whose reading a leg ends: operands if it goes over one without an event. */
  function SortOf(args: seq<string>, leg: Leg): Kind {
    if AtOperand(args, leg.from) && leg.event == None then Operand else Option_
  }

  /** The sorts of the arguments from a place on: those the legs go over, and behind them the unseen ones. */
  ghost predicate SortedBy(args: seq<string>, at: nat, legs: seq<Leg>, kinds: seq<Kind>)
    decreases |legs|
  {
    if legs == [] then forall j :: 0 <= j < |kinds| ==> kinds[j] == Unseen
    else
      var n := legs[0].to.arg - at;
      && 0 <= n <= |kinds| && (forall j :: 0 <= j < n ==> kinds[j] == SortOf(args, legs[0]))
      && SortedBy(args, legs[0].to.arg, legs[1..], kinds[n..])
  }

  // -- the plain parser obeys the rules --

  lemma IndexOfFirst(s: string, c: char)
    ensures c !in s[..IndexOf(s, c)]
  {
  }

  lemma InPrefix(s: string, t: string)
    requires t <= s
    ensures forall k :: 0 <= k < |t| ==> s[k] in t
  {
    assert forall k :: 0 <= k < |t| ==> s[k] == t[k];
  }

  /** There is one way to read a spelling. */
  lemma SpellingIsUnique(text: string, word: string, attached: Option<string>, word': string, attached': Option<string>)
    requires SpelledAs(text, word, attached) && SpelledAs(text, word', attached') && |word| <= |word'|
    ensures word == word' && attached == attached'
  {
    assert word == text[..|word|] && word' == text[..|word'|];
    assert |word| < |text| ==> text[|word|] == '=';
    InPrefix(text, word');
    assert text[|word|..] == (if attached.Some? then "=" + attached.value else "");
    assert attached.Some? ==> attached.value == text[|word| + 1..];
    assert attached'.Some? ==> attached'.value == text[|word| + 1..];
  }

  /** How ParseLong and TakeLong read their text. */
  lemma Spelling(text: string) returns (word: string, attached: Option<string>)
    ensures var eq := IndexOf(text, '=');
      word == text[..eq] && attached == if eq < |text| then Some(text[eq + 1..]) else None
    ensures SpelledAs(text, word, attached)
    ensures forall w, a :: SpelledAs(text, w, a) ==> w == word && a == attached
  {
    var eq := IndexOf(text, '=');
    IndexOfFirst(text, '=');
    word, attached := text[..eq], if eq < |text| then Some(text[eq + 1..]) else None;
    assert text == word + if attached.Some? then "=" + attached.value else "";
    forall w, a | SpelledAs(text, w, a)
      ensures w == word && a == attached
    {
      if |w| <= |word| {
        SpellingIsUnique(text, w, a, word, attached);
      } else {
        SpellingIsUnique(text, word, attached, w, a);
      }
    }
  }

  lemma TakeLongRule(cfg: Config, i: nat, o: LongOption, text: string, next: seq<string>)
    requires o.val != -1
    ensures var r := TakeLong(cfg, i, o, text, next);
      forall word, attached :: SpelledAs(text, word, attached) ==> EntryRule(cfg, i, o, attached, next, Reported(r), r.taken)
  {
    var w, a := Spelling(text);
    LackingIsBadArg(cfg);
  }

  lemma LackingIsBadArg(cfg: Config)
    ensures forall n :: Lacking(cfg, Event(BadArg(cfg), None, None, Some(n), None), n)
  {
  }

  lemma ParseLongRule(cfg: Config, text: string, next: seq<string>, shortToo: bool)
    requires cfg.long.Some? && WellFormed(cfg)
    ensures var r := ParseLong(cfg, text, next, shortToo);
      && (r.ret == -1 <==> shortToo && NoLongName(cfg, text, shortToo))
      && (r.ret != -1 ==> LongRule(cfg, text, next, shortToo, Reported(r), r.taken))
  {
    var word, attached := Spelling(text);
    var m := Resolve(cfg.long.value, word, shortToo, cfg.longOnly);
    assert NoLongName(cfg, text, shortToo) <==> m == Unknown;
    if m.Found? {
      TakeLongRule(cfg, m.index, cfg.long.value[m.index], text, next);
    }
    var r := ParseLong(cfg, text, next, shortToo);
    if r.ret != -1 {
      assert WordRule(cfg, word, attached, next, shortToo, Reported(r), r.taken);
    }
  }

  lemma LexDashWRule(cfg: Config, rest: string, next: seq<string>)
    requires WellFormed(cfg) && cfg.long.Some?
    ensures var r := LexDashW(cfg, rest, next);
      if rest != "" then LongRule(cfg, rest, next, false, Reported(r), r.taken)
      else if next == [] then Lacking(cfg, Reported(r), 'W' as int) && r.taken == 1
      else r.taken > 1 && LongRule(cfg, next[0], next[1..], false, Reported(r), r.taken - 1)
  {
    LackingIsBadArg(cfg);
    if rest != "" {
      ParseLongRule(cfg, rest, next, false);
    } else if next != [] {
      ParseLongRule(cfg, next[0], next[1..], false);
    }
  }

  lemma LexArgumentRule(cfg: Config, c: char, after: string, rest: string, next: seq<string>, off: nat)
    requires [':'] <= after && !(cfg.long.Some? && c == 'W' && [';'] <= after)
    ensures var r := LexArgument(cfg, c, rest, next, "::" <= after);
      LetterRule(cfg, c, after, rest, next, off, Reported(r), r.taken, r.off)
  {
    LackingIsBadArg(cfg);
  }

  /** A letter the option string has, and may have here. */
  lemma LexLetterRule(cfg: Config, args: seq<string>, off: nat, before: string, after: string)
    requires WellFormed(cfg) && |args| > 0 && 1 <= off < |args[0]|
    requires args[0][off] == '-' ==> cfg.long == None && off + 1 == |args[0]|
    requires args[0][off] != ':' && Listed(cfg.options, before, args[0][off], after)
    requires |before| == IndexOf(cfg.options, args[0][off])
    ensures var r := LexShort(cfg, args, off);
      r.ret != -1 && LetterRule(cfg, args[0][off], after, args[0][off + 1..], args[1..], off, Reported(r), r.taken, r.off)
  {
    var c, rest, next := args[0][off], args[0][off + 1..], args[1..];
    var i := |before|;
    assert i + 1 < |cfg.options| ==> after[0] == cfg.options[i + 1];
    if cfg.long.Some? && c == 'W' && [';'] <= after {
      LexDashWRule(cfg, rest, next);
    } else if [':'] <= after {
      assert i + 2 < |cfg.options| ==> after[1] == cfg.options[i + 2];
      LexArgumentRule(cfg, c, after, rest, next, off);
    }
  }

  lemma LexShortRule(cfg: Config, args: seq<string>, off: nat)
    requires WellFormed(cfg) && |args| > 0 && 1 <= off < |args[0]|
    requires args[0][off] == '-' ==> cfg.long == None
    ensures var r := LexShort(cfg, args, off);
      && (r.ret == -1 <==> Halts(cfg, args, Spot(0, off)))
      && (r.ret != -1 ==> ShortRule(cfg, args[0][off], args[0][off + 1..], args[1..], off, Reported(r), r.taken, r.off))
  {
    var c := args[0][off];
    var i := IndexOf(cfg.options, c);
    IndexOfAbsent(cfg.options, c);
    if i < |cfg.options| && c != ':' && !(c == '-' && args[0][off + 1..] != "") {
      IndexOfFirst(cfg.options, c);
      var before, after := cfg.options[..i], cfg.options[i + 1..];
      assert Listed(cfg.options, before, c, after);
      LexLetterRule(cfg, args, off, before, after);
    }
  }

  lemma LexAtRule(cfg: Config, args: seq<string>, off: nat)
    requires WellFormed(cfg) && |args| > 0 && 1 <= off < |args[0]|
    ensures var r := LexAt(cfg, args, off);
      && (r.ret == -1 <==> Halts(cfg, args, Spot(0, off)))
      && (r.ret != -1 ==> OptionRule(cfg, args[0], args[1..], off, Reported(r), r.taken, r.off))
  {
    var c := args[0][off];
    if cfg.long.Some? && (c == '-' || cfg.longOnly) {
      ParseLongRule(cfg, if c == '-' then args[0][off + 1..] else args[0][off..], args[1..], MayBeShort(cfg, c));
    }
    if LexLong(cfg, args, off).ret == -1 {
      LexShortRule(cfg, args, off);
    }
  }

  // -- a whole scan --

  /** What these legs read and deliver is what the plain parser makes of the arguments. */
  ghost predicate Reads(cfg: Config, args: seq<string>, at: Spot, legs: seq<Leg>, kinds: seq<Kind>, p: Parsed)
    requires at.arg <= |args|
  {
    && SortedBy(args, at.arg, legs, kinds) && Partitions(p, args[at.arg..], kinds)
    && EventsOf(legs) == p.events
    && (p.halted <==> Halts(cfg, args, EndOf(at, legs)))
  }

  lemma ReadsNothing(cfg: Config, args: seq<string>, at: Spot, p: Parsed) returns (kinds: seq<Kind>)
    requires at.arg <= |args| && p == Parsed([], [], args[at.arg..], [], Halts(cfg, args, at))
    ensures Reads(cfg, args, at, [], kinds, p)
  {
    kinds := PartitionsUnseen(p, args[at.arg..]);
  }

  /** The parse q with one more leg in front of it. */
  function Prepended(args: seq<string>, leg: Leg, q: Parsed): Parsed
    requires leg.from.arg <= leg.to.arg <= |args|
  {
    var part, sort := args[leg.from.arg..leg.to.arg], SortOf(args, leg);
    Parsed(
      (if sort == Option_ then part else []) + q.opts,
      (if sort == Operand then part else []) + q.nonopts,
      q.tail,
      (if leg.event.Some? then [leg.event.value] else []) + q.events,
      q.halted)
  }

  lemma ReadsPrepend(cfg: Config, args: seq<string>, leg: Leg, legs: seq<Leg>, kinds: seq<Kind>, q: Parsed)
    returns (kinds': seq<Kind>)
    requires leg.from.arg <= leg.to.arg <= |args| && Reads(cfg, args, leg.to, legs, kinds, q)
    requires SortOf(args, leg) == Operand ==> leg.to.arg == leg.from.arg + 1
    ensures Reads(cfg, args, leg.from, [leg] + legs, kinds', Prepended(args, leg, q))
  {
    kinds' := PartitionsLeg(args, leg, kinds, q);
    SortedPrepend(args, leg, legs, kinds, kinds');
    assert ([leg] + legs)[1..] == legs;
  }

  lemma PartitionsLeg(args: seq<string>, leg: Leg, kinds: seq<Kind>, q: Parsed) returns (kinds': seq<Kind>)
    requires leg.from.arg <= leg.to.arg <= |args| && Partitions(q, args[leg.to.arg..], kinds)
    requires SortOf(args, leg) == Operand ==> leg.to.arg == leg.from.arg + 1
    ensures Partitions(Prepended(args, leg, q), args[leg.from.arg..], kinds')
    ensures kinds' == seq(leg.to.arg - leg.from.arg, _ => SortOf(args, leg)) + kinds
  {
    var i, n := leg.from.arg, leg.to.arg - leg.from.arg;
    assert args[i..][n..] == args[leg.to.arg..] && args[i..][..n] == args[i..leg.to.arg];
    kinds' := PartitionsPrepend(Prepended(args, leg, q), q, args[i..], n, SortOf(args, leg), kinds);
  }

  lemma SortedPrepend(args: seq<string>, leg: Leg, legs: seq<Leg>, kinds: seq<Kind>, kinds': seq<Kind>)
    requires leg.from.arg <= leg.to.arg && SortedBy(args, leg.to.arg, legs, kinds)
    requires kinds' == seq(leg.to.arg - leg.from.arg, _ => SortOf(args, leg)) + kinds
    ensures SortedBy(args, leg.from.arg, [leg] + legs, kinds')
  {
    assert ([leg] + legs)[1..] == legs;
    assert kinds'[leg.to.arg - leg.from.arg..] == kinds;
  }

  lemma TracedPrepend(cfg: Config, args: seq<string>, leg: Leg, legs: seq<Leg>)
    requires Legal(cfg, args, leg)
    requires if AtDashDash(args, leg.from) then legs == [] else Traced(cfg, args, leg.to, legs)
    ensures Traced(cfg, args, leg.from, [leg] + legs)
  {
    assert ([leg] + legs)[1..] == legs;
  }

  lemma OneLegMore(cfg: Config, args: seq<string>, leg: Leg, legs: seq<Leg>, kinds: seq<Kind>, q: Parsed, p: Parsed)
    returns (legs': seq<Leg>, kinds': seq<Kind>)
    requires Legal(cfg, args, leg) && leg.to.arg <= |args|
    requires if AtDashDash(args, leg.from) then legs == [] else Traced(cfg, args, leg.to, legs)
    requires Reads(cfg, args, leg.to, legs, kinds, q) && p == Prepended(args, leg, q)
    ensures Traced(cfg, args, leg.from, legs') && Reads(cfg, args, leg.from, legs', kinds', p)
  {
    legs' := [leg] + legs;
    TracedPrepend(cfg, args, leg, legs);
    kinds' := ReadsPrepend(cfg, args, leg, legs, kinds, q);
  }

  lemma ParsesOperand(cfg: Config, args: seq<string>, at: Spot) returns (leg: Leg)
    requires WellFormed(cfg) && AtOperand(args, at) && cfg.mode != Posix
    ensures leg.from == at && leg.to == Spot(at.arg + 1, 0) && Legal(cfg, args, leg)
    ensures Parse(cfg, args[at.arg..], 0) == Prepended(args, leg, Parse(cfg, args[at.arg + 1..], 0))
  {
    var i := at.arg;
    leg := Leg(at, if cfg.mode == InOrder then Some(Plain(INORDER, Some(args[i]))) else None, Spot(i + 1, 0));
    assert args[i..][1..] == args[i + 1..] && args[i..i + 1] == [args[i]];
  }

  lemma ParsesDashDash(cfg: Config, args: seq<string>, at: Spot) returns (leg: Leg)
    requires WellFormed(cfg) && AtDashDash(args, at)
    ensures leg.from == at && leg.to == Spot(at.arg + 1, 0) && Legal(cfg, args, leg)
    ensures Parse(cfg, args[at.arg..], 0) == Prepended(args, leg, Parsed([], [], args[at.arg + 1..], [], false))
  {
    var i := at.arg;
    leg := Leg(at, None, Spot(i + 1, 0));
    assert args[i..][1..] == args[i + 1..] && args[i..i + 1] == [args[i]];
  }

  lemma LexesLegally(cfg: Config, args: seq<string>, at: Spot, off: nat) returns (o: Outcome)
    requires WellFormed(cfg) && at.arg < |args| && 1 <= off < |args[at.arg]| && off == Offset(at)
    requires !AtOperand(args, at) && !AtDashDash(args, at) && !Halts(cfg, args, at)
    ensures o == LexAt(cfg, args[at.arg..], off) && o.ret != -1
    ensures Legal(cfg, args, Leg(at, Some(Reported(o)), Spot(at.arg + o.taken, o.off)))
  {
    o := LexAt(cfg, args[at.arg..], off);
    LexAtRule(cfg, args[at.arg..], off);
    assert args[at.arg..][1..] == args[at.arg + 1..];
  }

  lemma DeliverIs(cfg: Config, rest: seq<string>, off: nat, o: Outcome) returns (q: Parsed)
    requires WellFormed(cfg) && |rest| > 0 && 1 <= off < |rest[0]| && o == LexAt(cfg, rest, off) && o.ret != -1
    ensures q == Parse(cfg, rest[o.taken..], o.off)
    ensures Deliver(cfg, rest, off) == q.(opts := rest[..o.taken] + q.opts, events := [Reported(o)] + q.events)
  {
    q := Parse(cfg, rest[o.taken..], o.off);
  }

  lemma DeliverPrepends(cfg: Config, args: seq<string>, at: Spot, off: nat, o: Outcome)
    requires WellFormed(cfg) && at.arg < |args| && 1 <= off < |args[at.arg]|
    requires o == LexAt(cfg, args[at.arg..], off) && o.ret != -1
    ensures at.arg + o.taken <= |args| && (o.off > 0 ==> at.arg + o.taken < |args| && o.off < |args[at.arg + o.taken]|)
    ensures Deliver(cfg, args[at.arg..], off) ==
      Prepended(args, Leg(at, Some(Reported(o)), Spot(at.arg + o.taken, o.off)), Parse(cfg, args[at.arg + o.taken..], o.off))
  {
    var q := DeliverIs(cfg, args[at.arg..], off, o);
    assert args[at.arg..][o.taken..] == args[at.arg + o.taken..];
    OptionPrepended(args, at, o, Deliver(cfg, args[at.arg..], off), q);
  }

  lemma OptionPrepended(args: seq<string>, at: Spot, o: Outcome, p: Parsed, q: Parsed)
    requires at.arg + o.taken <= |args|
    requires p == q.(opts := args[at.arg..][..o.taken] + q.opts, events := [Reported(o)] + q.events)
    ensures p == Prepended(args, Leg(at, Some(Reported(o)), Spot(at.arg + o.taken, o.off)), q)
  {
    assert args[at.arg..][..o.taken] == args[at.arg..at.arg + o.taken];
  }

  lemma ParsesOption(cfg: Config, args: seq<string>, at: Spot, off: nat) returns (leg: Leg)
    requires WellFormed(cfg) && at.arg < |args| && 1 <= off < |args[at.arg]| && off == Offset(at)
    requires !AtOperand(args, at) && !AtDashDash(args, at) && !Halts(cfg, args, at)
    ensures leg.from == at && Legal(cfg, args, leg) && at.arg <= leg.to.arg <= |args|
    ensures if leg.to.off == 0 then at.arg < leg.to.arg else at.arg == leg.to.arg && off < leg.to.off < |args[at.arg]|
    ensures Deliver(cfg, args[at.arg..], off) == Prepended(args, leg, Parse(cfg, args[leg.to.arg..], leg.to.off))
  {
    var o := LexesLegally(cfg, args, at, off);
    leg := Leg(at, Some(Reported(o)), Spot(at.arg + o.taken, o.off));
    DeliverPrepends(cfg, args, at, off, o);
  }

  lemma ParseStops(cfg: Config, args: seq<string>, at: Spot)
    requires WellFormed(cfg) && at.arg <= |args| && Stops(cfg, args, at)
    ensures Parse(cfg, args[at.arg..], at.off) == Parsed([], [], args[at.arg..], [], Halts(cfg, args, at))
  {
    if Halts(cfg, args, at) {
      LexAtRule(cfg, args[at.arg..], at.off);
    }
  }

  /**
    Every scan obeys the rules: the plain parser delivers the events of a trace, and sorts the arguments
    as its legs do.
   */
  lemma {:induction false} ParseIsTraced(cfg: Config, args: seq<string>, at: Spot) returns (legs: seq<Leg>, kinds: seq<Kind>)
    requires WellFormed(cfg) && at.arg <= |args| && (at.off > 0 ==> at.arg < |args| && at.off < |args[at.arg]|)
    ensures Traced(cfg, args, at, legs) && Reads(cfg, args, at, legs, kinds, Parse(cfg, args[at.arg..], at.off))
    decreases |args| - at.arg, if at.off > 0 then |args[at.arg]| - at.off else if at.arg == |args| then 0 else |args[at.arg]|
  {
    var p := Parse(cfg, args[at.arg..], at.off);
    if Stops(cfg, args, at) {
      ParseStops(cfg, args, at);
      legs := [];
      kinds := ReadsNothing(cfg, args, at, p);
    } else if AtDashDash(args, at) {
      var leg := ParsesDashDash(cfg, args, at);
      var q := Parsed([], [], args[at.arg + 1..], [], false);
      kinds := ReadsNothing(cfg, args, leg.to, q);
      legs, kinds := OneLegMore(cfg, args, leg, [], kinds, q, p);
    } else {
      var leg;
      if AtOperand(args, at) {
        leg := ParsesOperand(cfg, args, at);
      } else {
        leg := ParsesOption(cfg, args, at, Offset(at));
      }
      legs, kinds := ParseIsTraced(cfg, args, leg.to);
      legs, kinds := OneLegMore(cfg, args, leg, legs, kinds, Parse(cfg, args[leg.to.arg..], leg.to.off), p);
    }
  }

  // -- the rules leave nothing open --

  lemma LongRuleDecides(cfg: Config, text: string, next: seq<string>, shortToo: bool, e: Event, taken: nat, e': Event, taken': nat)
    requires cfg.long.Some?
    requires LongRule(cfg, text, next, shortToo, e, taken) && LongRule(cfg, text, next, shortToo, e', taken')
    ensures e' == e && taken' == taken
  {
    var word, attached := Spelling(text);
    assert WordRule(cfg, word, attached, next, shortToo, e, taken) && WordRule(cfg, word, attached, next, shortToo, e', taken');
  }

  lemma ListedDecides(options: string, before: string, c: char, after: string, before': string, after': string)
    requires Listed(options, before, c, after) && Listed(options, before', c, after') && |before| <= |before'|
    ensures after' == after
  {
    InPrefix(options, before');
    assert options[|before|] == c;
    assert after == options[|before| + 1..] && after' == options[|before'| + 1..];
  }

  lemma LetterRuleDecides(cfg: Config, c: char, after: string, rest: string, next: seq<string>, off: nat,
                          e: Event, taken: nat, off1: nat, e': Event, taken': nat, off2: nat)
    requires LetterRule(cfg, c, after, rest, next, off, e, taken, off1)
    requires LetterRule(cfg, c, after, rest, next, off, e', taken', off2)
    ensures e' == e && taken' == taken && off1 == off2
  {
    if cfg.long.Some? && c == 'W' && [';'] <= after {
      if rest != "" {
        LongRuleDecides(cfg, rest, next, false, e, taken, e', taken');
      } else if next != [] {
        LongRuleDecides(cfg, next[0], next[1..], false, e, taken - 1, e', taken' - 1);
      }
    }
  }

  lemma ShortRuleDecides(cfg: Config, c: char, rest: string, next: seq<string>, off: nat,
                         e: Event, taken: nat, off1: nat, e': Event, taken': nat, off2: nat)
    requires ShortRule(cfg, c, rest, next, off, e, taken, off1) && ShortRule(cfg, c, rest, next, off, e', taken', off2)
    ensures e' == e && taken' == taken && off1 == off2
  {
    if !(c == ':' || c !in cfg.options || (c == '-' && rest != "")) {
      var before, after :| Listed(cfg.options, before, c, after) && LetterRule(cfg, c, after, rest, next, off, e, taken, off1);
      var before', after' :| Listed(cfg.options, before', c, after') && LetterRule(cfg, c, after', rest, next, off, e', taken', off2);
      if |before| <= |before'| {
        ListedDecides(cfg.options, before, c, after, before', after');
      } else {
        ListedDecides(cfg.options, before', c, after', before, after);
      }
      LetterRuleDecides(cfg, c, after, rest, next, off, e, taken, off1, e', taken', off2);
    }
  }

  lemma OptionRuleDecides(cfg: Config, arg: string, next: seq<string>, off: nat,
                          e: Event, taken: nat, off1: nat, e': Event, taken': nat, off2: nat)
    requires off < |arg| && OptionRule(cfg, arg, next, off, e, taken, off1) && OptionRule(cfg, arg, next, off, e', taken', off2)
    ensures e' == e && taken' == taken && off1 == off2
  {
    var c := arg[off];
    var text := if c == '-' then arg[off + 1..] else arg[off..];
    var shortToo := c != '-' && c != ':' && c in cfg.options;
    if cfg.long.Some? && (c == '-' || cfg.longOnly) && !(shortToo && NoLongName(cfg, text, shortToo)) {
      LongRuleDecides(cfg, text, next, shortToo, e, taken, e', taken');
    } else {
      ShortRuleDecides(cfg, c, arg[off + 1..], next, off, e, taken, off1, e', taken', off2);
    }
  }

  lemma OptionDecides(cfg: Config, args: seq<string>, i: nat, off: nat, event: Option<Event>, to: Spot, event': Option<Event>, to': Spot)
    requires LegalOption(cfg, args, i, off, event, to) && LegalOption(cfg, args, i, off, event', to')
    ensures event' == event && to' == to
  {
    OptionRuleDecides(cfg, args[i], args[i + 1..], off, event.value, to.arg - i, to.off, event'.value, to'.arg - i, to'.off);
  }

  lemma LegalDecides(cfg: Config, args: seq<string>, leg: Leg, leg': Leg)
    requires Legal(cfg, args, leg) && Legal(cfg, args, leg') && leg.from == leg'.from
    ensures leg == leg'
  {
    if !AtOperand(args, leg.from) && !AtDashDash(args, leg.from) {
      OptionDecides(cfg, args, leg.from.arg, Offset(leg.from), leg.event, leg.to, leg'.event, leg'.to);
    }
  }

  /** There is one trace of a scan. */
  lemma {:induction false} TraceIsUnique(cfg: Config, args: seq<string>, at: Spot, legs: seq<Leg>, legs': seq<Leg>)
    requires Traced(cfg, args, at, legs) && Traced(cfg, args, at, legs')
    ensures legs == legs'
    decreases |legs|
  {
    if legs != [] && legs' != [] {
      LegalDecides(cfg, args, legs[0], legs'[0]);
      assert legs == [legs[0]] + legs[1..] && legs' == [legs'[0]] + legs'[1..];
      if !AtDashDash(args, at) {
        TraceIsUnique(cfg, args, legs[0].to, legs[1..], legs'[1..]);
      }
    }
  }

  lemma {:induction false} SortsAreUnique(args: seq<string>, at: nat, legs: seq<Leg>, kinds: seq<Kind>, kinds': seq<Kind>)
    requires SortedBy(args, at, legs, kinds) && SortedBy(args, at, legs, kinds') && |kinds| == |kinds'|
    ensures kinds == kinds'
    decreases |legs|
  {
    if legs != [] {
      var n := legs[0].to.arg - at;
      SortsAreUnique(args, legs[0].to.arg, legs[1..], kinds[n..], kinds'[n..]);
      assert kinds == kinds[..n] + kinds[n..] && kinds' == kinds'[..n] + kinds'[n..];
      assert kinds[..n] == kinds'[..n];
    }
  }

  /** So whatever obeys the rules reads the arguments as the plain parser does. */
  lemma TraceIsParse(cfg: Config, args: seq<string>, at: Spot, legs: seq<Leg>, kinds: seq<Kind>)
    requires WellFormed(cfg) && at.arg <= |args| && (at.off > 0 ==> at.arg < |args| && at.off < |args[at.arg]|)
    requires Traced(cfg, args, at, legs) && SortedBy(args, at.arg, legs, kinds) && at.arg + |kinds| == |args|
    ensures Reads(cfg, args, at, legs, kinds, Parse(cfg, args[at.arg..], at.off))
  {
    var legs', kinds' := ParseIsTraced(cfg, args, at);
    TraceIsUnique(cfg, args, at, legs, legs');
    SortsAreUnique(args, at.arg, legs, kinds, kinds');
  }

  // -- where a delivered argument stands --

  /** The option string gives c an argument. */
  ghost predicate TakesArgument(options: string, c: char) {
    exists before, after :: Listed(options, before, c, after) && [':'] <= after
  }

  /** text is a word without '=', then '=' and x. */
  ghost predicate Attached(text: string, x: string) {
    exists word :: SpelledAs(text, word, Some(x))
  }

  /** The arguments from number i up to j are of this sort, in the sorts of those from number at on. */
  ghost predicate AreOfSort(at: nat, kinds: seq<Kind>, i: nat, j: nat, sort: Kind) {
    at <= i <= j <= at + |kinds| && forall k :: i - at <= k < j - at ==> kinds[k] == sort
  }

  lemma SortsBehind(at: nat, kinds: seq<Kind>, n: nat, i: nat, j: nat, sort: Kind)
    requires n <= |kinds| && AreOfSort(at + n, kinds[n..], i, j, sort)
    ensures AreOfSort(at, kinds, i, j, sort)
  {
    assert forall k :: n <= k < |kinds| ==> kinds[k] == kinds[n..][k - n];
  }

  lemma FirstLeg(cfg: Config, args: seq<string>, at: Spot, legs: seq<Leg>, kinds: seq<Kind>)
    requires legs != [] && Traced(cfg, args, at, legs) && SortedBy(args, at.arg, legs, kinds)
    ensures Legal(cfg, args, legs[0]) && AreOfSort(at.arg, kinds, legs[0].from.arg, legs[0].to.arg, SortOf(args, legs[0]))
    ensures |legs| > 1 ==> Traced(cfg, args, legs[0].to, legs[1..])
  {
  }

  /** Each leg of a scan obeys the rules, and the arguments whose reading it ends are sorted by it. */
  lemma {:induction false} LegOfTrace(cfg: Config, args: seq<string>, at: Spot, legs: seq<Leg>, kinds: seq<Kind>, leg: Leg)
    requires Traced(cfg, args, at, legs) && SortedBy(args, at.arg, legs, kinds) && leg in legs
    ensures Legal(cfg, args, leg) && AreOfSort(at.arg, kinds, leg.from.arg, leg.to.arg, SortOf(args, leg))
    decreases |legs|
  {
    FirstLeg(cfg, args, at, legs, kinds);
    if leg != legs[0] {
      var n := legs[0].to.arg - at.arg;
      LegOfTrace(cfg, args, legs[0].to, legs[1..], kinds[n..], leg);
      SortsBehind(at.arg, kinds, n, leg.from.arg, leg.to.arg, SortOf(args, leg));
    }
  }

  /** Where the argument x of the option off characters into number i stands, if last is the last argument read. */
  ghost predicate StandsIn(cfg: Config, args: seq<string>, i: nat, off: nat, last: int, x: string) {
    && i <= last < |args| && off < |args[i]|
    && (|| (last > i && x == args[last])
        || (last == i && Attached(args[i][off + 1..], x))
        || (last == i && cfg.longOnly && Attached(args[i][off..], x))
        || (last == i + 1 && args[i][off] == 'W' && Attached(args[last], x))
        || (last == i && x == args[i][off + 1..] && TakesArgument(cfg.options, args[i][off])))
  }

  /**
    An argument that is delivered is the last entry of argv its leg reads, and counted among the options; or
    it is attached to a word in that entry, which is a long option; or it is the rest of a cluster, right
    behind a letter that takes an argument.
   */
  lemma DeliveredArgument(cfg: Config, args: seq<string>, at: Spot, legs: seq<Leg>, kinds: seq<Kind>, leg: Leg, x: string)
    requires Traced(cfg, args, at, legs) && SortedBy(args, at.arg, legs, kinds) && leg in legs
    requires at.arg + |kinds| == |args| && leg.event.Some? && leg.event.value.optarg == Some(x)
    ensures var i, last := leg.from.arg, leg.to.arg - 1;
      && at.arg <= i <= last < |args| && kinds[last - at.arg] == Option_
      && if AtOperand(args, leg.from) then last == i && x == args[i]
         else StandsIn(cfg, args, i, Offset(leg.from), last, x)
  {
    LegOfTrace(cfg, args, at, legs, kinds, leg);
    if !AtOperand(args, leg.from) {
      LegArgument(cfg, args, leg.from.arg, Offset(leg.from), leg.event, leg.to, x);
    }
  }

  lemma LegArgument(cfg: Config, args: seq<string>, i: nat, off: nat, event: Option<Event>, to: Spot, x: string)
    requires LegalOption(cfg, args, i, off, event, to) && event.value.optarg == Some(x)
    ensures StandsIn(cfg, args, i, off, to.arg - 1, x)
  {
    OptionArgument(cfg, args[i], args[i + 1..], off, event.value, to.arg - i, to.off, x);
  }

  lemma LongArgument(cfg: Config, text: string, next: seq<string>, shortToo: bool, e: Event, taken: nat, x: string)
    requires cfg.long.Some? && LongRule(cfg, text, next, shortToo, e, taken) && e.optarg == Some(x)
    ensures (taken == 1 && Attached(text, x)) || (taken == 2 && next != [] && x == next[0])
  {
    var word, attached :| SpelledAs(text, word, attached) && WordRule(cfg, word, attached, next, shortToo, e, taken);
    assert attached == Some(x) ==> SpelledAs(text, word, Some(x));
  }

  lemma OptionArgument(cfg: Config, arg: string, next: seq<string>, off: nat, e: Event, taken: nat, off': nat, x: string)
    requires off < |arg| && OptionRule(cfg, arg, next, off, e, taken, off') && e.optarg == Some(x)
    ensures off' == 0 && 1 <= taken <= 1 + |next|
    ensures || (taken > 1 && x == next[taken - 2])
            || (taken == 1 && Attached(arg[off + 1..], x))
            || (taken == 1 && cfg.longOnly && Attached(arg[off..], x))
            || (taken == 2 && arg[off] == 'W' && Attached(next[0], x))
            || (taken == 1 && x == arg[off + 1..] && TakesArgument(cfg.options, arg[off]))
  {
    var c := arg[off];
    var text := if c == '-' then arg[off + 1..] else arg[off..];
    var shortToo := c != '-' && c != ':' && c in cfg.options;
    if cfg.long.Some? && (c == '-' || cfg.longOnly) && !(shortToo && NoLongName(cfg, text, shortToo)) {
      LongArgument(cfg, text, next, shortToo, e, taken, x);
    } else {
      ShortArgument(cfg, c, arg[off + 1..], next, off, e, taken, off', x);
    }
  }

  lemma ShortArgument(cfg: Config, c: char, rest: string, next: seq<string>, off: nat, e: Event, taken: nat, off': nat, x: string)
    requires ShortRule(cfg, c, rest, next, off, e, taken, off') && e.optarg == Some(x)
    ensures off' == 0 && 1 <= taken <= 1 + |next|
    ensures || (taken > 1 && x == next[taken - 2])
            || (taken == 1 && Attached(rest, x))
            || (taken == 2 && c == 'W' && Attached(next[0], x))
            || (taken == 1 && x == rest && TakesArgument(cfg.options, c))
  {
    var before, after :| Listed(cfg.options, before, c, after) && LetterRule(cfg, c, after, rest, next, off, e, taken, off');
    if cfg.long.Some? && c == 'W' && [';'] <= after {
      if rest != "" {
        LongArgument(cfg, rest, next, false, e, taken, x);
      } else {
        LongArgument(cfg, next[0], next[1..], false, e, taken - 1, x);
      }
    }
  }
}
