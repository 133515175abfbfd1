/**
  Wait statuses: the flags that signals and exit leave on a task (IXLandSystem/kernel/signal.c,
  exit.c), their encoding (IXLandSystem/kernel/wait.c) and the decoding macros
  (IXLandLibC/include/linux/wait.h).
 */
module Status {

  // Signal numbers of the host's <signal.h>; the values are those of Darwin.
  const SIGINT := 2
  const SIGKILL := 9
  const SIGTERM := 15
  const SIGSTOP := 17
  const SIGCONT := 19

  datatype Flags = Flags(exited: bool, exitStatus: int, signaled: bool, termsig: int,
                         stopped: bool, stopsig: int, continued: bool)

  const FRESH := Flags(false, 0, false, 0, false, 0, false)

  predicate Terminating(sig: int) {
    sig == SIGTERM || sig == SIGKILL || sig == SIGINT
  }

  datatype Act = Deliver(sig: int) | Exit(status: int)

  function Apply(f: Flags, act: Act): Flags {
    match act
    case Deliver(sig) =>
      if sig == SIGSTOP then f.(stopped := true, stopsig := SIGSTOP)
      else if sig == SIGCONT then f.(stopped := false, continued := true)
      else if Terminating(sig) then f.(signaled := true, termsig := sig, exited := true)
      else f
    case Exit(status) => f.(exitStatus := status, exited := true)
  }

  function After(history: seq<Act>): Flags {
    if history == [] then FRESH else Apply(After(history[..|history| - 1]), history[|history| - 1])
  }

  /** task_to_status; << 8 and | 0x7f are written with * and +, & 0xFF with % (as on two's complement). */
  function ToStatus(f: Flags): int {
    if f.signaled then f.termsig
    else if f.stopped then f.stopsig * 256 + 0x7f
    else if f.continued then SIGCONT * 256 + 0x7f
    else f.exitStatus % 256 * 256
  }

  predicate WIfExited(status: int) { status % 0x80 == 0 }

  function WExitStatus(status: int): int { status / 256 % 256 }

  /** The cast to signed char and the arithmetic shift, written out. */
  predicate WIfSignaled(status: int) {
    var c := status % 0x80 + 1;
    var signed := if c >= 0x80 then c - 0x100 else c;
    signed / 2 > 0
  }

  function WTermSig(status: int): int { status % 0x80 }

  predicate WIfStopped(status: int) { status % 256 == 0x7f }

  function WStopSig(status: int): int { WExitStatus(status) }

  predicate WIfContinued(status: int) { status == 0xffff }

  // -- the history of a task --

  /** Term, Stop, Cont and Leave are what wait can tell apart; other signals only become pending. */
  datatype Class = Term | Stop | Cont | Leave | Other

  function ClassOf(act: Act): Class {
    match act
    case Exit(_) => Leave
    case Deliver(sig) =>
      if Terminating(sig) then Term else if sig == SIGSTOP then Stop else if sig == SIGCONT then Cont else Other
  }

  /** i is the place of the last act of the history that is of one of the classes. */
  ghost predicate LastOf(history: seq<Act>, classes: set<Class>, i: int) {
    0 <= i < |history| && ClassOf(history[i]) in classes && forall j :: i < j < |history| ==> ClassOf(history[j]) !in classes
  }

  ghost predicate Never(history: seq<Act>, classes: set<Class>) {
    forall i :: 0 <= i < |history| ==> ClassOf(history[i]) !in classes
  }

  /** Each flag says one thing about the history; it changes with the last act as the history grows. */
  lemma {:induction false} FlagsTellHistory(history: seq<Act>)
    ensures var f := After(history);
      && (f.signaled <==> !Never(history, {Term}))
      && (f.signaled ==> exists i :: LastOf(history, {Term}, i) && history[i] == Deliver(f.termsig))
      && (f.continued <==> !Never(history, {Cont}))
      && (f.stopped <==> exists i :: LastOf(history, {Stop, Cont}, i) && history[i] == Deliver(SIGSTOP))
      && (f.stopped ==> f.stopsig == SIGSTOP)
      && (f.exited <==> !Never(history, {Term, Leave}))
      && (if Never(history, {Leave}) then f.exitStatus == 0
          else exists i :: LastOf(history, {Leave}, i) && history[i] == Exit(f.exitStatus))
  {
    if history != [] {
      FlagsTellHistory(history[..|history| - 1]);
      NeverGrows(history, {Term});
      NeverGrows(history, {Cont});
      NeverGrows(history, {Term, Leave});
      NeverGrows(history, {Leave});
      LastGrows(history, {Term});
      LastGrows(history, {Stop, Cont});
      LastGrows(history, {Leave});
    }
  }

  lemma NeverGrows(history: seq<Act>, classes: set<Class>)
    requires history != []
    ensures Never(history, classes) <==>
      Never(history[..|history| - 1], classes) && ClassOf(history[|history| - 1]) !in classes
  {
    assert history == history[..|history| - 1] + [history[|history| - 1]];
  }

  lemma LastGrows(history: seq<Act>, classes: set<Class>)
    requires history != []
    ensures var n := |history| - 1;
      if ClassOf(history[n]) in classes then forall i :: LastOf(history, classes, i) <==> i == n
      else forall i :: LastOf(history, classes, i) <==> LastOf(history[..n], classes, i)
  {
    var n := |history| - 1;
    if ClassOf(history[n]) in classes {
      forall i ensures LastOf(history, classes, i) <==> i == n { }
    } else {
      forall i ensures LastOf(history, classes, i) <==> LastOf(history[..n], classes, i) {
        if LastOf(history[..n], classes, i) {
          assert forall j :: i < j < n ==> history[..n][j] == history[j];
        }
      }
    }
  }

  /**
    What a parent learns from the status of a task with this history: the last terminating signal if
    there was one; else that it is stopped, if the last of its stops and continuations was a stop; else,
    if it was ever continued, a stop by SIGCONT; and only otherwise its exit status modulo 256.
   */
  lemma StatusTellsHistory(history: seq<Act>)
    ensures var s := ToStatus(After(history));
      if !Never(history, {Term}) then
        WIfSignaled(s) && exists i :: LastOf(history, {Term}, i) && history[i] == Deliver(WTermSig(s))
      else if exists i :: LastOf(history, {Stop, Cont}, i) && history[i] == Deliver(SIGSTOP) then
        WIfStopped(s) && WStopSig(s) == SIGSTOP
      else if !Never(history, {Cont}) then
        WIfStopped(s) && WStopSig(s) == SIGCONT
      else
        WIfExited(s) &&
        if Never(history, {Leave}) then WExitStatus(s) == 0
        else exists i :: LastOf(history, {Leave}, i) && history[i].Exit? && WExitStatus(s) == history[i].status % 256
  {
    FlagsTellHistory(history);
    SoundFlags(history);
    StatusOfFlags(After(history));
  }

  /** What the flags of a task can be. */
  predicate Sound(f: Flags) {
    (f.signaled ==> Terminating(f.termsig)) && (f.stopped ==> f.stopsig == SIGSTOP)
  }

  lemma SoundFlags(history: seq<Act>)
    ensures Sound(After(history))
  {
    FlagsTellHistory(history);
    var f := After(history);
    if f.signaled {
      var i :| LastOf(history, {Term}, i) && history[i] == Deliver(f.termsig);
    }
  }

  lemma StatusOfFlags(f: Flags)
    requires Sound(f)
    ensures var s := ToStatus(f);
      if f.signaled then WIfSignaled(s) && WTermSig(s) == f.termsig && !WIfExited(s) && !WIfStopped(s) && !WIfContinued(s)
      else if f.stopped then WIfStopped(s) && WStopSig(s) == SIGSTOP && !WIfExited(s) && !WIfSignaled(s) && !WIfContinued(s)
      else if f.continued then WIfStopped(s) && WStopSig(s) == SIGCONT && !WIfExited(s) && !WIfSignaled(s) && !WIfContinued(s)
      else WIfExited(s) && WExitStatus(s) == f.exitStatus % 256 && !WIfSignaled(s) && !WIfStopped(s) && !WIfContinued(s)
  {
    if !f.signaled && !f.stopped && !f.continued {
      ExitDecodes(f.exitStatus);
    }
  }

  lemma ExitDecodes(status: int)
    ensures var s := status % 256 * 256;
      WIfExited(s) && WExitStatus(s) == status % 256 && !WIfSignaled(s) && !WIfStopped(s) && !WIfContinued(s)
  {
    var r := status % 256;
    assert r * 256 == 0x80 * (2 * r);
  }

  /** Every status decodes one way only: as exited, as signaled or as stopped. */
  lemma StatusDecodesOneWay(history: seq<Act>)
    ensures var s := ToStatus(After(history));
      && (WIfExited(s) || WIfSignaled(s) || WIfStopped(s))
      && !(WIfExited(s) && WIfSignaled(s)) && !(WIfExited(s) && WIfStopped(s)) && !(WIfSignaled(s) && WIfStopped(s))
  {
    SoundFlags(history);
    StatusOfFlags(After(history));
  }

  /** WIFCONTINUED never holds, so a continued task cannot be told from one stopped by SIGCONT. */
  lemma ContinuedIsNeverReported(history: seq<Act>)
    ensures !WIfContinued(ToStatus(After(history)))
  {
    SoundFlags(history);
    StatusOfFlags(After(history));
  }

  /** The exit status gets through just when no signal ever terminated, stopped or continued the task. */
  lemma ExitGetsThrough(history: seq<Act>)
    ensures WIfExited(ToStatus(After(history))) <==> Never(history, {Term, Stop, Cont})
  {
    var f := After(history);
    SoundFlags(history);
    StatusOfFlags(f);
    FlagsTellHistory(history);
    NeverAny(history);
    if Never(history, {Cont}) && !Never(history, {Stop}) {
      var i := LastStop(history);
      assert f.stopped;
    }
    if Never(history, {Stop}) && Never(history, {Cont}) {
      forall i ensures !LastOf(history, {Stop, Cont}, i) { }
    }
  }

  lemma NeverAny(history: seq<Act>)
    ensures Never(history, {Term, Stop, Cont}) <==> Never(history, {Term}) && Never(history, {Stop}) && Never(history, {Cont})
  {
  }

  lemma {:induction false} LastStop(history: seq<Act>) returns (i: int)
    requires Never(history, {Cont}) && !Never(history, {Stop})
    ensures LastOf(history, {Stop, Cont}, i) && history[i] == Deliver(SIGSTOP)
  {
    var n := |history| - 1;
    if ClassOf(history[n]) == Stop {
      i := n;
    } else {
      NeverGrows(history, {Cont});
      NeverGrows(history, {Stop});
      i := LastStop(history[..n]);
      LastGrows(history, {Stop, Cont});
    }
  }
}
