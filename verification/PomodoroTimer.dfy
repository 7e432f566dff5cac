/**
 The Pomodoro countdown of the planner's "Pomodoro Timer" tab: two fields,
 `is_running` and the remaining seconds, the enablement of the Start, Stop
 and Reset buttons, and the text of the time label (the field `display`).

 The specification is on values: `Timer` is the whole observable state and
 each command is a function from the state before to the state after. The
 class `PomodoroTimer` updates the same fields in place, and each of its
 command methods (`Start`, `Stop`, `Reset`, `Tick`, `Complete`, `Run`) is
 proved to perform exactly the corresponding function and keep `Inv`. The
 countdown thread's body is `Run`; one iteration of its loop is `Tick`, and
 what follows the loop is `Complete`.
 */
module Pomodoro {
  import opened ClockLabel

  /** The session length in seconds, fixed at 25 minutes. */
  const FullDuration: nat := 25 * 60

  /** The observable state of the Pomodoro tab; `notifications` counts the
      "session complete" desktop notifications fired so far. */
  datatype Timer = Timer(
    isRunning: bool,
    time: int,
    startEnabled: bool,
    stopEnabled: bool,
    resetEnabled: bool,
    display: string,
    notifications: nat)

  /** What the state means to the user; derived, the code keeps no phase of its own. */
  datatype Phase = Counting | Paused | Expired

  function PhaseOf(s: Timer): Phase {
    if s.isRunning then Counting else if s.time == 0 then Expired else Paused
  }

  /** The state right after the tab is built. */
  function Initial(): Timer {
    Timer(false, FullDuration, true, false, false, "25:00", 0)
  }

  /** What holds of every state the tab can reach. */
  predicate Inv(s: Timer) {
    && 0 <= s.time <= FullDuration
    // Start is clickable exactly when no countdown runs, Stop exactly when one does
    && s.startEnabled == !s.isRunning
    && s.stopEnabled == s.isRunning
    // Reset becomes clickable with the first start and stays so
    && (s.isRunning ==> s.resetEnabled)
    && (!s.resetEnabled ==> s.time == FullDuration && s.notifications == 0 && s.display == Format(FullDuration))
    // the label shows the full session until the first tick, and afterwards the second before the
    // remaining time, because each tick writes the label before it counts down
    && s.display == if s.time == FullDuration then Format(FullDuration) else Format(s.time + 1)
  }

  function StartSpec(s: Timer): Timer {
    if s.isRunning then s
    else s.(isRunning := true, startEnabled := false, stopEnabled := true, resetEnabled := true)
  }

  function StopSpec(s: Timer): Timer {
    if s.isRunning then s.(isRunning := false, startEnabled := true, stopEnabled := false)
    else s
  }

  function ResetSpec(s: Timer): Timer {
    StopSpec(s).(time := FullDuration, display := Format(FullDuration))
  }

  /** The condition of the countdown loop. */
  predicate LoopGuard(s: Timer) {
    s.time > 0 && s.isRunning
  }

  /** One iteration of the countdown loop: show the remaining time, then count one second down. */
  function TickSpec(s: Timer): Timer
    requires s.time >= 0
  {
    s.(display := Format(s.time), time := s.time - 1)
  }

  /** What the countdown thread does once its loop has ended. */
  function CompleteSpec(s: Timer): Timer {
    if s.time == 0 then
      s.(notifications := s.notifications + 1, isRunning := false, startEnabled := true, stopEnabled := false)
    else s
  }

  /** The whole countdown thread, with no other command landing while it runs. */
  function RunSpec(s: Timer): Timer
    decreases if s.time > 0 then s.time else 0
  {
    if LoopGuard(s) then RunSpec(TickSpec(s)) else CompleteSpec(s)
  }

  lemma InitialInv()
    ensures Inv(Initial()) && PhaseOf(Initial()) == Paused
    ensures Initial().display == Format(Initial().time)
  {
    FullSessionLabel();
  }

  /** Start only acts when nothing runs, and never touches the remaining time. */
  lemma StartProperties(s: Timer)
    requires Inv(s)
    ensures Inv(StartSpec(s)) && StartSpec(s).isRunning
    ensures StartSpec(s).time == s.time && StartSpec(s).display == s.display
    ensures StartSpec(s).notifications == s.notifications
    ensures s.isRunning ==> StartSpec(s) == s
  {
  }

  /** Stop clears the running flag, keeps the remaining seconds, and is idempotent. */
  lemma StopProperties(s: Timer)
    requires Inv(s)
    ensures Inv(StopSpec(s)) && !StopSpec(s).isRunning
    ensures StopSpec(s).time == s.time && StopSpec(s).display == s.display
    ensures StopSpec(s).notifications == s.notifications && StopSpec(s).resetEnabled == s.resetEnabled
    ensures !s.isRunning ==> StopSpec(s) == s
    ensures StopSpec(StopSpec(s)) == StopSpec(s)
  {
  }

  /** From any state whatever, reset lands on a stopped full session showing "25:00",
      and resetting twice is resetting once. */
  lemma ResetLandsOnFullSession(s: Timer)
    ensures !ResetSpec(s).isRunning && ResetSpec(s).time == FullDuration && ResetSpec(s).display == "25:00"
    ensures ResetSpec(ResetSpec(s)) == ResetSpec(s)
  {
    FullSessionLabel();
  }

  /** From a reachable state, reset keeps the invariant, the notification count and the
      Reset button's enablement. */
  lemma ResetProperties(s: Timer)
    requires Inv(s)
    ensures Inv(ResetSpec(s))
    ensures ResetSpec(s).notifications == s.notifications && ResetSpec(s).resetEnabled == s.resetEnabled
  {
    ResetLandsOnFullSession(s);
  }

  /** A tick counts exactly one second down and never below zero. */
  lemma TickProperties(s: Timer)
    requires Inv(s) && LoopGuard(s)
    ensures Inv(TickSpec(s))
    ensures TickSpec(s).time == s.time - 1 >= 0
    ensures TickSpec(s).isRunning && TickSpec(s).notifications == s.notifications
  {
  }

  /** Completion fires one notification and stops exactly when the time has run out. */
  lemma CompleteProperties(s: Timer)
    requires Inv(s)
    ensures Inv(CompleteSpec(s)) && CompleteSpec(s).time == s.time
    ensures s.time == 0 ==> !CompleteSpec(s).isRunning && CompleteSpec(s).notifications == s.notifications + 1
    ensures s.time != 0 ==> CompleteSpec(s) == s
  {
  }

  /** The countdown thread ends stopped; if it started running it ends at zero with exactly
      one more notification, showing the label of the final second, `Format(1)`, which reads
      "00:01" (`LastSecondLabel`). */
  lemma {:induction false} RunOutcome(s: Timer)
    requires Inv(s)
    ensures Inv(RunSpec(s)) && !RunSpec(s).isRunning
    ensures RunSpec(s).time == if s.isRunning then 0 else s.time
    ensures RunSpec(s).notifications == s.notifications + if s.isRunning || s.time == 0 then 1 else 0
    ensures RunSpec(s).display == if s.isRunning then Format(1) else s.display
    ensures RunSpec(s).resetEnabled == s.resetEnabled
    decreases s.time
  {
    if LoopGuard(s) {
      TickProperties(s);
      RunOutcome(TickSpec(s));
    } else {
      CompleteProperties(s);
    }
  }

  /** The label of a reachable state never reads "00:00": every text it shows is that of a
      remaining time of at least one second. */
  lemma DisplayNeverZero(s: Timer)
    requires Inv(s)
    ensures s.display != "00:00"
  {
    var shown: nat := if s.time == FullDuration then FullDuration else s.time + 1;
    assert s.display == Format(shown);
    if s.display == "00:00" {
      LabelRoundTrip("00:00");
      FormatInjective(shown, 0);
      assert false;
    }
  }

  /** Pressing Start on an expired session that was not reset runs no tick: the thread
      takes the completion branch at once, notifies again and stops. */
  lemma RestartWhenExpired(s: Timer)
    requires Inv(s) && PhaseOf(s) == Expired
    ensures RunSpec(StartSpec(s)) == s.(notifications := s.notifications + 1)
  {
    assert RunSpec(StartSpec(s)) == CompleteSpec(StartSpec(s));
  }

  /** The user's commands and the countdown thread's steps, interleaved at the granularity of
      one loop iteration; a tick whose loop condition is false does nothing. */
  datatype Command = StartCmd | StopCmd | ResetCmd | TickCmd | CompleteCmd

  function Step(s: Timer, c: Command): Timer
    requires s.time >= 0
  {
    match c
    case StartCmd => StartSpec(s)
    case StopCmd => StopSpec(s)
    case ResetCmd => ResetSpec(s)
    case TickCmd => if LoopGuard(s) then TickSpec(s) else s
    case CompleteCmd => CompleteSpec(s)
  }

  function Exec(s: Timer, cmds: seq<Command>): Timer
    requires Inv(s)
    decreases |cmds|
  {
    if cmds == [] then s
    else
      var t := Step(s, cmds[0]);
      assert Inv(t) by { StepInv(s, cmds[0]); }
      Exec(t, cmds[1..])
  }

  lemma StepInv(s: Timer, c: Command)
    requires Inv(s)
    ensures Inv(Step(s, c))
    ensures c != ResetCmd ==> Step(s, c).time <= s.time
  {
    match c
    case ResetCmd => ResetProperties(s);
    case TickCmd => if LoopGuard(s) { TickProperties(s); }
    case _ =>
  }

  /** Whatever the order of commands and ticks, the buttons match the running flag and the
      remaining time stays within [0, 1500]; without a reset it never goes up. */
  lemma {:induction false} ExecInv(s: Timer, cmds: seq<Command>)
    requires Inv(s)
    ensures Inv(Exec(s, cmds))
    ensures ResetCmd !in cmds ==> Exec(s, cmds).time <= s.time
    decreases |cmds|
  {
    if cmds != [] {
      StepInv(s, cmds[0]);
      var t := Step(s, cmds[0]);
      ExecInv(t, cmds[1..]);
      assert ResetCmd !in cmds ==> ResetCmd !in cmds[1..];
    }
  }

  /** Every state reachable from the freshly built tab satisfies the invariant. */
  lemma ReachableInv(cmds: seq<Command>)
    ensures Inv(Initial()) && Inv(Exec(Initial(), cmds))
    ensures Exec(Initial(), cmds).startEnabled == !Exec(Initial(), cmds).isRunning
    ensures Exec(Initial(), cmds).stopEnabled == Exec(Initial(), cmds).isRunning
    ensures 0 <= Exec(Initial(), cmds).time <= FullDuration
    ensures Exec(Initial(), cmds).display != "00:00"
  {
    InitialInv();
    ExecInv(Initial(), cmds);
    DisplayNeverZero(Exec(Initial(), cmds));
  }

  /** The Pomodoro tab's state, updated in place by the button handlers and the countdown thread. */
  class PomodoroTimer {
    var isRunning: bool
    var time: int
    var startEnabled: bool
    var stopEnabled: bool
    var resetEnabled: bool
    var display: string
    ghost var notifications: nat

    ghost function State(): Timer
      reads this
    {
      Timer(isRunning, time, startEnabled, stopEnabled, resetEnabled, display, notifications)
    }

    ghost predicate Valid()
      reads this
    {
      Inv(State())
    }

    /** The widgets and fields as the tab is built. */
    constructor ()
      ensures State() == Initial() && Valid()
    {
      isRunning := false;
      time := 25 * 60;
      startEnabled := true;
      stopEnabled := false;
      resetEnabled := false;
      display := "25:00";
      notifications := 0;
      InitialInv();
    }

    /** Returns whether a countdown thread is launched: only when none was running. */
    method Start() returns (launched: bool)
      requires Valid()
      modifies this
      ensures Valid() && State() == StartSpec(old(State()))
      ensures launched == !old(isRunning)
    {
      launched := false;
      if !isRunning {
        isRunning := true;
        startEnabled := false;
        stopEnabled := true;
        resetEnabled := true;
        launched := true;
      }
      StartProperties(old(State()));
    }

    method Stop()
      requires Valid()
      modifies this
      ensures Valid() && State() == StopSpec(old(State()))
    {
      if isRunning {
        isRunning := false;
        startEnabled := true;
        stopEnabled := false;
      }
      StopProperties(old(State()));
    }

    method Reset()
      requires Valid()
      modifies this
      ensures Valid() && State() == ResetSpec(old(State()))
    {
      Stop();
      time := 25 * 60;
      UpdateDisplay();
      ResetProperties(old(State()));
    }

    /** Writes the remaining time to the time label as "MM:SS". */
    method UpdateDisplay()
      requires time >= 0
      modifies this`display
      ensures display == Format(time)
    {
      var (mins, secs) := DivMod60(time);
      display := Pad2(mins) + [':'] + Pad2(secs);
    }

    /** One iteration of the countdown loop, entered only while its condition holds. */
    method Tick()
      requires Valid() && isRunning && time > 0
      modifies this
      ensures Valid() && State() == TickSpec(old(State()))
    {
      UpdateDisplay();
      time := time - 1;
      TickProperties(old(State()));
    }

    /** After the loop: notify and stop if the time has run out. */
    method Complete()
      requires Valid()
      modifies this
      ensures Valid() && State() == CompleteSpec(old(State()))
    {
      if time == 0 {
        notifications := notifications + 1;
        isRunning := false;
        startEnabled := true;
        stopEnabled := false;
      }
      CompleteProperties(old(State()));
    }

    /** The countdown thread: tick while running and above zero, then complete.
        Returns the number of loop iterations. */
    method Run() returns (ticks: nat)
      requires Valid()
      modifies this
      ensures Valid() && State() == RunSpec(old(State()))
      ensures ticks == if old(isRunning) then old(time) else 0
      ensures !isRunning && time == if old(isRunning) then 0 else old(time)
      ensures notifications == old(notifications) + if old(isRunning) || old(time) == 0 then 1 else 0
    {
      ticks := 0;
      while time > 0 && isRunning
        invariant Valid()
        invariant RunSpec(State()) == RunSpec(old(State()))
        invariant old(isRunning) ==> isRunning && ticks + time == old(time)
        invariant !old(isRunning) ==> ticks == 0 && State() == old(State())
        decreases time
      {
        Tick();
        ticks := ticks + 1;
      }
      Complete();
      RunOutcome(old(State()));
    }
  }
}
