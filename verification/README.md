# Maverick Planner: the Pomodoro countdown

Maverick Planner is a tkinter desktop task tracker. Its "Pomodoro Timer" tab holds a
25-minute countdown. The state is two fields: `is_running` and `pomodoro_time`, the
remaining seconds. There are three buttons (Start, Stop, Reset) and a time label that
shows the remaining seconds as `MM:SS`. Start launches a thread. While the session is
running and time remains, that thread shows the time on the label, sleeps one second
and counts down by one. When its loop ends at zero, it fires a "session complete"
desktop notification and clears `is_running`.

This project models that countdown in two modules:

- `ClockLabel` (`ClockLabel.dfy`) is pure. It holds Python's `divmod(t, 60)` and the
  `02` zero-padding format, which together give `Format(t)`. It also holds
  `LabelSeconds`, which reads an `MM:SS` label back into seconds. It proves that the two
  are inverse bijections between `[0, 6000)` and the well-formed labels.
- `Pomodoro` (`PomodoroTimer.dfy`) is the state machine. `Timer` is the observable state:
  the running flag, the remaining seconds, the enablement of the three buttons, the label
  text, and a count of completion notifications fired. Each operation is a function on
  `Timer`, and lemmas state what each one preserves and guarantees. The class
  `PomodoroTimer` updates the same fields in place. Each command method (`Start`, `Stop`,
  `Reset`, `Tick`, `Complete`, `Run`) is proved to perform exactly its function, and to keep
  the invariant `Inv`. `UpdateDisplay` is the label refresh those methods call.

Start does not run the countdown. It returns whether it launched the countdown thread.
The thread's body is `Run`: a loop of `Tick` calls followed by `Complete`. `Run` executes
sequentially, with no other command landing while it runs. Arbitrary interleavings of
user commands with the thread's steps are covered by `Exec`, which runs over a
`Command` sequence. Each `Tick` there is atomic.

The phase (counting, paused, expired) is derived from the two fields by `PhaseOf`. The
code keeps no phase of its own. "Stopped" and "not yet started" are told apart only by
the Reset button, which stays disabled until the first Start.

Behaviour a Pomodoro timer might be expected to have that this code does not have:

- The duration is fixed at 1500 seconds. No duration is configurable or validated.
- The session title is never validated. It appears only in the notification text, which
  is not modelled.
- The code has no activity counting (keyboard and pointer): `pynput` and `pandas` are
  imported at MaverickPlanner.py:11-12 but never used. It has no session summary and no
  session log.
- The code has no separate Completed phase. An expired session that is started again,
  without a reset, runs no tick and notifies once more (`RestartWhenExpired`).

## Model

| member | source | states |
|---|---|---|
| `ClockLabel.Decimal` | MaverickPlanner.py:209 | definition: `str(n)` of a non-negative integer inside the f-string; its properties are in `DecimalRoundTrip` |
| `ClockLabel.Pad2` | MaverickPlanner.py:209 | definition: the `:02` format specification; its properties are in `Pad2TwoDigits` and `Pad2Value` |
| `ClockLabel.Format` | MaverickPlanner.py:224-225 | definition: the label text `f"{mins:02}:{secs:02}"` of `divmod(t, 60)` (also written at 208-209); its properties are in `FormatShape`, `FormatRoundTrip`, `LabelRoundTrip` and `FormatInjective` |
| `ClockLabel.DivMod60` | MaverickPlanner.py:208 | `divmod(t, 60)` yields `mins*60 + secs == t` with `0 <= secs < 60` |
| `ClockLabel.DecimalRoundTrip` | MaverickPlanner.py:209 | the decimal rendering of `n` is a non-empty digit string that denotes `n`; it is one digit long exactly when `n < 10` |
| `ClockLabel.Pad2TwoDigits` | MaverickPlanner.py:209 | below 100, the `02` format gives exactly the tens digit and then the units digit |
| `ClockLabel.Pad2Value` | MaverickPlanner.py:209 | the `02` format keeps the value; it is at least two digits long, and exactly two when `n < 100` |
| `ClockLabel.FormatShape` | MaverickPlanner.py:208-209 | for every `t`, the label is minutes, then `':'`, then exactly two digits of seconds |
| `ClockLabel.FormatRoundTrip` | MaverickPlanner.py:224-225 | for `t < 6000`, the label is a 5-character `MM:SS` with `':'` at index 2, and it reads back as `t` |
| `ClockLabel.LabelRoundTrip` | MaverickPlanner.py:224-225 | every well-formed `MM:SS` label is `Format` of the seconds it reads as (the converse round trip) |
| `ClockLabel.FormatInjective` | MaverickPlanner.py:208-209 | two different remaining times never show the same label |
| `ClockLabel.FullSessionLabel` | MaverickPlanner.py:170 | `Format(1500) == "25:00"`, the text the label is created with |
| `ClockLabel.LastSecondLabel` | MaverickPlanner.py:207-211 | the last label the loop writes, with one second left, is `"00:01"` |
| `Pomodoro.Initial` | MaverickPlanner.py:170-184 | definition: the state as the tab is built; its properties are in `InitialInv` |
| `Pomodoro.StartSpec` | MaverickPlanner.py:186-193 | definition: the start handler on values; its properties are in `StartProperties` |
| `Pomodoro.StopSpec` | MaverickPlanner.py:195-199 | definition: the stop handler on values; its properties are in `StopProperties` |
| `Pomodoro.ResetSpec` | MaverickPlanner.py:201-204 | definition: stop, then 1500 s and the label for 1500; its properties are in `ResetLandsOnFullSession` and `ResetProperties` |
| `Pomodoro.TickSpec` | MaverickPlanner.py:208-211 | definition: one loop iteration, label then decrement; its properties are in `TickProperties` |
| `Pomodoro.CompleteSpec` | MaverickPlanner.py:213-221 | definition: the branch after the loop; its properties are in `CompleteProperties` |
| `Pomodoro.RunSpec` | MaverickPlanner.py:206-221 | definition: the whole countdown thread; its properties are in `RunOutcome` and `RestartWhenExpired` |
| `Pomodoro.InitialInv` | MaverickPlanner.py:170-184 | the state after the tab is built satisfies the invariant: not running, 1500 s, Start enabled, Stop and Reset disabled, label equal to `Format(1500)` |
| `Pomodoro.StartProperties` | MaverickPlanner.py:186-193 | start leaves the session running and keeps the invariant; it never changes the remaining time or the label; when already running it changes nothing |
| `Pomodoro.StopProperties` | MaverickPlanner.py:195-199 | stop leaves the session not running and keeps the remaining seconds; it is a no-op when not running and is idempotent |
| `Pomodoro.ResetLandsOnFullSession` | MaverickPlanner.py:201-204 | from any state, even one outside the invariant, reset gives not running, 1500 s and label `"25:00"`; resetting twice equals resetting once |
| `Pomodoro.ResetProperties` | MaverickPlanner.py:201-204 | from a reachable state, reset keeps the invariant, the notification count and the Reset button's enablement |
| `Pomodoro.TickProperties` | MaverickPlanner.py:207-211 | one loop iteration under the loop condition decreases the time by exactly 1, never below 0, and keeps the invariant |
| `Pomodoro.CompleteProperties` | MaverickPlanner.py:213-221 | after the loop: at 0, one notification fires and running stops; above 0, nothing changes |
| `Pomodoro.RunOutcome` | MaverickPlanner.py:206-221 | the countdown thread ends not running. If it began running, it ends at 0 with exactly one more notification and with label `Format(1)`, that is `"00:01"` (`LastSecondLabel`). This includes a run that began at 0 s. If it did not, the time is unchanged and it notifies exactly when the time was already 0 |
| `Pomodoro.RestartWhenExpired` | MaverickPlanner.py:207-219 | start and then run on an expired session gives the same state plus exactly one more notification |
| `Pomodoro.StepInv` | MaverickPlanner.py:186-221 | every command and every loop step keeps the invariant; only reset can raise the remaining time |
| `Pomodoro.ExecInv` | MaverickPlanner.py:186-221 | any interleaving of commands and ticks keeps the invariant; without a reset, the time never goes up |
| `Pomodoro.DisplayNeverZero` | MaverickPlanner.py:207-211 | in a state satisfying the invariant the label never reads `"00:00"`, because each tick writes the label before it counts down |
| `Pomodoro.ReachableInv` | MaverickPlanner.py:173-221 | in every reachable state, Start is enabled exactly when not running, Stop exactly when running, `0 <= time <= 1500`, and the label is not `"00:00"` |
| `Pomodoro.PomodoroTimer.constructor` | MaverickPlanner.py:170-184 | the fields start as `Initial()` |
| `Pomodoro.PomodoroTimer.Start` | MaverickPlanner.py:186-193 | performs `StartSpec`; it reports a thread launch exactly when it was not already running |
| `Pomodoro.PomodoroTimer.Stop` | MaverickPlanner.py:195-199 | performs `StopSpec` and keeps the invariant |
| `Pomodoro.PomodoroTimer.Reset` | MaverickPlanner.py:201-204 | calls `Stop`, then sets 1500 s and refreshes the label; performs `ResetSpec` |
| `Pomodoro.PomodoroTimer.UpdateDisplay` | MaverickPlanner.py:223-225 | the label becomes `Format(time)` |
| `Pomodoro.PomodoroTimer.Tick` | MaverickPlanner.py:208-211 | shows the time, then decrements it; performs `TickSpec` |
| `Pomodoro.PomodoroTimer.Complete` | MaverickPlanner.py:213-221 | performs `CompleteSpec` |
| `Pomodoro.PomodoroTimer.Run` | MaverickPlanner.py:206-221 | the loop performs `RunSpec`. It iterates `old(time)` times if it was running and 0 times otherwise. It ends not running, at 0 if it was running, with the notification count given by `RunOutcome` |

## Left out

- Task storage (`setup_database`, `load_tasks`, `delete_task`, `TaskDialog.save_task`, MaverickPlanner.py:17-34, 128-157, 264-283): SQL run by an external engine.
- Password handling (MaverickPlanner.py:39-67, 94-108): SHA-256 hashing is a library call, and the rest is database I/O and dialog prompting.
- `send_reminders` (MaverickPlanner.py:286-298): a date lookup, a database query and notifications, all I/O.
- Threads and `time.sleep` (MaverickPlanner.py:192-193, 210): the thread body runs sequentially in `Run`, and each `Tick` is atomic. The real races are not modelled. A Stop that lands during the sleep still lets one more decrement happen. A Stop then Start during the sleep launches a second thread, and then two threads decrement. Both can pass the loop check at 1 s, so the time reaches -1. The branch at 213 then never fires, and a later Start leaves the tab "running" with nothing counting down until Stop or Reset. `0 <= time` in `Inv` and `ReachableInv` excludes exactly these states.
- `Pomodoro.ResetLandsOnFullSession`: the time is 1500 right after Reset, but the code does not always keep it there. A Reset that lands during the sleep (MaverickPlanner.py:210) stops the session, sets 1500 s and shows "25:00" (202-204). The thread still performs its one pending decrement (211), so once it finishes the code shows 1499 s with "25:00", where the model's Reset leaves 1500. A Reset that lands after the thread's `divmod` (208) and before its label write (209) ends at 1499 s too, and the thread's write then replaces "25:00" with the older time's text.
- `Pomodoro.PomodoroTimer.Tick`: requires the loop condition, because the loop body is entered only under it. A decrement racing past the condition is not modelled (see above).
- `ClockLabel.Format`: takes a natural number. Negative remaining times do not arise in the sequential model (`0 <= time` is part of `Inv`), so Python's rendering of negative `divmod` results is not modelled.
- Notification delivery through plyer (MaverickPlanner.py:214-218): modelled only as the counter `notifications`. Its title text, which includes the session title, is not modelled. The call is assumed to return normally. If it raises, lines 219-221 are skipped and the session stays running at 0 s, with Start disabled and Stop enabled. `CompleteProperties`, `RunOutcome`, `Complete` and `Run` promise "not running" only under this assumption.
- Widget construction and `config(text=...)` calls: only the enablement of the three buttons and the label text are kept as fields.
- The `pynput` and `pandas` imports (MaverickPlanner.py:11-12): nothing in the code uses them.
