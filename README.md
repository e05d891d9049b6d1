# Countdown timer with an in-memory high score

A model of the single screen of a 60-second countdown app. The user taps
Begin, a periodic timer takes a tenth of a second off the remaining time every
100 ms (the first firing comes immediately), and either the countdown runs out (the screen resets to 60.0 s without
scoring) or the user taps End. End cancels the timer and checks the remaining
time against an in-memory set of scores: the first score sets a baseline, a
later score strictly above the best one is a new high score, and each case
shows its own toast. The screen then resets to 60.0 s.

Three modules:

- `HighScores` (highscores.dfy): the score store as a `set<int>`, its
  `maxOrNull()` query as a method with a loop (`MaxOrNull`), the largest
  element as a specification function (`Max`), and the score check as a
  function (`CheckScore`) written in the code's two steps. The check returns
  the new store and the list of toasts it showed.
- `Countdown` (countdown.dfy): the screen as a value (`Screen`), the Begin,
  tick and End transitions, the events (a tap on Begin, a tap on End, a timer
  firing), and runs of events. Its lemmas state the screen invariant, the
  growth of the store over a session, the tick-by-tick countdown, the
  self-reset after 601 firings and a worked session.
- `Activity` (timer_screen.dfy): the class `TimerScreen` with the fields the
  activity updates in place (`highscores`, `remaining`, `buttonEnabled`,
  `timerActive`) and the handlers `CheckScore`, `Begin`, `Tick` and `End`.
  Each handler states the fields it leaves and is tied to its counterpart in
  `Countdown`.

Representation choices:

- Time is an integer count of tenths of a second: 600 is 60.0 s, a tick
  subtracts 1. Scores are therefore integers too.
- The scheduled `java.util.Timer` is the flag `timerActive`. Scheduling sets
  it and `cancel()` clears it. A timer firing is the method `Tick`, called
  one at a time.
- A toast is a `Toast` value (`NewBaseline` or `NewHighScore`). The check
  returns the toasts it showed, in order. This way "at most one toast per
  check" is a proved fact rather than a consequence of the return type.
- The model takes Begin to be tappable only while `buttonEnabled` holds, End
  only while it does not, and the timer task to run only while scheduled. The
  class's handlers require these conditions. At the level of events,
  `Countdown.Step` ignores a tap on a hidden button and a firing of a timer
  that is not scheduled. Events interleave freely otherwise.

The check is two consecutive `if`s (lines 70-78 and 80-91). That can suggest
that a store holding one element could get both toasts in one call. It cannot.
After the first branch inserts the score, the maximum is the score, and the
comparison `highscore < score` is strict. `HighScores.AtMostOneToast` proves
this. A score equal to the best one changes nothing and shows nothing.

## Model

| member | source | states |
|---|---|---|
| HighScores.Max | app/src/main/java/com/example/androiddevchallenge/MainActivity.kt:80 | the largest element of a non-empty store: it is in the store and no element exceeds it |
| HighScores.MaxOrNull | app/src/main/java/com/example/androiddevchallenge/MainActivity.kt:80 | `maxOrNull()`: nothing exactly when the store is empty, otherwise the store's largest element |
| HighScores.CheckScore | app/src/main/java/com/example/androiddevchallenge/MainActivity.kt:68-92 | empty store: the store becomes {score} with exactly the baseline toast; non-empty store and score at most the maximum: store unchanged and no toast; non-empty store and score above the maximum: score added with exactly the high-score toast |
| HighScores.CheckScoreGrows | app/src/main/java/com/example/androiddevchallenge/MainActivity.kt:68-92 | the check only grows the store (old store included in the new one, new one included in old plus the score, at most one element added), never lowers the maximum, leaves a non-empty store whose maximum is at least the score, and makes a new high score the new maximum |
| HighScores.AtMostOneToast | app/src/main/java/com/example/androiddevchallenge/MainActivity.kt:70-90 | at most one toast per check; an empty store never gets the high-score toast; the baseline toast fires exactly on an empty store, the high-score toast exactly on a non-empty store whose maximum is below the score |
| HighScores.StoreChangesIffToast | app/src/main/java/com/example/androiddevchallenge/MainActivity.kt:70-90 | the store changes exactly when a toast is shown |
| Countdown.InitialInv | app/src/main/java/com/example/androiddevchallenge/MainActivity.kt:121-122 | the screen as created (60.0 s, Begin shown, no timer, no scores) satisfies the screen invariant |
| Countdown.ControlsExclusive | app/src/main/java/com/example/androiddevchallenge/MainActivity.kt:124-159 | under the invariant exactly one of Begin and End is shown, and the timer fires exactly while End is shown |
| Countdown.StepInv | app/src/main/java/com/example/androiddevchallenge/MainActivity.kt:121-155 | Begin, a timer firing and End each keep the invariant: 0 <= remaining <= 60.0 s, timer scheduled exactly while End is shown, idle screens at 60.0 s, every score within 0..60.0 s |
| Countdown.RunInv | app/src/main/java/com/example/androiddevchallenge/MainActivity.kt:121-155 | any sequence of events keeps the invariant |
| Countdown.ReachableInv | app/src/main/java/com/example/androiddevchallenge/MainActivity.kt:121-155 | every screen reachable from creation satisfies the invariant |
| Countdown.StepGrowsStore | app/src/main/java/com/example/androiddevchallenge/MainActivity.kt:58 | an event only adds to the store and never lowers its maximum |
| Countdown.RunGrowsStore | app/src/main/java/com/example/androiddevchallenge/MainActivity.kt:58 | over any session the store only grows and its maximum never decreases |
| Countdown.TicksCountDown | app/src/main/java/com/example/androiddevchallenge/MainActivity.kt:133-137 | k firings with at least k tenths left take exactly k tenths off, show no toast and change nothing else |
| Countdown.CountdownExpires | app/src/main/java/com/example/androiddevchallenge/MainActivity.kt:126-141 | after Begin, 600 firings reach 0.0 s and the next firing returns to exactly the idle screen Begin was pressed on: 60.0 s, timer cancelled, store untouched, no toast |
| Countdown.EndResets | app/src/main/java/com/example/androiddevchallenge/MainActivity.kt:149-155 | End leaves 60.0 s, Begin shown, timer cancelled, and the store and toasts that the check makes of the time left when End was pressed |
| Countdown.Session | app/src/main/java/com/example/androiddevchallenge/MainActivity.kt:68-92 | End at once on a fresh screen stores {60.0 s} with the baseline toast; a second run stopped at 55.0 s leaves the store as it was and shows nothing |
| Activity.TimerScreen.constructor | app/src/main/java/com/example/androiddevchallenge/MainActivity.kt:121-122 | the screen starts at 60.0 s, idle, with no timer and an empty store |
| Activity.TimerScreen.CheckScore | app/src/main/java/com/example/androiddevchallenge/MainActivity.kt:68-92 | the store updated in place as `HighScores.CheckScore` says, with its three cases spelled out |
| Activity.TimerScreen.Begin | app/src/main/java/com/example/androiddevchallenge/MainActivity.kt:126-142 | Begin hides itself, schedules the timer and changes neither the time (60.0 s) nor the store |
| Activity.TimerScreen.Tick | app/src/main/java/com/example/androiddevchallenge/MainActivity.kt:132-138 | with no time left: 60.0 s, idle, timer cancelled; otherwise exactly one tenth off with the screen still running; the store is never touched |
| Activity.TimerScreen.End | app/src/main/java/com/example/androiddevchallenge/MainActivity.kt:149-155 | cancels the timer, runs the check on the time left before the reset, then leaves 60.0 s and idle, keeping the invariant |
| Activity.Session | app/src/main/java/com/example/androiddevchallenge/MainActivity.kt:149-155 | through the handlers: stopping at once yields the baseline toast; stopping a later run after one tick yields no toast |

## Left out

- The Compose layout (`MyTimer`'s column, `MyApp`, the card, the animated
  buttons, the two previews) and `onCreate`: presentation only.
- `Toast.makeText(...).show()`: only which toast is shown is modelled.
- `java.util.Timer`, `scheduleAtFixedRate`, `cancel` and `purge`: the
  timer thread and its 100 ms period are not modelled. Ticks are sequential
  calls. The race between a tick on the timer thread and the End handler on
  the UI thread is not modelled.
- The zero initial delay of `scheduleAtFixedRate(..., 0L, 100L)` at line 140:
  the first tick fires right after Begin. The model lets events interleave
  freely, so End right after Begin (a 60.0 s score, as in `Countdown.Session`
  and `Activity.Session`) is possible only when the tap beats that first
  firing.
- Taps on a button while it animates out: `AnimatedVisibility` at lines 124
  and 147 keeps a hidden button on screen during its exit animation. If a
  second tap on Begin then reached its handler, line 129 would replace
  `mTimer` and the first timer would never be cancelled. The model assumes
  such taps do not reach the handlers.
- `Double` arithmetic of `timerStatus -= 0.1`: in IEEE-754 doubles, 600
  subtractions of 0.1 from 60.0 leave about -5.8e-13 rather than 0.0. The
  reset at line 133 still comes on firing 601, as `Countdown.CountdownExpires`
  states for tenths. Intermediate values and scores differ from exact tenths
  by rounding, and a score taken at the last moment is slightly below 0 where
  the model has 0. Integer tenths replace the doubles.
- `Double.format(2)` for the on-screen text: a string-formatting library
  call.
- `rememberSaveable` keeping the time and the button flag across
  configuration changes: persistence is outside the model.
- The TODOs (persisting scores, showing the top three scores): not
  implemented in the code.
