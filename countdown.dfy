/**
 * The countdown screen as a state machine over values.
 *
 * Remaining time is counted in tenths of a second: the countdown starts at
 * 600 (60.0 s) and each timer tick, every 100 ms, takes one tenth off. The
 * screen is idle (Begin shown) or running (End shown, timer scheduled). The
 * user's taps and the timer's firings are the events; a tap on a button that
 * is not shown, or a firing of a timer that is not scheduled, cannot happen
 * and leaves the screen as it is.
 */
module Countdown {

  import opened HighScores

  /** 60.0 seconds, in tenths. */
  const Start: int := 600

  /**
   * The screen's state: the remaining time, whether the Begin button is shown
   * (otherwise End is), whether the periodic timer is scheduled, and the
   * high-score store.
   */
  datatype Screen = Screen(remaining: int, buttonEnabled: bool, timerActive: bool,
                           highscores: set<int>)

  /** A screen after an event, with the toasts shown on the way. */
  datatype Stepped = Stepped(screen: Screen, toasts: seq<Toast>)

  datatype Event = PressBegin | TimerFires | PressEnd

  /** The screen when the activity is created. */
  function Initial(): Screen
  {
    Screen(Start, true, false, {})
  }

  /**
   * What holds of every screen the activity can reach: the remaining time lies
   * between 0 and 60.0 s; the timer is scheduled exactly while End is shown;
   * an idle screen shows the full 60.0 s; every stored score is a remaining
   * time.
   */
  ghost predicate Inv(s: Screen)
  {
    && 0 <= s.remaining <= Start
    && s.timerActive == !s.buttonEnabled
    && (s.buttonEnabled ==> s.remaining == Start)
    && forall x :: x in s.highscores ==> 0 <= x <= Start
  }

  /** Begin: hide Begin, show End, schedule a fresh timer. */
  function Begin(s: Screen): Screen
  {
    s.(buttonEnabled := false, timerActive := true)
  }

  /**
   * One firing of the timer: when no time is left, reset to 60.0 s, go idle
   * and cancel the timer, without scoring; otherwise take one tenth off.
   */
  function Tick(s: Screen): Screen
  {
    if s.remaining <= 0 then
      s.(buttonEnabled := true, remaining := Start, timerActive := false)
    else
      s.(remaining := s.remaining - 1)
  }

  /**
   * End: cancel the timer, run the score check on the remaining time, then
   * reset to 60.0 s and go idle.
   */
  ghost function End(s: Screen): Stepped
  {
    var cancelled := s.(timerActive := false);
    var checked := CheckScore(cancelled.highscores, cancelled.remaining);
    Stepped(cancelled.(highscores := checked.store, remaining := Start, buttonEnabled := true),
            checked.toasts)
  }

  /** An event can happen: its button is shown, or the timer is scheduled. */
  predicate Enabled(s: Screen, e: Event)
  {
    match e
    case PressBegin => s.buttonEnabled
    case TimerFires => s.timerActive
    case PressEnd => !s.buttonEnabled
  }

  ghost function Step(s: Screen, e: Event): Stepped
  {
    if !Enabled(s, e) then Stepped(s, [])
    else match e
      case PressBegin => Stepped(Begin(s), [])
      case TimerFires => Stepped(Tick(s), [])
      case PressEnd => End(s)
  }

  /** The screen after a sequence of events, with every toast shown. */
  ghost function Run(s: Screen, events: seq<Event>): Stepped
    decreases |events|
  {
    if events == [] then Stepped(s, [])
    else
      var first := Step(s, events[0]);
      var rest := Run(first.screen, events[1..]);
      Stepped(rest.screen, first.toasts + rest.toasts)
  }

  /** `k` firings of the timer in a row. */
  function Ticks(k: nat): seq<Event>
  {
    seq(k, _ => TimerFires)
  }

  lemma InitialInv()
    ensures Inv(Initial())
  {
  }

  /** Begin and End are never shown together, and one of them always is. */
  lemma ControlsExclusive(s: Screen)
    requires Inv(s)
    ensures Enabled(s, PressBegin) <==> !Enabled(s, PressEnd)
    ensures Enabled(s, TimerFires) <==> Enabled(s, PressEnd)
  {
  }

  /** Every event keeps the invariant. */
  lemma StepInv(s: Screen, e: Event)
    requires Inv(s)
    ensures Inv(Step(s, e).screen)
  {
  }

  lemma {:induction false} RunInv(s: Screen, events: seq<Event>)
    requires Inv(s)
    ensures Inv(Run(s, events).screen)
    decreases |events|
  {
    if events != [] {
      StepInv(s, events[0]);
      RunInv(Step(s, events[0]).screen, events[1..]);
    }
  }

  /** Every screen reachable from the initial one satisfies the invariant. */
  lemma ReachableInv(events: seq<Event>)
    ensures Inv(Run(Initial(), events).screen)
  {
    InitialInv();
    RunInv(Initial(), events);
  }

  /** Events only ever add to the store, and never lower its maximum. */
  lemma StepGrowsStore(s: Screen, e: Event)
    ensures s.highscores <= Step(s, e).screen.highscores
    ensures s.highscores != {} ==> Max(s.highscores) <= Max(Step(s, e).screen.highscores)
  {
  }

  lemma {:induction false} RunGrowsStore(s: Screen, events: seq<Event>)
    ensures s.highscores <= Run(s, events).screen.highscores
    ensures s.highscores != {} ==> Max(s.highscores) <= Max(Run(s, events).screen.highscores)
    decreases |events|
  {
    if events != [] {
      StepGrowsStore(s, events[0]);
      RunGrowsStore(Step(s, events[0]).screen, events[1..]);
    }
  }

  /** Running one sequence of events and then another is running both. */
  lemma {:induction false} RunAppend(s: Screen, a: seq<Event>, b: seq<Event>)
    ensures Run(s, a + b).screen == Run(Run(s, a).screen, b).screen
    ensures Run(s, a + b).toasts == Run(s, a).toasts + Run(Run(s, a).screen, b).toasts
    decreases |a|
  {
    if a == [] {
      assert a + b == b;
    } else {
      var ab := a + b;
      assert ab[0] == a[0] && ab[1..] == a[1..] + b;
      var first := Step(s, a[0]);
      RunAppend(first.screen, a[1..], b);
      var middle := Run(first.screen, a[1..]);
      var last := Run(middle.screen, b);
      assert first.toasts + (middle.toasts + last.toasts) == (first.toasts + middle.toasts) + last.toasts;
    }
  }

  /**
   * While time is left, each firing takes exactly one tenth off and changes
   * nothing else: `k` firings from a running screen with at least `k` tenths
   * left leave `k` tenths fewer and show no toast.
   */
  lemma {:induction false} TicksCountDown(s: Screen, k: nat)
    requires s.timerActive && k <= s.remaining
    ensures Run(s, Ticks(k)) == Stepped(s.(remaining := s.remaining - k), [])
    decreases k
  {
    if k > 0 {
      assert Ticks(k)[1..] == Ticks(k - 1);
      TicksCountDown(Tick(s), k - 1);
    }
  }

  /**
   * A countdown the user never stops: after Begin, 600 firings bring the time
   * to 0.0 s, and the next one returns to exactly the idle screen Begin was
   * pressed on, without scoring and without a toast.
   */
  lemma CountdownExpires(s: Screen)
    requires Inv(s) && s.buttonEnabled
    ensures Run(s, [PressBegin] + Ticks(Start)).screen == Begin(s).(remaining := 0)
    ensures Run(s, [PressBegin] + Ticks(Start + 1)) == Stepped(s, [])
  {
    var running := Begin(s);
    assert Run(s, [PressBegin]) == Stepped(running, []);
    TicksCountDown(running, Start);
    RunAppend(s, [PressBegin], Ticks(Start));
    var expired := running.(remaining := 0);
    assert Ticks(Start + 1) == Ticks(Start) + [TimerFires];
    RunAppend(running, Ticks(Start), [TimerFires]);
    assert Run(expired, [TimerFires]) == Stepped(s, []);
    RunAppend(s, [PressBegin], Ticks(Start + 1));
  }

  /**
   * After End the screen is idle at 60.0 s with the timer cancelled, and the
   * store is what the score check made of the time left when End was pressed.
   */
  lemma EndResets(s: Screen)
    requires !s.buttonEnabled
    ensures Step(s, PressEnd).screen.remaining == Start
    ensures Step(s, PressEnd).screen.buttonEnabled && !Step(s, PressEnd).screen.timerActive
    ensures Step(s, PressEnd).screen.highscores == CheckScore(s.highscores, s.remaining).store
    ensures Step(s, PressEnd).toasts == CheckScore(s.highscores, s.remaining).toasts
  {
  }

  /**
   * A worked session: End pressed at once records 60.0 s as the baseline; a
   * second run stopped at 55.0 s changes nothing and shows nothing.
   */
  lemma Session()
    ensures Run(Initial(), [PressBegin, PressEnd]) == Stepped(Initial().(highscores := {Start}), [NewBaseline])
    ensures Run(Initial().(highscores := {Start}), [PressBegin] + Ticks(50) + [PressEnd])
            == Stepped(Initial().(highscores := {Start}), [])
  {
    var first := Initial();
    assert [PressBegin, PressEnd][1..] == [PressEnd];
    var second := first.(highscores := {Start});
    var running := Begin(second);
    TicksCountDown(running, 50);
    RunAppend(second, [PressBegin], Ticks(50));
    RunAppend(second, [PressBegin] + Ticks(50), [PressEnd]);
    MaxOfSingleton(Start);
  }
}
