/**
 * The activity's mutable state and its handlers: the high-score store that
 * the score check updates in place, the remaining time and the button flag
 * that the Begin and End handlers and the timer task assign, and whether the
 * periodic timer is scheduled. Each handler is tied to its counterpart in
 * `Countdown`, whose lemmas carry the properties of whole sessions.
 */
module Activity {

  import HighScores
  import Countdown

  class TimerScreen {
    /** The scores recorded so far, in tenths of a second. */
    var highscores: set<int>
    /** Whether the periodic timer task is scheduled. */
    var timerActive: bool
    /** The time left, in tenths of a second. */
    var remaining: int
    /** Whether Begin is shown (otherwise End is). */
    var buttonEnabled: bool

    ghost function State(): Countdown.Screen
      reads this
    {
      Countdown.Screen(remaining, buttonEnabled, timerActive, highscores)
    }

    ghost predicate Valid()
      reads this
    {
      Countdown.Inv(State())
    }

    /** The screen on creation: 60.0 s, idle, no timer, no scores. */
    constructor ()
      ensures Valid()
      ensures State() == Countdown.Initial()
      ensures remaining == Countdown.Start && buttonEnabled && !timerActive && highscores == {}
    {
      highscores := {};
      timerActive := false;
      remaining := Countdown.Start;
      buttonEnabled := true;
    }

    /**
     * The score check on the store, in place: an empty store receives the
     * score and a baseline toast; otherwise a score above the largest stored
     * one is added with a high-score toast, and any other score changes
     * nothing.
     */
    method CheckScore(score: int) returns (toasts: seq<HighScores.Toast>)
      modifies this`highscores
      ensures HighScores.Checked(highscores, toasts) == HighScores.CheckScore(old(highscores), score)
      ensures old(highscores) == {} ==> highscores == {score} && toasts == [HighScores.NewBaseline]
      ensures old(highscores) != {} && score <= HighScores.Max(old(highscores)) ==>
                highscores == old(highscores) && toasts == []
      ensures old(highscores) != {} && HighScores.Max(old(highscores)) < score ==>
                highscores == old(highscores) + {score} && toasts == [HighScores.NewHighScore]
    {
      toasts := [];
      if highscores == {} {
        highscores := highscores + {score};
        toasts := toasts + [HighScores.NewBaseline];
      }
      var best := HighScores.MaxOrNull(highscores);
      if best.Some? {
        assert best.value == HighScores.Max(highscores);
        if best.value < score {
          highscores := highscores + {score};
          toasts := toasts + [HighScores.NewHighScore];
        }
      }
    }

    /** Begin: show End instead of Begin and schedule the timer. */
    method Begin()
      requires Valid() && buttonEnabled
      modifies this
      ensures Valid()
      ensures State() == Countdown.Begin(old(State()))
      ensures !buttonEnabled && timerActive
      ensures remaining == old(remaining) == Countdown.Start && highscores == old(highscores)
    {
      buttonEnabled := false;
      timerActive := true;
    }

    /**
     * One run of the timer task: with no time left, go idle at 60.0 s and
     * cancel the timer; otherwise take one tenth off. The store is untouched.
     */
    method Tick()
      requires Valid() && timerActive
      modifies this
      ensures Valid()
      ensures State() == Countdown.Tick(old(State()))
      ensures old(remaining) <= 0 ==>
                remaining == Countdown.Start && buttonEnabled && !timerActive
      ensures old(remaining) > 0 ==>
                remaining == old(remaining) - 1 && !buttonEnabled && timerActive
      ensures highscores == old(highscores)
    {
      if remaining <= 0 {
        buttonEnabled := true;
        remaining := Countdown.Start;
        timerActive := false;
      } else {
        remaining := remaining - 1;
      }
    }

    /**
     * End: cancel the timer, check the time left as a score, then go idle at
     * 60.0 s.
     */
    method End() returns (toasts: seq<HighScores.Toast>)
      requires Valid() && !buttonEnabled
      modifies this
      ensures Valid()
      ensures Countdown.Stepped(State(), toasts) == Countdown.End(old(State()))
      ensures HighScores.Checked(highscores, toasts) == HighScores.CheckScore(old(highscores), old(remaining))
      ensures remaining == Countdown.Start && buttonEnabled && !timerActive
    {
      timerActive := false;
      toasts := CheckScore(remaining);
      remaining := Countdown.Start;
      buttonEnabled := true;
      HighScores.CheckScoreGrows(old(highscores), old(remaining));
    }
  }

  /**
   * A client of the handlers: a countdown stopped at once sets the baseline;
   * one stopped after a tenth of a second scores lower and shows nothing.
   */
  method Session() returns (first: seq<HighScores.Toast>, second: seq<HighScores.Toast>)
    ensures first == [HighScores.NewBaseline]
    ensures second == []
  {
    var screen := new TimerScreen();
    screen.Begin();
    first := screen.End();
    screen.Begin();
    screen.Tick();
    HighScores.MaxOfSingleton(Countdown.Start);
    second := screen.End();
    assert screen.highscores == {Countdown.Start};
  }
}
