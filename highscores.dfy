/**
 * The in-memory high-score store of the countdown screen and the check that
 * runs when the user presses End.
 *
 * Scores are remaining times counted in tenths of a second (600 is 60.0 s),
 * so the store is a set of integers. The two notifications the check can show
 * are modelled as `Toast` values; the check returns the list of toasts it
 * showed, in the order it showed them.
 */
module HighScores {

  datatype Option<T> = None | Some(value: T)

  /** The two user-visible notifications of the score check. */
  datatype Toast = NewBaseline | NewHighScore

  /** `m` is the largest element of `s`. */
  ghost predicate IsMaxOf(m: int, s: set<int>)
  {
    m in s && forall x :: x in s ==> x <= m
  }

  /** The largest score in a non-empty store. */
  ghost function Max(s: set<int>): (m: int)
    requires s != {}
    ensures IsMaxOf(m, s)
    decreases s
  {
    NonEmptyHasElement(s);
    var x :| x in s;
    assert forall y :: y in s ==> y == x || y in s - {x};
    if s - {x} == {} then x
    else
      var rest := Max(s - {x});
      if x < rest then rest else x
  }

  lemma NonEmptyHasElement(s: set<int>)
    requires s != {}
    ensures exists x :: x in s
  {
    if forall x :: x !in s {
      // then s would be the empty set
      assert false;
    }
  }

  lemma MaxOfSingleton(x: int)
    ensures Max({x}) == x
  {
  }

  /**
   * The store's `maxOrNull()` query: nothing for an empty store, otherwise its
   * largest element, found by visiting every element once.
   */
  method MaxOrNull(s: set<int>) returns (r: Option<int>)
    ensures r.None? <==> s == {}
    ensures r.Some? ==> IsMaxOf(r.value, s)
  {
    r := None;
    var rest := s;
    while rest != {}
      invariant rest <= s
      invariant r.None? <==> rest == s
      invariant r.Some? ==> r.value in s
      invariant r.Some? ==> forall y :: y in s && y !in rest ==> y <= r.value
      decreases rest
    {
      NonEmptyHasElement(rest);
      var x :| x in rest;
      if r.None? || r.value < x {
        r := Some(x);
      }
      rest := rest - {x};
    }
  }

  /** What a score check leaves behind: the new store and the toasts it showed. */
  datatype Checked = Checked(store: set<int>, toasts: seq<Toast>)

  /**
   * The score check, step by step as the activity runs it: first the
   * empty-store branch (insert and announce a baseline), then, on the store as
   * that step left it, the comparison of the score against the largest stored
   * score (insert and announce a high score when the score is strictly larger).
   */
  ghost function CheckScore(store: set<int>, score: int): (r: Checked)
    ensures store == {} ==> r == Checked({score}, [NewBaseline])
    ensures store != {} && score <= Max(store) ==> r == Checked(store, [])
    ensures store != {} && Max(store) < score ==> r == Checked(store + {score}, [NewHighScore])
  {
    var first := if store == {} then Checked(store + {score}, [NewBaseline])
                 else Checked(store, []);
    if first.store != {} && Max(first.store) < score then
      Checked(first.store + {score}, first.toasts + [NewHighScore])
    else
      first
  }

  /**
   * The check only ever adds the score itself, at most one element, never
   * lowers the maximum, and leaves a non-empty store whose maximum is at least
   * the score; a new high score becomes the maximum.
   */
  lemma CheckScoreGrows(store: set<int>, score: int)
    ensures store <= CheckScore(store, score).store <= store + {score}
    ensures |CheckScore(store, score).store| <= |store| + 1
    ensures CheckScore(store, score).store != {}
    ensures score <= Max(CheckScore(store, score).store)
    ensures store != {} ==> Max(store) <= Max(CheckScore(store, score).store)
    ensures store != {} && Max(store) < score ==> Max(CheckScore(store, score).store) == score
  {
  }

  /**
   * At most one toast per check: the baseline branch never also announces a
   * high score, because after inserting the score the maximum is the score
   * and the comparison is strict.
   */
  lemma AtMostOneToast(store: set<int>, score: int)
    ensures |CheckScore(store, score).toasts| <= 1
    ensures store == {} ==> NewHighScore !in CheckScore(store, score).toasts
    ensures NewBaseline in CheckScore(store, score).toasts <==> store == {}
    ensures NewHighScore in CheckScore(store, score).toasts <==> store != {} && Max(store) < score
  {
  }

  /** The store changes exactly when a toast is shown. */
  lemma StoreChangesIffToast(store: set<int>, score: int)
    ensures CheckScore(store, score).store != store <==> CheckScore(store, score).toasts != []
  {
  }
}
