/** What the seconds in an answer promise the caller. */
module RetryWait {
  import opened Basics
  import opened FixedWindow
  import opened WindowBound

  /** The end of the window that attempt `i` was counted in. */
  function EndAfter(run: Run, i: nat): int
    requires i < |run| && CountsFor(run[i], run[i].hit.key)
  {
    Counted(After(run[..i]), run[i].hit).expiresAtMs
  }

  lemma {:induction false} WindowStartedInThePast(run: Run, key: string, windowSeconds: int)
    requires ClockNeverDecreases(run) && OneWindowLength(run, key, windowSeconds)
    requires key in After(run)
    ensures run != []
    ensures After(run)[key].expiresAtMs <= run[|run| - 1].hit.nowMs + windowSeconds * MILLISECONDS_PER_SECOND
  {
    if !CountsFor(run[|run| - 1], key) {
      WindowStartedInThePast(run[..|run| - 1], key, windowSeconds);
    } else if IsLive(After(run[..|run| - 1]), key, run[|run| - 1].hit.nowMs) {
      WindowStartedInThePast(run[..|run| - 1], key, windowSeconds);
    }
  }

  /**
   * Every answer's wait is between 1 and the window length, covers the time left, and exceeds it by
   * less than one second.
   */
  lemma WaitIsTight(run: Run, i: nat, windowSeconds: int)
    requires i < |run| && run[i].fate.Delivered? && 1 <= windowSeconds
    requires ClockNeverDecreases(run) && OneWindowLength(run, run[i].hit.key, windowSeconds)
    ensures
      var wait := AnswerAt(run, i).value.retryAfterSeconds;
      var left := EndAfter(run, i) - run[i].hit.nowMs;
      && 1 <= wait <= windowSeconds
      && left <= wait * MILLISECONDS_PER_SECOND < left + MILLISECONDS_PER_SECOND
  {
    if IsLive(After(run[..i]), run[i].hit.key, run[i].hit.nowMs) {
      WindowStartedInThePast(run[..i], run[i].hit.key, windowSeconds);
    }
  }

  /** The attempts counted on the key of attempt `i`, strictly between `i` and `j`, all came before its window ended. */
  ghost predicate OnlyHammering(run: Run, i: nat, j: nat)
    requires i < j <= |run| && CountsFor(run[i], run[i].hit.key)
  {
    forall m :: i < m < j && CountsFor(run[m], run[i].hit.key) ==> run[m].hit.nowMs < EndAfter(run, i)
  }

  lemma {:induction false} WindowKept(run: Run, i: nat, j: nat)
    requires i < j <= |run| && CountsFor(run[i], run[i].hit.key)
    requires OnlyHammering(run, i, j)
    ensures run[i].hit.key in After(run[..j])
    ensures After(run[..j])[run[i].hit.key].expiresAtMs == EndAfter(run, i)
    decreases j
  {
    assert run[..j][..j - 1] == run[..j - 1];
    if i < j - 1 {
      WindowKept(run, i, j - 1);
    }
  }

  /** Hammering during the window never moves its end, so the wait it is told never grows. */
  lemma WaitIsNeverLengthened(run: Run, i: nat, j: nat)
    requires i < j < |run| && ClockNeverDecreases(run)
    requires run[i].fate.Delivered? && run[j].fate.Delivered? && run[i].hit.key == run[j].hit.key
    requires OnlyHammering(run, i, j + 1)
    ensures EndAfter(run, j) == EndAfter(run, i)
    ensures AnswerAt(run, j).value.retryAfterSeconds <= AnswerAt(run, i).value.retryAfterSeconds
  {
    WindowKept(run, i, j);
  }

  /**
   * The wait is enough: the next attempt counted after it, however much was tried in the window
   * meanwhile, is the first of a new window and passes under every limit.
   */
  lemma WaitIsEnough(run: Run, i: nat, j: nat, limit: int)
    requires i < j < |run| && 1 <= limit
    requires run[i].fate.Delivered? && run[j].fate.Delivered? && run[i].hit.key == run[j].hit.key
    requires OnlyHammering(run, i, j)
    requires run[i].hit.nowMs + AnswerAt(run, i).value.retryAfterSeconds * MILLISECONDS_PER_SECOND <= run[j].hit.nowMs
    ensures AnswerAt(run, j).value.hits == 1
    ensures AllowedAt(run, j, run[i].hit.key, limit)
  {
    WindowKept(run, i, j);
  }

  /** From attempt `i` on, the latest window is its own, or one opened after its own had ended. */
  lemma {:induction false} WindowsAfter(run: Run, i: nat, n: nat)
    requires i < n <= |run| && CountsFor(run[i], run[i].hit.key) && ClockNeverDecreases(run)
    ensures
      var opening := Opening(run[..n], run[i].hit.key);
      opening.Some? &&
      if opening.value <= i then WindowEnd(run[opening.value]) == EndAfter(run, i)
      else EndAfter(run, i) <= run[opening.value].hit.nowMs
    decreases n
  {
    assert run[..n][..n - 1] == run[..n - 1];
    if n == i + 1 {
      TableIsHistory(run[..n], run[i].hit.key);
    } else {
      WindowsAfter(run, i, n - 1);
    }
  }

  /**
   * Once the wait is over, an attempt falls into a window that opened after the refused one's had
   * ended, and it passes exactly when fewer than `limit` attempts were counted before it in there.
   * There are such attempts only if others were made since that end.
   */
  lemma PassesAfterWaitExactlyWhen(run: Run, i: nat, j: nat, limit: int)
    requires i < j < |run| && 1 <= limit && ClockNeverDecreases(run)
    requires run[i].fate.Delivered? && run[j].fate.Delivered? && run[i].hit.key == run[j].hit.key
    requires run[i].hit.nowMs + AnswerAt(run, i).value.retryAfterSeconds * MILLISECONDS_PER_SECOND <= run[j].hit.nowMs
    ensures Opening(run[..j + 1], run[i].hit.key).Some?
    ensures
      var key, opening := run[i].hit.key, Opening(run[..j + 1], run[i].hit.key).value;
      && i < opening <= j && EndAfter(run, i) <= run[opening].hit.nowMs
      && (AllowedAt(run, j, key, limit) <==> CountedFrom(run[..j], key, opening) < limit)
  {
    var key := run[i].hit.key;
    WindowsAfter(run, i, j);
    WindowsAfter(run, i, j + 1);
    assert run[..j + 1][..j] == run[..j];
    CountIsPositionInWindow(run, j);
  }

  /** An attempt made between the end of a window and the end of the rounded wait can spoil the wait. */
  lemma GapAttemptSpoilsTheWait(key: string)
    ensures
      var run := [Attempt(Hit(0, key, 1), Delivered), Attempt(Hit(500, key, 1), Delivered),
                  Attempt(Hit(1000, key, 1), Delivered), Attempt(Hit(1500, key, 1), Delivered)];
      && AnswerAt(run, 1) == Some(Answer(2, 1)) && !AllowedAt(run, 1, key, 1)
      && AnswerAt(run, 3) == Some(Answer(2, 1)) && !AllowedAt(run, 3, key, 1)
  {
    var run := [Attempt(Hit(0, key, 1), Delivered), Attempt(Hit(500, key, 1), Delivered),
                Attempt(Hit(1000, key, 1), Delivered), Attempt(Hit(1500, key, 1), Delivered)];
    assert run[..3][..2] == run[..2] && run[..2][..1] == run[..1] && run[..1][..0] == [];
    assert After(run[..1])[key] == Counter(1, 1000);
    assert After(run[..2])[key] == Counter(2, 1000);
    assert After(run[..3])[key] == Counter(1, 2000);
  }
}
