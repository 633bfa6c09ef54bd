/** How many attempts a fixed window lets through, over any stretch of time. */
module WindowBound {
  import opened Basics
  import opened FixedWindow

  predicate AllowedAt(run: Run, i: nat, key: string, limit: int)
    requires i < |run|
  {
    && run[i].hit.key == key
    && run[i].fate.Delivered?
    && AnswerAt(run, i).value.hits <= limit
  }

  /** The number of allowed attempts on `key` at times `from <= t < to`. */
  function AllowedIn(run: Run, key: string, limit: int, from: int, to: int): nat {
    if run == [] then 0
    else
      var last := |run| - 1;
      AllowedIn(run[..last], key, limit, from, to) +
      if from <= run[last].hit.nowMs < to && AllowedAt(run, last, key, limit) then 1 else 0
  }

  /** Every counted attempt on `key` asks for the same window length. */
  ghost predicate OneWindowLength(run: Run, key: string, windowSeconds: int) {
    forall i :: 0 <= i < |run| && CountsFor(run[i], key) ==> run[i].hit.windowSeconds == windowSeconds
  }

  /**
   * The most that can have passed before a window that opens `afterMs` into an interval: a full one for
   * each window length, and the rest of one that was running before if there is time left over.
   */
  function MostBefore(limit: int, windowMs: int, afterMs: int): int
    requires 1 <= windowMs
    decreases afterMs
  {
    if afterMs <= 0 then 0
    else if afterMs < windowMs then limit - 1
    else limit + MostBefore(limit, windowMs, afterMs - windowMs)
  }

  /** The most that can pass in `spanMs` milliseconds: a full window opens in the last one. */
  function MostIn(limit: int, windowMs: int, spanMs: int): int
    requires 1 <= windowMs
  {
    MostBefore(limit, windowMs, spanMs - 1) + limit
  }

  /**
   * The invariant behind the bound. While the counter on the table was opened before the interval,
   * its opening attempt lies outside, and what passed inside passed before its end; one opened inside
   * starts a whole window length after its predecessor, so its start tells what can have passed before.
   */
  ghost predicate Within(start: int, hits: int, allowed: int, limit: int, windowMs: int, from: int, to: int)
    requires 1 <= windowMs
  {
    && 1 <= hits
    && allowed <= MostIn(limit, windowMs, to - from)
    && (start < from ==> allowed <= Min(limit, hits) - 1 && (allowed > 0 ==> from < start + windowMs))
    && (from <= start < to ==> allowed <= MostBefore(limit, windowMs, start - from) + Min(limit, hits))
  }

  /** One more attempt in a running window passes only while the limit is not used up. */
  lemma StaysWithin(
      start: int, hits: int, allowed: int, now: int, passes: int, limit: int, windowMs: int, from: int, to: int)
    requires 1 <= limit && 1 <= windowMs && from < to && start <= now < start + windowMs
    requires Within(start, hits, allowed, limit, windowMs, from, to)
    requires passes <= if from <= now < to && hits + 1 <= limit then 1 else 0
    ensures Within(start, hits + 1, allowed + passes, limit, windowMs, from, to)
  {
    if from <= start < to {
      MostBeforeGrows(limit, windowMs, start - from, to - from - 1);
    } else {
      MostBeforeGrows(limit, windowMs, 0, to - from - 1);
    }
  }

  /** A window that opens a window length after `earlier` adds at most its own attempts. */
  lemma ReopensWithin(
      earlier: int, hits: int, allowed: int, start: int, passes: int, limit: int, windowMs: int, from: int, to: int)
    requires 1 <= limit && 1 <= windowMs && from < to && earlier + windowMs <= start
    requires Within(earlier, hits, allowed, limit, windowMs, from, to)
    requires passes <= if from <= start < to then 1 else 0
    requires start < from ==> allowed == 0
    ensures Within(start, 1, allowed + passes, limit, windowMs, from, to)
  {
    if from <= start < to {
      MostBeforeGrows(limit, windowMs, start - from, to - from - 1);
      if from <= earlier {
        MostBeforeGrows(limit, windowMs, earlier - from + windowMs, start - from);
      } else if allowed > 0 {
        MostBeforeGrows(limit, windowMs, 1, start - from);
      } else {
        MostBeforeGrows(limit, windowMs, 0, start - from);
      }
    }
  }

  lemma OpensWithin(start: int, passes: int, limit: int, windowMs: int, from: int, to: int)
    requires 1 <= limit && 1 <= windowMs && from < to
    requires passes <= if from <= start < to then 1 else 0
    ensures Within(start, 1, passes, limit, windowMs, from, to)
  {
    MostBeforeGrows(limit, windowMs, 0, to - from - 1);
    if from <= start {
      MostBeforeGrows(limit, windowMs, 0, start - from);
    }
  }

  ghost predicate BoundedSoFar(run: Run, key: string, limit: int, windowMs: int, from: int, to: int)
    requires 1 <= windowMs
  {
    var allowed := AllowedIn(run, key, limit, from, to);
    && (run != [] && run[|run| - 1].hit.nowMs < from ==> allowed == 0)
    && (key !in After(run) ==> allowed == 0)
    && (key in After(run) ==>
          var counter := After(run)[key];
          && run != []
          && counter.expiresAtMs - windowMs <= run[|run| - 1].hit.nowMs
          && Within(counter.expiresAtMs - windowMs, counter.hits, allowed, limit, windowMs, from, to))
  }

  lemma {:induction false} AllowedSoFar(run: Run, key: string, limit: int, windowSeconds: int, from: int, to: int)
    requires 1 <= limit && 1 <= windowSeconds && from < to
    requires ClockNeverDecreases(run) && OneWindowLength(run, key, windowSeconds)
    ensures BoundedSoFar(run, key, limit, windowSeconds * MILLISECONDS_PER_SECOND, from, to)
  {
    if run != [] {
      var last := |run| - 1;
      AllowedSoFar(run[..last], key, limit, windowSeconds, from, to);
      if CountsFor(run[last], key) {
        OneMoreCounted(run, key, limit, windowSeconds, from, to);
      }
    }
  }

  lemma OneMoreCounted(run: Run, key: string, limit: int, windowSeconds: int, from: int, to: int)
    requires 1 <= limit && 1 <= windowSeconds && from < to && run != []
    requires ClockNeverDecreases(run) && OneWindowLength(run, key, windowSeconds)
    requires CountsFor(run[|run| - 1], key)
    requires BoundedSoFar(run[..|run| - 1], key, limit, windowSeconds * MILLISECONDS_PER_SECOND, from, to)
    ensures BoundedSoFar(run, key, limit, windowSeconds * MILLISECONDS_PER_SECOND, from, to)
  {
    var last := |run| - 1;
    var windowMs := windowSeconds * MILLISECONDS_PER_SECOND;
    var before := After(run[..last]);
    var now := run[last].hit.nowMs;
    var allowed := AllowedIn(run[..last], key, limit, from, to);
    var passes := AllowedIn(run, key, limit, from, to) - allowed;
    assert After(run)[key] == Counted(before, run[last].hit);
    if IsLive(before, key, now) {
      StaysWithin(
        before[key].expiresAtMs - windowMs, before[key].hits, allowed, now, passes, limit, windowMs, from, to);
    } else if key in before {
      ReopensWithin(
        before[key].expiresAtMs - windowMs, before[key].hits, allowed, now, passes, limit, windowMs, from, to);
    } else {
      OpensWithin(now, passes, limit, windowMs, from, to);
    }
  }

  /** A later start leaves room for at least as many attempts before it. */
  lemma {:induction false} MostBeforeGrows(limit: int, windowMs: int, early: int, late: int)
    requires 1 <= limit && 1 <= windowMs && early <= late
    ensures 0 <= MostBefore(limit, windowMs, early) <= MostBefore(limit, windowMs, late)
    decreases late
  {
    if windowMs <= late {
      MostBeforeGrows(limit, windowMs, early - windowMs, late - windowMs);
    }
  }

  lemma {:induction false} MostBeforeIs(limit: int, windowMs: int, n: nat, rest: int)
    requires 1 <= limit && 0 <= rest < windowMs
    ensures MostBefore(limit, windowMs, n * windowMs + rest) == n * limit + if rest == 0 then 0 else limit - 1
  {
    if n > 0 {
      MostBeforeIs(limit, windowMs, n - 1, rest);
      assert n * windowMs == (n - 1) * windowMs + windowMs && 0 <= (n - 1) * windowMs;
      assert n * limit == (n - 1) * limit + limit;
    }
  }

  lemma OneMore(n: int, limit: int)
    ensures (n + 1) * limit == n * limit + limit
  {
  }

  /** Whole window lengths before the last millisecond of a span, and what is left over. */
  function Windows(spanMs: int, windowMs: int): (r: (nat, nat))
    requires 1 <= spanMs && 1 <= windowMs
    ensures spanMs - 1 == r.0 * windowMs + r.1 && r.1 < windowMs
  {
    ((spanMs - 1) / windowMs, (spanMs - 1) % windowMs)
  }

  /**
   * Over any span of time, whoever asked and whatever became of the answers, at most one full `limit`
   * passes on one key for each window that can open in it, and one less than that in a window that was
   * running before, if after whole window lengths more than a millisecond is left for it.
   */
  lemma RateBound(run: Run, key: string, limit: int, windowSeconds: int, from: int, to: int)
    requires 1 <= limit && 1 <= windowSeconds && from < to
    requires ClockNeverDecreases(run) && OneWindowLength(run, key, windowSeconds)
    ensures
      var (windows, rest) := Windows(to - from, windowSeconds * MILLISECONDS_PER_SECOND);
      AllowedIn(run, key, limit, from, to) <= (windows + 1) * limit + if rest == 0 then 0 else limit - 1
  {
    var windowMs := windowSeconds * MILLISECONDS_PER_SECOND;
    var (windows, rest) := Windows(to - from, windowMs);
    AllowedSoFar(run, key, limit, windowSeconds, from, to);
    MostBeforeIs(limit, windowMs, windows, rest);
    OneMore(windows, limit);
  }

  /** In any half-open interval as long as the window, at most `2 * limit - 1` attempts pass. */
  lemma BurstBound(run: Run, key: string, limit: int, windowSeconds: int, from: int)
    requires 1 <= limit && 1 <= windowSeconds
    requires ClockNeverDecreases(run) && OneWindowLength(run, key, windowSeconds)
    ensures AllowedIn(run, key, limit, from, from + windowSeconds * MILLISECONDS_PER_SECOND) <= 2 * limit - 1
  {
    var windowMs := windowSeconds * MILLISECONDS_PER_SECOND;
    AllowedSoFar(run, key, limit, windowSeconds, from, from + windowMs);
  }

  // ----- The bound is reached

  /** The time of attempt `h` of window `w`: the first window has one early attempt and the rest at its last moment. */
  function TrainTime(windowMs: nat, w: nat, h: nat): int {
    if w > 0 then w * windowMs else if h == 1 then 0 else windowMs - 1
  }

  /** `w` full windows, one right after the other, and the first `h` attempts of one more. */
  function Train(key: string, limit: nat, windowSeconds: nat, w: nat, h: nat): Run
    requires 1 <= limit
    decreases w, h
  {
    if h == 0 then if w == 0 then [] else Train(key, limit, windowSeconds, w - 1, limit)
    else
      Train(key, limit, windowSeconds, w, h - 1)
      + [Attempt(Hit(TrainTime(windowSeconds * MILLISECONDS_PER_SECOND, w, h), key, windowSeconds), Delivered)]
  }

  lemma NextWindow(windowMs: nat, w: nat)
    ensures w * windowMs + windowMs == (w + 1) * windowMs && 0 <= w * windowMs
  {
  }

  /** The train keeps time and uses one window length. */
  lemma {:induction false} TrainRuns(key: string, limit: nat, windowSeconds: nat, w: nat, h: nat)
    requires 1 <= limit && 1 <= windowSeconds && h <= limit
    ensures
      var run := Train(key, limit, windowSeconds, w, h);
      && ClockNeverDecreases(run) && OneWindowLength(run, key, windowSeconds)
      && forall i :: 0 <= i < |run| ==>
           run[i].hit.nowMs <= TrainTime(windowSeconds * MILLISECONDS_PER_SECOND, w, if h == 0 then 1 else h)
    decreases w, h
  {
    var windowMs := windowSeconds * MILLISECONDS_PER_SECOND;
    if h > 0 {
      TrainRuns(key, limit, windowSeconds, w, h - 1);
    } else if w > 0 {
      TrainRuns(key, limit, windowSeconds, w - 1, limit);
      NextWindow(windowMs, w - 1);
    }
  }

  lemma {:induction false} TrainTable(key: string, limit: nat, windowSeconds: nat, w: nat, h: nat)
    requires 1 <= limit && 1 <= windowSeconds && 1 <= h <= limit
    ensures
      var table := After(Train(key, limit, windowSeconds, w, h));
      key in table && table[key] == Counter(h, (w + 1) * (windowSeconds * MILLISECONDS_PER_SECOND))
    decreases w, h
  {
    var windowMs := windowSeconds * MILLISECONDS_PER_SECOND;
    var run := Train(key, limit, windowSeconds, w, h);
    assert run[..|run| - 1] == Train(key, limit, windowSeconds, w, h - 1);
    NextWindow(windowMs, w);
    if h > 1 {
      TrainTable(key, limit, windowSeconds, w, h - 1);
    } else if w > 0 {
      TrainTable(key, limit, windowSeconds, w - 1, limit);
    }
  }

  /** What of the train passes from time `from` on: the last moment of the first window, or its end. */
  function TrainPasses(limit: nat, windowMs: nat, w: nat, h: nat, from: int): int {
    if w == 0 then if from < windowMs && h > 0 then h - 1 else 0
    else (if from < windowMs then limit - 1 else 0) + (w - 1) * limit + h
  }

  lemma {:induction false} TrainPassesAll(
      key: string, limit: nat, windowSeconds: nat, w: nat, h: nat, from: int, to: int)
    requires 1 <= limit && 1 <= windowSeconds && h <= limit
    requires
      var windowMs := windowSeconds * MILLISECONDS_PER_SECOND;
      windowMs - 1 <= from <= windowMs && windowMs <= to && w * windowMs < to
    ensures AllowedIn(Train(key, limit, windowSeconds, w, h), key, limit, from, to)
         == TrainPasses(limit, windowSeconds * MILLISECONDS_PER_SECOND, w, h, from)
    decreases w, h
  {
    hide TrainPasses, TrainTime, AllowedAt;
    var windowMs := windowSeconds * MILLISECONDS_PER_SECOND;
    var run := Train(key, limit, windowSeconds, w, h);
    if h > 0 {
      TrainPassesAll(key, limit, windowSeconds, w, h - 1, from, to);
      LastOfTrainPasses(key, limit, windowSeconds, w, h);
      assert run[..|run| - 1] == Train(key, limit, windowSeconds, w, h - 1);
      OneMorePasses(limit, windowMs, w, h, from, to);
    } else if w > 0 {
      NextWindow(windowMs, w - 1);
      TrainPassesAll(key, limit, windowSeconds, w - 1, limit, from, to);
      NewWindowPasses(limit, windowMs, w, from);
    } else {
      NothingPasses(limit, windowMs, from);
    }
  }

  lemma OneMorePasses(limit: nat, windowMs: nat, w: nat, h: nat, from: int, to: int)
    requires 1 <= h <= limit && 2 <= windowMs
    requires windowMs - 1 <= from <= windowMs <= to && w * windowMs < to
    ensures TrainPasses(limit, windowMs, w, h, from)
         == TrainPasses(limit, windowMs, w, h - 1, from) + if from <= TrainTime(windowMs, w, h) < to then 1 else 0
  {
    if w > 0 {
      NextWindow(windowMs, w - 1);
    }
  }

  lemma NewWindowPasses(limit: nat, windowMs: nat, w: nat, from: int)
    requires 1 <= limit && 1 <= w
    ensures TrainPasses(limit, windowMs, w, 0, from) == TrainPasses(limit, windowMs, w - 1, limit, from)
  {
    OneMore(w - 2, limit);
  }

  lemma NothingPasses(limit: nat, windowMs: nat, from: int)
    ensures TrainPasses(limit, windowMs, 0, 0, from) == 0
  {
  }

  lemma LastOfTrainPasses(key: string, limit: nat, windowSeconds: nat, w: nat, h: nat)
    requires 1 <= limit && 1 <= windowSeconds && 1 <= h <= limit
    ensures
      var run := Train(key, limit, windowSeconds, w, h);
      && run != [] && run[|run| - 1].hit.nowMs == TrainTime(windowSeconds * MILLISECONDS_PER_SECOND, w, h)
      && AllowedAt(run, |run| - 1, key, limit)
  {
    var run := Train(key, limit, windowSeconds, w, h);
    TrainTable(key, limit, windowSeconds, w, h);
    assert After(run)[key] == Counted(After(run[..|run| - 1]), run[|run| - 1].hit);
  }

  /** For every limit, window and span there is a run in which as much passes as the bound allows. */
  lemma RateBoundIsReached(key: string, limit: nat, windowSeconds: nat, spanMs: nat)
    returns (run: Run, from: int)
    requires 1 <= limit && 1 <= windowSeconds && 1 <= spanMs
    ensures ClockNeverDecreases(run) && OneWindowLength(run, key, windowSeconds)
    ensures
      var (windows, rest) := Windows(spanMs, windowSeconds * MILLISECONDS_PER_SECOND);
      AllowedIn(run, key, limit, from, from + spanMs) == (windows + 1) * limit + if rest == 0 then 0 else limit - 1
  {
    var windowMs := windowSeconds * MILLISECONDS_PER_SECOND;
    var (windows, rest) := Windows(spanMs, windowMs);
    run := Train(key, limit, windowSeconds, windows + 1, limit);
    from := if rest == 0 then windowMs else windowMs - 1;
    NextWindow(windowMs, windows);
    TrainRuns(key, limit, windowSeconds, windows + 1, limit);
    TrainPassesAll(key, limit, windowSeconds, windows + 1, limit, from, from + spanMs);
    OneMore(windows, limit);
  }

  lemma OneWindowIsLeftOver(windowMs: nat)
    requires 1 <= windowMs
    ensures Windows(windowMs, windowMs) == (0, windowMs - 1)
  {
  }

  /** So for every policy `2 * limit - 1` attempts can pass within one window length. */
  lemma BurstBoundIsReached(key: string, limit: nat, windowSeconds: nat) returns (run: Run, from: int)
    requires 1 <= limit && 1 <= windowSeconds
    ensures ClockNeverDecreases(run) && OneWindowLength(run, key, windowSeconds)
    ensures AllowedIn(run, key, limit, from, from + windowSeconds * MILLISECONDS_PER_SECOND) == 2 * limit - 1
  {
    var windowMs := windowSeconds * MILLISECONDS_PER_SECOND;
    hide ClockNeverDecreases, OneWindowLength, AllowedIn;
    run, from := RateBoundIsReached(key, limit, windowSeconds, windowMs);
    OneWindowIsLeftOver(windowMs);
  }
}
