/**
 * What a fixed-window counter store is meant to do: an unbounded table that never forgets a
 * counter, stepped by one atomic hit at a time. The stores are proved against it.
 *
 * A run is the sequence of attempts in the order the store met them, whoever made them, so every
 * interleaving of concurrent callers is one run.
 */
module FixedWindow {
  import opened Basics

  const MILLISECONDS_PER_SECOND := 1000

  datatype Counter = Counter(hits: nat, expiresAtMs: int)

  type Counters = map<string, Counter>

  datatype Hit = Hit(nowMs: int, key: string, windowSeconds: int)

  datatype Answer = Answer(hits: nat, retryAfterSeconds: int)

  predicate IsLive(counters: Counters, key: string, nowMs: int) {
    key in counters && nowMs < counters[key].expiresAtMs
  }

  function Live(counters: Counters, nowMs: int): Counters {
    map k | k in counters && nowMs < counters[k].expiresAtMs :: counters[k]
  }

  function Counted(counters: Counters, hit: Hit): Counter {
    if IsLive(counters, hit.key, hit.nowMs) then
      Counter(counters[hit.key].hits + 1, counters[hit.key].expiresAtMs)
    else
      Counter(1, hit.nowMs + hit.windowSeconds * MILLISECONDS_PER_SECOND)
  }

  function AnswerFor(counter: Counter, nowMs: int): Answer {
    Answer(counter.hits, Max(0, CeilDiv(counter.expiresAtMs - nowMs, MILLISECONDS_PER_SECOND)))
  }

  function Count(counters: Counters, hit: Hit): Counters {
    counters[hit.key := Counted(counters, hit)]
  }

  // ----- Runs

  /**
   * What became of one attempt: it was counted and the answer arrived; it was counted but the
   * answer was lost (the caller gave up waiting); or the store did not count it at all.
   */
  datatype Fate = Delivered | AnswerLost | NotCounted

  datatype Attempt = Attempt(hit: Hit, fate: Fate)

  type Run = seq<Attempt>

  ghost predicate ClockNeverDecreases(run: Run) {
    forall i, j :: 0 <= i < j < |run| ==> run[i].hit.nowMs <= run[j].hit.nowMs
  }

  function After(run: Run): Counters {
    if run == [] then map[]
    else
      var before := After(run[..|run| - 1]);
      var last := run[|run| - 1];
      if last.fate.NotCounted? then before else Count(before, last.hit)
  }

  /** The answer attempt `i` gets, if one arrives. */
  function AnswerAt(run: Run, i: nat): Option<Answer>
    requires i < |run|
  {
    if run[i].fate.Delivered? then
      Some(AnswerFor(Counted(After(run[..i]), run[i].hit), run[i].hit.nowMs))
    else None
  }

  predicate CountsFor(attempt: Attempt, key: string) {
    attempt.hit.key == key && !attempt.fate.NotCounted?
  }

  // ----- The same thing said about the history alone

  /** The index of the attempt that opened the latest window of `key`. */
  function Opening(run: Run, key: string): (s: Option<nat>)
    ensures s.Some? ==> s.value < |run| && CountsFor(run[s.value], key)
  {
    if run == [] then None
    else
      var init := run[..|run| - 1];
      var last := run[|run| - 1];
      var earlier := Opening(init, key);
      if !CountsFor(last, key) then earlier
      else if earlier.Some? && last.hit.nowMs < WindowEnd(run[earlier.value]) then earlier
      else Some(|run| - 1)
  }

  function WindowEnd(opening: Attempt): int {
    opening.hit.nowMs + opening.hit.windowSeconds * MILLISECONDS_PER_SECOND
  }

  function CountedFrom(run: Run, key: string, from: nat): nat
    requires from <= |run|
  {
    if from == |run| then 0
    else (if CountsFor(run[|run| - 1], key) then 1 else 0) + CountedFrom(run[..|run| - 1], key, from)
  }

  /**
   * The table holds exactly what the history says: one counter per key ever counted, with the
   * number of counted attempts since the latest window opened and the end of that window.
   */
  lemma {:induction false} TableIsHistory(run: Run, key: string)
    ensures key in After(run) <==> Opening(run, key).Some?
    ensures key in After(run) ==>
              var s := Opening(run, key).value;
              After(run)[key] == Counter(CountedFrom(run, key, s), WindowEnd(run[s]))
  {
    if run != [] {
      var init := run[..|run| - 1];
      TableIsHistory(init, key);
      if Opening(run, key) == Some(|run| - 1) {
        assert CountedFrom(init, key, |run| - 1) == 0;
      }
    }
  }

  /**
   * Every delivered count is the attempt's position in its window, so attempts 1 to `limit` of a
   * window are the ones at or under the limit, and no two of them see the same count.
   */
  lemma CountIsPositionInWindow(run: Run, i: nat)
    requires i < |run| && run[i].fate.Delivered?
    ensures Opening(run[..i + 1], run[i].hit.key).Some?
    ensures var s := Opening(run[..i + 1], run[i].hit.key).value;
            && AnswerAt(run, i).value.hits == CountedFrom(run[..i + 1], run[i].hit.key, s)
            && 1 <= AnswerAt(run, i).value.hits
  {
    var key := run[i].hit.key;
    var upTo := run[..i + 1];
    assert upTo[..|upTo| - 1] == run[..i];
    TableIsHistory(upTo, key);
    assert After(upTo)[key] == Counted(After(run[..i]), run[i].hit);
  }

  lemma {:induction false} CountedFromGrows(run: Run, key: string, from: nat, i: nat, j: nat)
    requires from <= i < j <= |run|
    requires CountsFor(run[j - 1], key)
    ensures CountedFrom(run[..i], key, from) < CountedFrom(run[..j], key, from)
    decreases j
  {
    assert run[..j][..j - 1] == run[..j - 1];
    CountedFromMonotone(run, key, from, i, j - 1);
  }

  lemma {:induction false} CountedFromMonotone(run: Run, key: string, from: nat, i: nat, j: nat)
    requires from <= i <= j <= |run|
    ensures CountedFrom(run[..i], key, from) <= CountedFrom(run[..j], key, from)
    decreases j
  {
    if i < j {
      assert run[..j][..j - 1] == run[..j - 1];
      CountedFromMonotone(run, key, from, i, j - 1);
    }
  }

  /** Two delivered attempts in one window never see the same count: the later one sees more. */
  lemma NoCountSeenTwice(run: Run, i: nat, j: nat)
    requires i < j < |run|
    requires run[i].fate.Delivered? && run[j].fate.Delivered?
    requires run[i].hit.key == run[j].hit.key
    requires Opening(run[..i + 1], run[i].hit.key) == Opening(run[..j + 1], run[j].hit.key)
    ensures AnswerAt(run, i).value.hits < AnswerAt(run, j).value.hits
  {
    var key := run[i].hit.key;
    CountIsPositionInWindow(run, i);
    CountIsPositionInWindow(run, j);
    CountedFromGrows(run, key, Opening(run[..i + 1], key).value, i + 1, j + 1);
  }

  // ----- Independence of keys

  /** The attempts on one key, in order. */
  function Only(run: Run, key: string): Run {
    if run == [] then []
    else Only(run[..|run| - 1], key) + if run[|run| - 1].hit.key == key then [run[|run| - 1]] else []
  }

  /** A counter depends on nothing but the attempts on its own key. */
  lemma {:induction false} CounterDependsOnOwnAttempts(run: Run, key: string)
    ensures key in After(run) <==> key in After(Only(run, key))
    ensures key in After(run) ==> After(run)[key] == After(Only(run, key))[key]
  {
    if run != [] {
      var init, last := run[..|run| - 1], run[|run| - 1];
      CounterDependsOnOwnAttempts(init, key);
      var own := Only(init, key);
      if last.hit.key == key {
        assert Only(run, key) == own + [last];
        assert (own + [last])[..|own + [last]| - 1] == own;
      } else {
        assert Only(run, key) == own;
      }
    }
  }
}
