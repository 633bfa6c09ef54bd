/** The bounded table in one process's memory, which drops finished windows when it is full. */
module InMemoryStore {
  import opened Basics
  import opened FixedWindow

  /** What `Hit` does to the table, and what it answers; `None` is the "store is full" rejection. */
  function StoreStep(buckets: Counters, maxBuckets: int, hit: Hit): (Counters, Option<Answer>) {
    var pruned :=
      if hit.key !in buckets && |buckets| >= maxBuckets then Live(buckets, hit.nowMs) else buckets;
    if hit.key !in buckets && |pruned| >= maxBuckets then
      (pruned, None)
    else
      (Count(pruned, hit), Some(AnswerFor(Counted(pruned, hit), hit.nowMs)))
  }

  class InMemoryRateLimitStore {
    const maxBuckets: int
    var buckets: Counters

    constructor (maxBuckets: int)
      ensures this.maxBuckets == maxBuckets && buckets == map[]
    {
      this.maxBuckets := maxBuckets;
      buckets := map[];
    }

    method Hit(hit: Hit) returns (answer: Option<Answer>)
      modifies this
      ensures (buckets, answer) == StoreStep(old(buckets), maxBuckets, hit)
    {
      if hit.key !in buckets && |buckets| >= maxBuckets {
        DropFinished(hit.nowMs);
        if |buckets| >= maxBuckets {
          return None;
        }
      }
      var bucket :=
        if hit.key !in buckets || buckets[hit.key].expiresAtMs <= hit.nowMs then
          Counter(1, hit.nowMs + hit.windowSeconds * MILLISECONDS_PER_SECOND)
        else
          Counter(buckets[hit.key].hits + 1, buckets[hit.key].expiresAtMs);
      buckets := buckets[hit.key := bucket];
      answer := Some(Answer(
        bucket.hits,
        Max(0, CeilDiv(bucket.expiresAtMs - hit.nowMs, MILLISECONDS_PER_SECOND))));
    }

    /** Leaves only the counters of running windows, visiting the entries one by one. */
    method DropFinished(nowMs: int)
      modifies this
      ensures buckets == Live(old(buckets), nowMs)
    {
      var unseen := buckets.Keys;
      while unseen != {}
        invariant unseen <= buckets.Keys <= old(buckets).Keys
        invariant forall k :: k in buckets ==> buckets[k] == old(buckets)[k]
        invariant forall k :: k in old(buckets) && k !in unseen ==>
                    (k in buckets <==> nowMs < old(buckets)[k].expiresAtMs)
        decreases unseen
      {
        var key :| key in unseen;
        unseen := unseen - {key};
        if buckets[key].expiresAtMs <= nowMs {
          buckets := buckets - {key};
        }
      }
    }
  }

  // ----- Refinement of the table that never forgets

  /**
   * The bounded store seen from outside: a never-forgetting table that turns a new counter away
   * exactly when `maxBuckets` live ones exist.
   */
  function SpecStep(counters: Counters, maxBuckets: int, hit: Hit): (Counters, Option<Answer>) {
    if !IsLive(counters, hit.key, hit.nowMs) && |Live(counters, hit.nowMs)| >= maxBuckets then
      (counters, None)
    else
      (Count(counters, hit), Some(AnswerFor(Counted(counters, hit), hit.nowMs)))
  }

  /** The bounded table holds a part of the full one, and lacks only finished windows. */
  ghost predicate Represents(buckets: Counters, counters: Counters, nowMs: int) {
    && (forall k :: k in buckets ==> k in counters && buckets[k] == counters[k])
    && (forall k :: k in counters && k !in buckets ==> counters[k].expiresAtMs <= nowMs)
  }

  predicate Fits(buckets: Counters, maxBuckets: int) {
    |buckets| <= Max(0, maxBuckets)
  }

  lemma SameLiveCounters(buckets: Counters, counters: Counters, thenMs: int, nowMs: int)
    requires Represents(buckets, counters, thenMs) && thenMs <= nowMs
    ensures Live(buckets, nowMs) == Live(counters, nowMs)
    ensures |Live(counters, nowMs)| <= |buckets|
  {
    SubsetIsSmaller(Live(buckets, nowMs).Keys, buckets.Keys);
  }

  /** One hit: the bounded store gives the answer of the full table, and still represents it. */
  lemma StepRefines(buckets: Counters, counters: Counters, maxBuckets: int, thenMs: int, hit: Hit)
    requires Represents(buckets, counters, thenMs) && thenMs <= hit.nowMs
    requires Fits(buckets, maxBuckets)
    ensures
      var (buckets', answer) := StoreStep(buckets, maxBuckets, hit);
      var (counters', expected) := SpecStep(counters, maxBuckets, hit);
      answer == expected && Represents(buckets', counters', hit.nowMs) && Fits(buckets', maxBuckets)
  {
    var live := Live(counters, hit.nowMs);
    SameLiveCounters(buckets, counters, thenMs, hit.nowMs);
    assert IsLive(counters, hit.key, hit.nowMs) == IsLive(buckets, hit.key, hit.nowMs);
    if hit.key in buckets && !IsLive(buckets, hit.key, hit.nowMs) {
      assert hit.key !in live;
      SubsetIsSmaller(live.Keys, buckets.Keys);
    }
    if hit.key in buckets {
      assert Count(buckets, hit).Keys == buckets.Keys;
    }
  }

  function StoreAfter(maxBuckets: int, hits: seq<Hit>): Counters {
    if hits == [] then map[]
    else StoreStep(StoreAfter(maxBuckets, hits[..|hits| - 1]), maxBuckets, hits[|hits| - 1]).0
  }

  function StoreAnswer(maxBuckets: int, hits: seq<Hit>, i: nat): Option<Answer>
    requires i < |hits|
  {
    StoreStep(StoreAfter(maxBuckets, hits[..i]), maxBuckets, hits[i]).1
  }

  function SpecAfter(maxBuckets: int, hits: seq<Hit>): Counters {
    if hits == [] then map[]
    else SpecStep(SpecAfter(maxBuckets, hits[..|hits| - 1]), maxBuckets, hits[|hits| - 1]).0
  }

  function SpecAnswer(maxBuckets: int, hits: seq<Hit>, i: nat): Option<Answer>
    requires i < |hits|
  {
    SpecStep(SpecAfter(maxBuckets, hits[..i]), maxBuckets, hits[i]).1
  }

  ghost predicate TimesNeverDecrease(hits: seq<Hit>) {
    forall i, j :: 0 <= i < j < |hits| ==> hits[i].nowMs <= hits[j].nowMs
  }

  /** Between hits, the bounded table represents the one that never forgets. */
  lemma {:induction false} StoreRepresentsSpec(maxBuckets: int, hits: seq<Hit>, nowMs: int)
    requires TimesNeverDecrease(hits) && (hits != [] ==> hits[|hits| - 1].nowMs <= nowMs)
    ensures Represents(StoreAfter(maxBuckets, hits), SpecAfter(maxBuckets, hits), nowMs)
    ensures Fits(StoreAfter(maxBuckets, hits), maxBuckets)
  {
    if hits != [] {
      var init, last := hits[..|hits| - 1], hits[|hits| - 1];
      StoreRepresentsSpec(maxBuckets, init, last.nowMs);
      StepRefines(StoreAfter(maxBuckets, init), SpecAfter(maxBuckets, init), maxBuckets, last.nowMs, last);
    }
  }

  /**
   * Over every run the bounded store answers exactly as the table that never forgets: dropping
   * finished windows is never observable, the table never outgrows its bound, and a hit is turned
   * away exactly when its window is not running and `maxBuckets` live counters exist.
   */
  lemma StoreRefinesSpec(maxBuckets: int, hits: seq<Hit>, i: nat)
    requires TimesNeverDecrease(hits) && i < |hits|
    ensures StoreAnswer(maxBuckets, hits, i) == SpecAnswer(maxBuckets, hits, i)
    ensures |StoreAfter(maxBuckets, hits)| <= Max(0, maxBuckets)
    ensures StoreAnswer(maxBuckets, hits, i) == None <==>
              var counters := SpecAfter(maxBuckets, hits[..i]);
              && !IsLive(counters, hits[i].key, hits[i].nowMs)
              && |Live(counters, hits[i].nowMs)| >= maxBuckets
  {
    StoreRepresentsSpec(maxBuckets, hits[..i], hits[i].nowMs);
    StepRefines(
      StoreAfter(maxBuckets, hits[..i]), SpecAfter(maxBuckets, hits[..i]), maxBuckets, hits[i].nowMs, hits[i]);
    StoreRepresentsSpec(maxBuckets, hits, hits[|hits| - 1].nowMs);
  }

  lemma {:induction false} CountersCount(maxBuckets: int, hits: seq<Hit>)
    ensures forall k :: k in SpecAfter(maxBuckets, hits) ==> SpecAfter(maxBuckets, hits)[k].hits >= 1
  {
    if hits != [] {
      CountersCount(maxBuckets, hits[..|hits| - 1]);
    }
  }

  /**
   * After a clock that never went back, one hit at any time, earlier ones included, is answered as by
   * the table that never forgets exactly when its own window is not a dropped one that is running
   * again then, and, unless it is running, the dropped ones that are do not fill the table.
   */
  lemma HitAtAnyTimeAgreesExactlyWhen(maxBuckets: int, hits: seq<Hit>, hit: Hit)
    requires TimesNeverDecrease(hits)
    ensures
      var buckets, counters := StoreAfter(maxBuckets, hits), SpecAfter(maxBuckets, hits);
      StoreStep(buckets, maxBuckets, hit).1 == SpecStep(counters, maxBuckets, hit).1
      <==>
      && (IsLive(counters, hit.key, hit.nowMs) ==> hit.key in buckets)
      && (IsLive(counters, hit.key, hit.nowMs) || |Live(buckets, hit.nowMs)| >= maxBuckets
          || |Live(counters, hit.nowMs)| < maxBuckets)
  {
    var nowMs := if hits == [] then 0 else hits[|hits| - 1].nowMs;
    StoreRepresentsSpec(maxBuckets, hits, nowMs);
    CountersCount(maxBuckets, hits);
    StoreAnswers(StoreAfter(maxBuckets, hits), maxBuckets, hit);
    hide StoreStep, SpecStep, StoreAfter, SpecAfter, Live, TimesNeverDecrease, Represents, Fits;
    AnswersAgree(StoreAfter(maxBuckets, hits), SpecAfter(maxBuckets, hits), maxBuckets, nowMs, hit);
  }

  lemma AnswersAgree(buckets: Counters, counters: Counters, maxBuckets: int, thenMs: int, hit: Hit)
    requires Represents(buckets, counters, thenMs) && forall k :: k in counters ==> counters[k].hits >= 1
    requires hit.key in buckets && !IsLive(buckets, hit.key, hit.nowMs) ==>
      |Live(buckets, hit.nowMs)| < Max(1, maxBuckets)
    requires Fits(buckets, maxBuckets)
    ensures
      (SpecStep(counters, maxBuckets, hit).1 ==
       if hit.key !in buckets && |Live(buckets, hit.nowMs)| >= maxBuckets then None
       else Some(AnswerFor(Counted(buckets, hit), hit.nowMs)))
      <==>
      && (IsLive(counters, hit.key, hit.nowMs) ==> hit.key in buckets)
      && (IsLive(counters, hit.key, hit.nowMs) || |Live(buckets, hit.nowMs)| >= maxBuckets
          || |Live(counters, hit.nowMs)| < maxBuckets)
  {
    assert Live(buckets, hit.nowMs).Keys <= Live(counters, hit.nowMs).Keys;
    SubsetIsSmaller(Live(buckets, hit.nowMs).Keys, Live(counters, hit.nowMs).Keys);
    assert hit.key in buckets ==> maxBuckets >= 1;
    hide Live;
  }

  /** The store's answer, whether it prunes or not. */
  lemma StoreAnswers(buckets: Counters, maxBuckets: int, hit: Hit)
    requires Fits(buckets, maxBuckets)
    ensures StoreStep(buckets, maxBuckets, hit).1 ==
      if hit.key !in buckets && |Live(buckets, hit.nowMs)| >= maxBuckets then None
      else Some(AnswerFor(Counted(buckets, hit), hit.nowMs))
    ensures hit.key in buckets && !IsLive(buckets, hit.key, hit.nowMs) ==>
      |Live(buckets, hit.nowMs)| < Max(1, maxBuckets)
  {
    hide AnswerFor;
    SubsetIsSmaller(Live(buckets, hit.nowMs).Keys, buckets.Keys);
  }

  /**
   * The clock condition is needed: when the clock steps back, a window that was dropped as finished
   * would be running again. The table that never forgets counts on; the store turns the hit away.
   */
  lemma EvictionShowsWhenClockStepsBack()
    ensures
      var hits := [Hit(0, "a", 1), Hit(1000, "b", 1), Hit(999, "a", 1)];
      StoreAnswer(1, hits, 2) == None && SpecAnswer(1, hits, 2) == Some(Answer(2, 1))
  {
    var hits := [Hit(0, "a", 1), Hit(1000, "b", 1), Hit(999, "a", 1)];
    StoreForgets(hits);
    SpecRemembers(hits);
  }

  lemma StoreForgets(hits: seq<Hit>)
    requires hits == [Hit(0, "a", 1), Hit(1000, "b", 1), Hit(999, "a", 1)]
    ensures StoreAnswer(1, hits, 2) == None
  {
    hide AnswerFor;
    var a, b := Counter(1, 1000), Counter(1, 2000);
    assert hits[..2][..1] == hits[..1] && hits[..1][..0] == [];
    assert StoreAfter(1, hits[..1]) == map["a" := a];
    assert Live(map["a" := a], 1000) == map[];
    assert StoreAfter(1, hits[..2]) == map["b" := b];
    assert Live(map["b" := b], 999) == map["b" := b];
  }

  lemma SpecRemembers(hits: seq<Hit>)
    requires hits == [Hit(0, "a", 1), Hit(1000, "b", 1), Hit(999, "a", 1)]
    ensures SpecAnswer(1, hits, 2) == Some(Answer(2, 1))
  {
    var a, b := Counter(1, 1000), Counter(1, 2000);
    assert hits[..2][..1] == hits[..1] && hits[..1][..0] == [];
    SpecCounts(map[], hits[0], a);
    SpecCounts(map["a" := a], hits[1], b);
    hide SpecStep;
    assert SpecAfter(1, hits[..1]) == map["a" := a];
    assert SpecAfter(1, hits[..2]) == map["a" := a, "b" := b];
    RunningIsCounted(map["a" := a, "b" := b], hits[2]);
  }

  /** With no window running, room for one is enough. */
  lemma SpecCounts(counters: Counters, hit: Hit, counter: Counter)
    requires forall k :: k in counters ==> counters[k].expiresAtMs <= hit.nowMs
    requires counter == Counter(1, hit.nowMs + hit.windowSeconds * MILLISECONDS_PER_SECOND)
    ensures SpecStep(counters, 1, hit).0 == counters[hit.key := counter]
  {
    assert Live(counters, hit.nowMs) == map[];
  }

  lemma RunningIsCounted(counters: Counters, hit: Hit)
    requires hit == Hit(999, "a", 1) && "a" in counters && counters["a"] == Counter(1, 1000)
    ensures SpecStep(counters, 1, hit).1 == Some(Answer(2, 1))
  {
  }

  // ----- The store's hits as a run of attempts

  /** The hits the store turns away are attempts it does not count. */
  function Attempts(maxBuckets: int, hits: seq<Hit>): Run {
    seq(|hits|, i requires 0 <= i < |hits| =>
      Attempt(hits[i], if StoreAnswer(maxBuckets, hits, i).Some? then Delivered else NotCounted))
  }

  lemma PrefixOfAttempts(maxBuckets: int, hits: seq<Hit>, n: nat)
    requires n <= |hits|
    ensures Attempts(maxBuckets, hits)[..n] == Attempts(maxBuckets, hits[..n])
  {
    assert forall i :: 0 <= i < n ==> hits[..n][..i] == hits[..i];
  }

  lemma {:induction false} RunIsSpec(maxBuckets: int, hits: seq<Hit>)
    requires TimesNeverDecrease(hits)
    ensures After(Attempts(maxBuckets, hits)) == SpecAfter(maxBuckets, hits)
  {
    if hits != [] {
      var last := |hits| - 1;
      PrefixOfAttempts(maxBuckets, hits, last);
      RunIsSpec(maxBuckets, hits[..last]);
      StoreRefinesSpec(maxBuckets, hits, last);
    }
  }

  /** So everything proved about runs holds of the bounded store's answers. */
  lemma StoreAnswersAreRun(maxBuckets: int, hits: seq<Hit>, i: nat)
    requires TimesNeverDecrease(hits) && i < |hits|
    ensures ClockNeverDecreases(Attempts(maxBuckets, hits))
    ensures AnswerAt(Attempts(maxBuckets, hits), i) == StoreAnswer(maxBuckets, hits, i)
  {
    PrefixOfAttempts(maxBuckets, hits, i);
    RunIsSpec(maxBuckets, hits[..i]);
    StoreRefinesSpec(maxBuckets, hits, i);
  }
}
