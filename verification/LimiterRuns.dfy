/**
 * The limiter over a fixed-window store: every interleaving of `enforce` calls and of the steps of
 * `enforceAll` calls, by any number of callers, is one sequence of checks.
 */
module LimiterRuns {
  import opened Basics
  import opened FixedWindow
  import opened WindowBound
  import opened RetryWait
  import opened Policy
  import opened Subject
  import opened Limiter

  /** One check, made at a time, and what became of its store call if it made one. */
  datatype Check = Check(nowMs: int, request: Request, fate: Fate)

  /** The store's side of a check; one that makes no call is an attempt nobody counts. */
  function AttemptOf(check: Check, keying: Keying): Attempt {
    match CallFor(check.request, keying)
    case None => Attempt(Hit(check.nowMs, "", 0), NotCounted)
    case Some(call) => Attempt(Hit(check.nowMs, call.key, call.windowSeconds), check.fate)
  }

  function RunOf(checks: seq<Check>, keying: Keying): Run {
    seq(|checks|, i requires 0 <= i < |checks| => AttemptOf(checks[i], keying))
  }

  /**
   * Each check is one attempt, at its time and with its fate, on its subject's counter; without a call
   * it counts nowhere.
   */
  lemma AttemptsAreTheChecks(checks: seq<Check>, i: nat, keying: Keying)
    requires i < |checks|
    ensures |RunOf(checks, keying)| == |checks| && RunOf(checks, keying)[i].hit.nowMs == checks[i].nowMs
    ensures CallFor(checks[i].request, keying).None? ==> RunOf(checks, keying)[i].fate == NotCounted
    ensures CallFor(checks[i].request, keying).Some? ==>
      var attempt, call := RunOf(checks, keying)[i], CallFor(checks[i].request, keying).value;
      attempt.fate == checks[i].fate && attempt.hit.key == call.key && attempt.hit.windowSeconds == call.windowSeconds
  {
    hide CallFor;
  }

  /** The store's answer as the limiter receives it. */
  function ReplyAt(checks: seq<Check>, i: nat, keying: Keying): StoreReply
    requires i < |checks|
  {
    match AnswerAt(RunOf(checks, keying), i)
    case None => Threw
    case Some(answer) =>
      Returned(Fields(Numeric(Finite(answer.hits as real)), Numeric(Finite(answer.retryAfterSeconds as real))))
  }

  function OutcomeAt(checks: seq<Check>, i: nat, keying: Keying): Result<Allowance, Failure>
    requires i < |checks|
  {
    Decide(checks[i].request, ReplyAt(checks, i, keying), keying)
  }

  /** Check `i` is let through because it was counted in the bucket `key` and within its limit. */
  predicate PassesAt(checks: seq<Check>, i: nat, keying: Keying, key: string)
    requires i < |checks|
  {
    && CallFor(checks[i].request, keying).Some?
    && CallFor(checks[i].request, keying).value.key == key
    && OutcomeAt(checks, i, keying).Ok? && !OutcomeAt(checks, i, keying).value.degraded
  }

  function PassedIn(checks: seq<Check>, keying: Keying, key: string, from: int, to: int): nat {
    if checks == [] then 0
    else
      var last := |checks| - 1;
      PassedIn(checks[..last], keying, key, from, to) +
      if from <= checks[last].nowMs < to && PassesAt(checks, last, keying, key) then 1 else 0
  }

  ghost predicate TimesNeverDecrease(checks: seq<Check>) {
    forall i, j :: 0 <= i < j < |checks| ==> checks[i].nowMs <= checks[j].nowMs
  }

  /** A policy id stands for one limit and one window throughout. */
  ghost predicate OnePolicyPerId(checks: seq<Check>, policy: Policy) {
    forall i :: 0 <= i < |checks| && checks[i].request.policy.id == policy.id &&
                PolicyProblem(checks[i].request.policy).None? ==>
      && Limit(checks[i].request.policy) == Limit(policy)
      && WindowSeconds(checks[i].request.policy) == WindowSeconds(policy)
  }

  /** A check that was counted and answered passes exactly when its count is within its own policy's limit. */
  lemma PassingIsCounting(checks: seq<Check>, i: nat, keying: Keying, key: string)
    requires i < |checks| && CallFor(checks[i].request, keying).Some?
    ensures PassesAt(checks, i, keying, key)
       <==> AllowedAt(RunOf(checks, keying), i, key, Limit(checks[i].request.policy))
    ensures RunOf(checks, keying)[i].fate.Delivered? &&
            !PassesAt(checks, i, keying, RunOf(checks, keying)[i].hit.key) ==>
              OutcomeAt(checks, i, keying).Err? && OutcomeAt(checks, i, keying).error.RateLimited?
  {
    hide BuildBucketKey, IsPolicyId;
    var run := RunOf(checks, keying);
    if run[i].fate.Delivered? {
      CountIsPositionInWindow(run, i);
      var hits := AnswerAt(run, i).value.hits;
      assert (hits as real).Floor == hits;
      assert 1.0 <= hits as real;
    }
  }

  /**
   * Each window lets through exactly its first `limit` counted attempts: an answered check passes
   * if and only if at most `limit` attempts, itself included, were counted since its window opened.
   */
  lemma FirstAttemptsPass(checks: seq<Check>, i: nat, limit: int, keying: Keying)
    requires i < |checks| && CallFor(checks[i].request, keying).Some? && checks[i].fate.Delivered?
    requires checks[i].request.policy.limit == Whole(limit)
    ensures
      var key := CallFor(checks[i].request, keying).value.key;
      var upTo := RunOf(checks, keying)[..i + 1];
      Opening(upTo, key).Some? &&
      (PassesAt(checks, i, keying, key) <==>
       CountedFrom(upTo, key, Opening(upTo, key).value) <= limit)
  {
    NumbersAreRead(checks[i].request.policy, limit);
    var run := RunOf(checks, keying);
    CountIsPositionInWindow(run, i);
    PassingIsCounting(checks, i, keying, run[i].hit.key);
  }

  lemma {:induction false} PassedIsAllowed(
      checks: seq<Check>, keying: Keying, key: string, policy: Policy, from: int, to: int)
    requires OnePolicyPerId(checks, policy) && SharesId(checks, keying, key, policy)
    ensures PassedIn(checks, keying, key, from, to)
         == AllowedIn(RunOf(checks, keying), key, Limit(policy), from, to)
  {
    if checks != [] {
      var last := |checks| - 1;
      var run := RunOf(checks, keying);
      assert run[..last] == RunOf(checks[..last], keying);
      PassedIsAllowed(checks[..last], keying, key, policy, from, to);
      if CallFor(checks[last].request, keying).Some? {
        PassingIsCounting(checks, last, keying, key);
      }
    }
  }

  /** Every check counted in the bucket names the policy's id. */
  ghost predicate SharesId(checks: seq<Check>, keying: Keying, key: string, policy: Policy) {
    forall i :: 0 <= i < |checks| && CallFor(checks[i].request, keying).Some? &&
                CallFor(checks[i].request, keying).value.key == key ==>
      checks[i].request.policy.id == policy.id
  }

  /**
   * The budget holds end to end. Whatever the interleaving of callers and whatever calls the store
   * failed or answered too late, a policy lets through at most `2 * limit - 1` undegraded attempts of
   * one subject in any half-open interval of `windowSeconds`.
   */
  lemma BudgetHolds(checks: seq<Check>, policy: Policy, subject: Subject, keying: Keying, from: int)
    requires CallFor(Request(policy, subject), keying).Some?
    requires TimesNeverDecrease(checks) && OnePolicyPerId(checks, policy)
    ensures
      var key := CallFor(Request(policy, subject), keying).value.key;
      PassedIn(checks, keying, key, from, from + WindowSeconds(policy) * MILLISECONDS_PER_SECOND)
      <= 2 * Limit(policy) - 1
  {
    hide Decide, BuildBucketKey, IsPolicyId, AnswerFor;
    var key := CallFor(Request(policy, subject), keying).value.key;
    BucketHasOneWindow(checks, Request(policy, subject), policy, keying);
    PassedIsAllowed(checks, keying, key, policy, from, from + WindowSeconds(policy) * MILLISECONDS_PER_SECOND);
    BurstBound(RunOf(checks, keying), key, Limit(policy), WindowSeconds(policy), from);
  }

  /** Only the policy's own checks are counted in its buckets, all with its window. */
  lemma BucketHasOneWindow(checks: seq<Check>, request: Request, policy: Policy, keying: Keying)
    requires request.policy == policy && CallFor(request, keying).Some? && OnePolicyPerId(checks, policy)
    ensures SharesId(checks, keying, CallFor(request, keying).value.key, policy)
    ensures OneWindowLength(RunOf(checks, keying), CallFor(request, keying).value.key, WindowSeconds(policy))
  {
    hide Decide, BuildBucketKey, IsPolicyId, AnswerFor;
    var key := CallFor(request, keying).value.key;
    var run := RunOf(checks, keying);
    forall i | 0 <= i < |checks| && CallFor(checks[i].request, keying).Some? &&
               CallFor(checks[i].request, keying).value.key == key
      ensures checks[i].request.policy.id == policy.id
    {
      CallsNameTheirPolicy(checks[i].request, request, keying);
    }
    forall i | 0 <= i < |run| && CountsFor(run[i], key)
      ensures run[i].hit.windowSeconds == WindowSeconds(policy)
    {
      assert run[i] == AttemptOf(checks[i], keying);
    }
  }

  /**
   * A refused caller is told the truth: the wait is between 1 and the window length. An answered check
   * of the bucket made after it falls into a window that opened after the refused one's had ended, and
   * passes exactly when fewer than `limit` attempts were counted before it in that window; if all in
   * between were made before that end, it passes.
   */
  lemma WaitingHelps(checks: seq<Check>, i: nat, j: nat, policy: Policy, keying: Keying)
    requires i < j < |checks| && TimesNeverDecrease(checks) && OnePolicyPerId(checks, policy)
    requires checks[i].request.policy == policy == checks[j].request.policy
    requires CallFor(checks[i].request, keying).Some?
    requires CallFor(checks[j].request, keying) == CallFor(checks[i].request, keying)
    requires OutcomeAt(checks, i, keying).Err? && OutcomeAt(checks, i, keying).error.RateLimited?
    requires checks[j].fate.Delivered?
    ensures
      var run := RunOf(checks, keying);
      var wait := OutcomeAt(checks, i, keying).error.retryAfterSeconds;
      var key := CallFor(checks[i].request, keying).value.key;
      var opening := Opening(run[..j + 1], key);
      && 1 <= wait <= WindowSeconds(policy)
      && run[i].fate.Delivered? && run[i].hit.key == key
      && (checks[i].nowMs + wait * MILLISECONDS_PER_SECOND <= checks[j].nowMs ==>
            && opening.Some? && i < opening.value <= j && EndAfter(run, i) <= checks[opening.value].nowMs
            && (PassesAt(checks, j, keying, key) <==> CountedFrom(run[..j], key, opening.value) < Limit(policy))
            && (OnlyHammering(run, i, j) ==> PassesAt(checks, j, keying, key)))
  {
    hide BuildBucketKey, IsPolicyId, Decide, AnswerFor, Opening, CountedFrom;
    var run := RunOf(checks, keying);
    var key := CallFor(checks[i].request, keying).value.key;
    BucketHasOneWindow(checks, Request(policy, checks[i].request.subject), policy, keying);
    RefusalTellsTheWait(checks, i, keying);
    WaitIsTight(run, i, WindowSeconds(policy));
    if checks[i].nowMs + AnswerAt(run, i).value.retryAfterSeconds * MILLISECONDS_PER_SECOND <= checks[j].nowMs {
      PassesAfterWaitExactlyWhen(run, i, j, Limit(policy));
      PassingIsCounting(checks, j, keying, key);
      if OnlyHammering(run, i, j) {
        WaitIsEnough(run, i, j, Limit(policy));
      }
    }
  }

  lemma RefusalTellsTheWait(checks: seq<Check>, i: nat, keying: Keying)
    requires i < |checks| && OutcomeAt(checks, i, keying).Err? && OutcomeAt(checks, i, keying).error.RateLimited?
    ensures RunOf(checks, keying)[i].fate.Delivered?
    ensures OutcomeAt(checks, i, keying).error.retryAfterSeconds
         == Max(1, AnswerAt(RunOf(checks, keying), i).value.retryAfterSeconds)
  {
    hide BuildBucketKey, IsPolicyId, AnswerFor;
    var run := RunOf(checks, keying);
    if run[i].fate.Delivered? {
      CeilOfWhole(AnswerAt(run, i).value.retryAfterSeconds);
    }
  }

  lemma CeilOfWhole(n: int)
    ensures CeilOf(n as real) == n
  {
  }

  // ----- Other budgets make no difference

  predicate CountsIn(check: Check, keying: Keying, key: string) {
    CallFor(check.request, keying).Some? && CallFor(check.request, keying).value.key == key
  }

  /** The checks counted in one bucket, in order. */
  function OfBucket(checks: seq<Check>, keying: Keying, key: string): seq<Check> {
    if checks == [] then []
    else
      var last := checks[|checks| - 1];
      OfBucket(checks[..|checks| - 1], keying, key) + if CountsIn(last, keying, key) then [last] else []
  }

  lemma KeysAreNotEmpty(request: Request, keying: Keying)
    requires CallFor(request, keying).Some?
    ensures CallFor(request, keying).value.key != ""
  {
    KeyIs(request.policy.id, request.subject, keying);
  }

  lemma {:induction false} OnlyIsOfBucket(checks: seq<Check>, keying: Keying, key: string)
    requires key != ""
    ensures Only(RunOf(checks, keying), key) == RunOf(OfBucket(checks, keying, key), keying)
  {
    hide BuildBucketKey, CallFor;
    if checks != [] {
      var init, last := checks[..|checks| - 1], checks[|checks| - 1];
      OnlyIsOfBucket(init, keying, key);
      assert RunOf(checks, keying)[..|init|] == RunOf(init, keying);
      assert RunOf(checks, keying)[|init|] == AttemptOf(last, keying);
      assert AttemptOf(last, keying).hit.key == key <==> CountsIn(last, keying, key);
    }
  }

  /**
   * The outcome of a check is what it would be if every check counted in another bucket, or in none,
   * had never been made.
   */
  lemma OtherBucketsMakeNoDifference(checks: seq<Check>, i: nat, keying: Keying)
    requires i < |checks| && CallFor(checks[i].request, keying).Some?
    ensures
      var own := OfBucket(checks[..i + 1], keying, CallFor(checks[i].request, keying).value.key);
      own != [] && own[|own| - 1] == checks[i]
      && OutcomeAt(checks, i, keying) == OutcomeAt(own, |own| - 1, keying)
  {
    hide BuildBucketKey, CallFor, Decide, AnswerFor, After, IsLive;
    var key := CallFor(checks[i].request, keying).value.key;
    var own := OfBucket(checks[..i + 1], keying, key);
    var earlier := OfBucket(checks[..i], keying, key);
    KeysAreNotEmpty(checks[i].request, keying);
    assert checks[..i + 1][..i] == checks[..i];
    assert own == earlier + [checks[i]];
    OnlyIsOfBucket(checks[..i], keying, key);
    assert RunOf(checks, keying)[..i] == RunOf(checks[..i], keying);
    assert RunOf(own, keying)[..|earlier|] == RunOf(earlier, keying);
    CounterDependsOnOwnAttempts(RunOf(checks[..i], keying), key);
    SameCountedAlone(After(RunOf(checks[..i], keying)), After(RunOf(earlier, keying)), RunOf(checks, keying)[i].hit);
  }

  lemma SameCountedAlone(a: Counters, b: Counters, hit: Hit)
    requires hit.key in a <==> hit.key in b
    requires hit.key in a ==> a[hit.key] == b[hit.key]
    ensures Counted(a, hit) == Counted(b, hit)
  {
  }

  /** The checks that make a call and name the same policy, kind of subject and normalised parts. */
  function OfBudget(checks: seq<Check>, keying: Keying, request: Request): seq<Check> {
    if checks == [] then []
    else
      var last := checks[|checks| - 1];
      OfBudget(checks[..|checks| - 1], keying, request) +
      if CallFor(last.request, keying).Some? && SameBudget(last.request, request, keying) then [last] else []
  }

  predicate SameBudget(a: Request, b: Request, keying: Keying) {
    a.policy.id == b.policy.id && IsSameSubject(a.subject, b.subject, keying)
  }

  lemma {:induction false} BudgetIsBucket(checks: seq<Check>, keying: Keying, request: Request)
    requires NoCollisions(keying) && CallFor(request, keying).Some? && SeparatorFree(request.subject)
    requires forall i :: 0 <= i < |checks| ==> SeparatorFree(checks[i].request.subject)
    ensures OfBudget(checks, keying, request) == OfBucket(checks, keying, CallFor(request, keying).value.key)
  {
    hide BuildBucketKey, NoCollisions, IsPolicyId, IsSameSubject;
    if checks != [] {
      var last := checks[|checks| - 1].request;
      BudgetIsBucket(checks[..|checks| - 1], keying, request);
      if CallFor(last, keying).Some? {
        BudgetsAreIsolated(last.policy.id, last.subject, request.policy.id, request.subject, keying);
      }
    }
  }

  /**
   * Budgets are isolated end to end: with no NUL in actor ids, a check's outcome is what it would be
   * if only the checks of its own policy, kind of subject and normalised parts had been made.
   */
  lemma OutcomeDependsOnOwnBudget(checks: seq<Check>, i: nat, keying: Keying)
    requires i < |checks| && CallFor(checks[i].request, keying).Some? && NoCollisions(keying)
    requires forall k :: 0 <= k <= i ==> SeparatorFree(checks[k].request.subject)
    ensures
      var own := OfBudget(checks[..i + 1], keying, checks[i].request);
      own != [] && own[|own| - 1] == checks[i]
      && OutcomeAt(checks, i, keying) == OutcomeAt(own, |own| - 1, keying)
  {
    hide OutcomeAt, CallFor, NoCollisions, SeparatorFree, OfBudget, OfBucket;
    OtherBucketsMakeNoDifference(checks, i, keying);
    BudgetIsBucket(checks[..i + 1], keying, checks[i].request);
  }
}
