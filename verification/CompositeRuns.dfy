/**
 * Composites with the address policy first: what one address can burn of an account's budget. The
 * checks of one composite are not made at one moment: those of others, and single ones, come in between.
 */
module CompositeRuns {
  import opened Basics
  import opened FixedWindow
  import opened Policy
  import opened Subject
  import opened Limiter
  import opened LimiterRuns

  /**
   * One composite within a run of checks: its requests, what the store does for each if it gets that
   * far, and where in the run the checks it has made so far stand.
   */
  datatype Composite = Composite(requests: seq<Request>, replies: seq<StoreReply>, at: seq<nat>)

  /**
   * Its checks are those of its requests, in their order, and no more than a composite makes: up to
   * and including the first refusal.
   */
  ghost predicate IsEnforced(composite: Composite, checks: seq<Check>, keying: Keying) {
    && DistinctIds(composite.requests) && |composite.replies| == |composite.requests|
    && |composite.at| <= Min(
      FirstRefused(composite.requests, composite.replies, 0, keying) + 1, |composite.requests|)
    && (forall k :: 0 <= k < |composite.at| ==>
          && composite.at[k] < |checks| && checks[composite.at[k]].request == composite.requests[k]
          && composite.replies[k] == ReplyAt(checks, composite.at[k], keying))
    && (forall k, l :: 0 <= k < l < |composite.at| ==> composite.at[k] < composite.at[l])
  }

  /** Every composite is enforced, and no check belongs to two of them. */
  ghost predicate AreEnforced(composites: seq<Composite>, checks: seq<Check>, keying: Keying) {
    && (forall c :: 0 <= c < |composites| ==> IsEnforced(composites[c], checks, keying))
    && (forall c, d, k, l ::
          0 <= c < d < |composites| && 0 <= k < |composites[c].at| && 0 <= l < |composites[d].at| ==>
          composites[c].at[k] != composites[d].at[l])
  }

  /** A check is made only after every earlier one of its composite was allowed. */
  lemma EarlierOnesWereAllowed(composite: Composite, checks: seq<Check>, keying: Keying, k: nat, l: nat)
    requires IsEnforced(composite, checks, keying) && k < l < |composite.at|
    ensures composite.at[k] < composite.at[l] && OutcomeAt(checks, composite.at[k], keying).Ok?
  {
    hide Decide, ReplyAt;
    assert Decide(composite.requests[k], composite.replies[k], keying).Ok?;
  }

  predicate IsIn(check: Check, keying: Keying, key: string, from: int, to: int) {
    CountsIn(check, keying, key) && from <= check.nowMs < to
  }

  /** The composite began with a check counted in `address` in the interval and has reached `account`. */
  ghost predicate Reaches(
      composite: Composite, checks: seq<Check>, keying: Keying, address: string, account: string, from: int, to: int)
  {
    && composite.at != [] && composite.at[0] < |checks| && IsIn(checks[composite.at[0]], keying, address, from, to)
    && exists k :: 1 <= k < |composite.at| && composite.at[k] < |checks| &&
                   CountsIn(checks[composite.at[k]], keying, account)
  }

  /** The composites by which one address, in an interval, has spent of one account's budget. */
  ghost function Burned(
      composites: seq<Composite>, checks: seq<Check>, keying: Keying, address: string, account: string,
      from: int, to: int): set<nat>
  {
    set c: nat | c < |composites| && Reaches(composites[c], checks, keying, address, account, from, to)
  }

  ghost function Passed(checks: seq<Check>, keying: Keying, key: string, from: int, to: int): set<nat> {
    set i: nat | i < |checks| && from <= checks[i].nowMs < to && PassesAt(checks, i, keying, key)
  }

  /** Not answered by the store, under a policy that lets such attempts through. */
  predicate FailsOpen(check: Check) {
    !check.fate.Delivered? && check.request.policy.onBackendFailure == "allow"
  }

  /** The store answers every check counted in the bucket, or the policy denies when it does not. */
  ghost predicate NeverOpen(checks: seq<Check>, keying: Keying, key: string) {
    forall i :: 0 <= i < |checks| && CountsIn(checks[i], keying, key) ==> !FailsOpen(checks[i])
  }

  ghost function FailedOpen(checks: seq<Check>, keying: Keying, key: string, from: int, to: int): set<nat> {
    set i: nat | i < |checks| && IsIn(checks[i], keying, key, from, to) && FailsOpen(checks[i])
  }

  lemma {:induction false} PassedInIsSize(checks: seq<Check>, keying: Keying, key: string, from: int, to: int)
    ensures |Passed(checks, keying, key, from, to)| == PassedIn(checks, keying, key, from, to)
  {
    hide PassesAt;
    if checks != [] {
      var last := |checks| - 1;
      PassedInIsSize(checks[..last], keying, key, from, to);
      forall i: nat | i < last
        ensures PassesAt(checks[..last], i, keying, key) <==> PassesAt(checks, i, keying, key)
      {
        PassingInPrefix(checks, i, last, keying, key);
      }
      var newest := if from <= checks[last].nowMs < to && PassesAt(checks, last, keying, key) then {last} else {};
      assert Passed(checks, keying, key, from, to) == Passed(checks[..last], keying, key, from, to) + newest;
    }
  }

  lemma PassingInPrefix(checks: seq<Check>, i: nat, n: nat, keying: Keying, key: string)
    requires i < n <= |checks|
    ensures PassesAt(checks[..n], i, keying, key) <==> PassesAt(checks, i, keying, key)
  {
    assert RunOf(checks, keying)[..i] == RunOf(checks[..n], keying)[..i];
  }

  /** An allowed check was counted within its limit, or failed open. */
  lemma AllowedMeansPassed(checks: seq<Check>, i: nat, keying: Keying, key: string)
    requires i < |checks| && CountsIn(checks[i], keying, key) && OutcomeAt(checks, i, keying).Ok?
    ensures PassesAt(checks, i, keying, key) || FailsOpen(checks[i])
  {
    PassingIsCounting(checks, i, keying, key);
    AllowanceMeansBudget(checks[i].request, ReplyAt(checks, i, keying), keying);
  }

  lemma {:induction false} NoMoreThanTheirSources(js: set<nat>, source: map<nat, nat>, sources: set<nat>)
    requires forall j :: j in js ==> j in source && source[j] in sources
    requires forall j, k :: j in js && k in js && j != k ==> source[j] != source[k]
    ensures |js| <= |sources|
    decreases js
  {
    if js != {} {
      var j :| j in js;
      NoMoreThanTheirSources(js - {j}, source, sources - {source[j]});
    }
  }

  /**
   * Of the composites one address begins in any half-open interval of its window length, however they
   * interleave, at most `2 * limit - 1` reach an account, and those whose address check failed open.
   */
  lemma AddressBurnsAtMost(
      composites: seq<Composite>, checks: seq<Check>, policy: Policy, subject: Subject, account: string,
      keying: Keying, from: int)
    requires CallFor(Request(policy, subject), keying).Some? && AreEnforced(composites, checks, keying)
    requires TimesNeverDecrease(checks) && OnePolicyPerId(checks, policy)
    ensures
      var address := CallFor(Request(policy, subject), keying).value.key;
      var to := from + WindowSeconds(policy) * MILLISECONDS_PER_SECOND;
      |Burned(composites, checks, keying, address, account, from, to)|
      <= 2 * Limit(policy) - 1 + |FailedOpen(checks, keying, address, from, to)|
  {
    hide OutcomeAt, CallFor, PassesAt, PassedIn, OnePolicyPerId, TimesNeverDecrease, CountsIn, FailsOpen, IsEnforced;
    var address := CallFor(Request(policy, subject), keying).value.key;
    var to := from + WindowSeconds(policy) * MILLISECONDS_PER_SECOND;
    var burned := Burned(composites, checks, keying, address, account, from, to);
    var passed, open := Passed(checks, keying, address, from, to), FailedOpen(checks, keying, address, from, to);
    var source := map c | c in burned :: composites[c].at[0];
    forall c | c in burned
      ensures source[c] in passed + open
    {
      var k :| 1 <= k < |composites[c].at| && composites[c].at[k] < |checks| &&
               CountsIn(checks[composites[c].at[k]], keying, account);
      EarlierOnesWereAllowed(composites[c], checks, keying, 0, k);
      AllowedMeansPassed(checks, source[c], keying, address);
    }
    NoMoreThanTheirSources(burned, source, passed + open);
    assert |passed + open| <= |passed| + |open|;
    PassedInIsSize(checks, keying, address, from, to);
    BudgetHolds(checks, policy, subject, keying, from);
  }

  /**
   * So, while the store answers or the address policy denies when it does not, one address burns no
   * more of an account's budget than its own budget allows.
   */
  lemma AddressBurnsItsOwnBudgetOnly(
      composites: seq<Composite>, checks: seq<Check>, policy: Policy, subject: Subject, account: string,
      keying: Keying, from: int)
    requires CallFor(Request(policy, subject), keying).Some? && AreEnforced(composites, checks, keying)
    requires TimesNeverDecrease(checks) && OnePolicyPerId(checks, policy)
    requires NeverOpen(checks, keying, CallFor(Request(policy, subject), keying).value.key)
    ensures
      var address := CallFor(Request(policy, subject), keying).value.key;
      var to := from + WindowSeconds(policy) * MILLISECONDS_PER_SECOND;
      |Burned(composites, checks, keying, address, account, from, to)| <= 2 * Limit(policy) - 1
  {
    hide CallFor, CountsIn, FailsOpen, Burned, TimesNeverDecrease, OnePolicyPerId, AreEnforced;
    AddressBurnsAtMost(composites, checks, policy, subject, account, keying, from);
    var address := CallFor(Request(policy, subject), keying).value.key;
    assert FailedOpen(checks, keying, address, from, from + WindowSeconds(policy) * MILLISECONDS_PER_SECOND) == {};
  }

  // ----- Without that, an account is open to any address

  /** `n` composites, one after the other: their address checks are not counted, their account checks are. */
  function Outage(address: Request, account: Request, n: nat): (checks: seq<Check>)
    ensures |checks| == 2 * n
    ensures forall c :: 0 <= c < n ==>
      checks[2 * c] == Check(0, address, NotCounted) && checks[2 * c + 1] == Check(0, account, AnswerLost)
  {
    if n == 0 then []
    else Outage(address, account, n - 1) + [Check(0, address, NotCounted), Check(0, account, AnswerLost)]
  }

  function Composites(address: Request, account: Request, n: nat): (composites: seq<Composite>)
    ensures |composites| == n
    ensures forall c :: 0 <= c < n ==>
      composites[c] == Composite([address, account], [Threw, Threw], [2 * c, 2 * c + 1])
  {
    seq(n, c requires 0 <= c < n => Composite([address, account], [Threw, Threw], [2 * c, 2 * c + 1]))
  }

  lemma OutageReplies(checks: seq<Check>, i: nat, keying: Keying)
    requires i < |checks| && !checks[i].fate.Delivered?
    ensures ReplyAt(checks, i, keying) == Threw
  {
  }

  /** A composite goes past a first request that fails open. */
  lemma OutageLetsThrough(address: Request, account: Request, keying: Keying)
    requires CallFor(address, keying).Some? && address.policy.onBackendFailure == "allow"
    ensures FirstRefused([address, account], [Threw, Threw], 0, keying) >= 1
  {
    assert Decide(address, Threw, keying).Ok?;
    hide Decide;
  }

  lemma {:induction false} FirstNumbers(n: nat) returns (numbers: set<nat>)
    ensures |numbers| == n && forall c: nat :: c in numbers <==> c < n
  {
    if n == 0 {
      numbers := {};
    } else {
      var fewer := FirstNumbers(n - 1);
      numbers := fewer + {n - 1};
    }
  }

  /**
   * While the store does not answer, an address policy that allows then lets one address spend of an
   * account's budget any number of times.
   */
  lemma FailingOpenBurnsWithoutBound(address: Request, account: Request, n: nat, keying: Keying)
    requires CallFor(address, keying).Some? && CallFor(account, keying).Some?
    requires address.policy.onBackendFailure == "allow" && address.policy.id != account.policy.id
    ensures
      var checks, composites := Outage(address, account, n), Composites(address, account, n);
      var addressKey, accountKey := CallFor(address, keying).value.key, CallFor(account, keying).value.key;
      && AreEnforced(composites, checks, keying) && TimesNeverDecrease(checks)
      && |Burned(composites, checks, keying, addressKey, accountKey, 0, 1)| == n
  {
    hide CallFor, FirstRefused, ReplyAt, Outage, Composites, DistinctIds;
    var checks, composites := Outage(address, account, n), Composites(address, account, n);
    OutageLetsThrough(address, account, keying);
    DistinctMeansDifferent([address, account]);
    forall i | 0 <= i < |checks|
      ensures checks[i].nowMs == 0 && ReplyAt(checks, i, keying) == Threw
    {
      var c := i / 2;
      assert i == 2 * c || i == 2 * c + 1;
      OutageReplies(checks, i, keying);
    }
    var numbers := FirstNumbers(n);
    var addressKey, accountKey := CallFor(address, keying).value.key, CallFor(account, keying).value.key;
    var burned := Burned(composites, checks, keying, addressKey, accountKey, 0, 1);
    forall c: nat | c < n
      ensures c in burned
    {
      assert composites[c].at[1] < |checks| && CountsIn(checks[composites[c].at[1]], keying, accountKey);
    }
    assert burned == numbers;
  }
}
