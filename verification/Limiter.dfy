/** Turns counts into decisions: one policy for one subject, or several in order. */
module Limiter {
  import opened Basics
  import opened Policy
  import opened Subject
  import Log = LogThrottle

  const EXCEEDED_CODE := "rate_limit.exceeded"
  const BACKEND_UNAVAILABLE_CODE := "rate_limit.backend_unavailable"
  const INVALID_REQUEST_CODE := "rate_limit.invalid_request"
  const UNEXPECTED_FAILURE_CODE := "rate_limit.unexpected_failure"
  const CLIENT_UNRESOLVED_CODE := "rate_limit.client_unresolved"
  const COMPOSITE_LOG_ID := "rate-limit.composite"

  datatype Request = Request(policy: Policy, subject: Subject)

  datatype Field = NotANumber | Numeric(number: Number)

  /** What the store hands back: it is behind an interface, so anything may come. */
  datatype Reply = NotAnObject | Fields(hits: Field, retryAfterSeconds: Field)

  datatype StoreReply = TimedOut | Threw | Returned(value: Reply)

  datatype StoreCall = StoreCall(key: string, windowSeconds: int)

  datatype Allowance = Allowance(limit: int, remaining: Option<int>, resetAfterSeconds: Option<real>, degraded: bool)

  datatype Failure =
    | RateLimited(code: string, retryAfterSeconds: int)
    | Infrastructure(code: string)

  predicate IsBucketHit(value: Reply) {
    && value.Fields?
    && value.hits.Numeric? && value.hits.number.IsInteger() && value.hits.number.value >= 1.0
    && value.retryAfterSeconds.Numeric? && value.retryAfterSeconds.number.Finite?
  }

  function CeilOf(x: real): (r: int)
    ensures x <= r as real < x + 1.0
  {
    -((-x).Floor)
  }

  function RateLimitedError(retryAfterSeconds: real): Failure {
    RateLimited(EXCEEDED_CODE, Max(1, CeilOf(retryAfterSeconds)))
  }

  function DegradedAllowance(policy: Policy): Allowance {
    Allowance(Limit(policy), None, None, true)
  }

  /** The one store call a request makes, if it makes one. */
  function CallFor(request: Request, keying: Keying): Option<StoreCall> {
    if PolicyProblem(request.policy).Some? || request.subject.UnresolvedClient? then None
    else
      match BuildBucketKey(request.policy.id, request.subject, keying)
      case Err(_) => None
      case Ok(key) => Some(StoreCall(key, WindowSeconds(request.policy)))
  }

  function BackendFailed(policy: Policy): Result<Allowance, Failure> {
    if policy.onBackendFailure == "allow" then Ok(DegradedAllowance(policy))
    else Err(Infrastructure(BACKEND_UNAVAILABLE_CODE))
  }

  /** The decision on one request, given what the store would reply. */
  function Decide(request: Request, reply: StoreReply, keying: Keying): Result<Allowance, Failure> {
    var policy := request.policy;
    if PolicyProblem(policy).Some? then Err(Infrastructure(INVALID_REQUEST_CODE))
    else if request.subject.UnresolvedClient? then
      if policy.onUnresolvedClient == Some("deny") then Err(Infrastructure(CLIENT_UNRESOLVED_CODE))
      else Ok(DegradedAllowance(policy))
    else if CallFor(request, keying).None? then Err(Infrastructure(INVALID_REQUEST_CODE))
    else if !reply.Returned? || !IsBucketHit(reply.value) then BackendFailed(policy)
    else
      var hits := reply.value.hits.number.value.Floor;
      var retry := reply.value.retryAfterSeconds.number.value;
      if hits <= Limit(policy) then
        Ok(Allowance(Limit(policy), Some(Limit(policy) - hits), Some(if retry < 0.0 then 0.0 else retry), false))
      else Err(RateLimitedError(retry))
  }

  // ----- Logging

  datatype Level = Info | Warn | Error

  datatype LogLine = LogLine(level: Level, message: string, policy: string, reason: string, suppressed: nat)

  /** What happened that is worth a line: its throttle key starts with `event`. */
  datatype Notice = Notice(event: string, policy: string, level: Level, message: string, reason: string)

  function NoticeFor(request: Request, reply: StoreReply, keying: Keying): Option<Notice> {
    var policy := request.policy;
    if PolicyProblem(policy).Some? then Some(InvalidNotice(policy.id))
    else if request.subject.UnresolvedClient? then
      Some(Notice("unresolved_client", policy.id, Warn, "rate_limit.client_unresolved",
                  if policy.onUnresolvedClient == Some("deny") then "denied" else "skipped"))
    else if CallFor(request, keying).None? then Some(InvalidNotice(policy.id))
    else if !reply.Returned? || !IsBucketHit(reply.value) then
      Some(BackendNotice(policy, if reply.TimedOut? then "timeout" else "store_error"))
    else if reply.value.hits.number.value.Floor <= Limit(policy) then None
    else Some(Notice("rejected", policy.id, Info, "rate_limit.rejected", ""))
  }

  function InvalidNotice(policyId: string): Notice {
    Notice("invalid", policyId, Error, "rate_limit.invalid_request", "invalid_request")
  }

  function BackendNotice(policy: Policy, reason: string): Notice {
    if policy.onBackendFailure == "allow" then
      Notice("failed_open", policy.id, Warn, "rate_limit.failed_open", reason)
    else
      Notice("backend_failed", policy.id, Error, "rate_limit.backend_failed", reason)
  }

  function EventOf(notice: Notice, nowMs: int): Log.Event {
    Log.Event(notice.event + ":" + notice.policy[..Min(|notice.policy|, MAX_POLICY_ID_LENGTH)], nowMs)
  }

  function LineFor(notice: Notice, suppressed: nat): LogLine {
    LogLine(notice.level, notice.message, notice.policy, notice.reason, suppressed)
  }

  /** The throttle's table and the lines written so far, after one notice. */
  function LogStep(tracked: Log.Table, lines: seq<LogLine>, intervalMs: int, notice: Option<Notice>, nowMs: int)
    : (Log.Table, seq<LogLine>)
  {
    if notice.None? then (tracked, lines)
    else
      var (next, decision) := Log.AdmitStep(tracked, intervalMs, EventOf(notice.value, nowMs));
      (next, if decision.write then lines + [LineFor(notice.value, decision.suppressed)] else lines)
  }

  // ----- When a request, the clock or the log throws

  /** What throws if it is used: reading the request or list, the clock's time, the log's writing. */
  datatype Mishap = Mishap(request: bool, clock: bool, log: bool)

  const NO_MISHAP := Mishap(false, false, false)

  /** When a guarded step runs and what throws in it; when a throw is noted and what throws then. */
  datatype Circumstance = Circumstance(nowMs: int, mishap: Mishap, laterMs: int, again: Mishap)

  /** What a caller sees: a result, or a rejected promise. */
  datatype Outcome<+T> = Settled(result: Result<T, Failure>) | Rejected

  /** The throttle's table and the lines written so far. */
  datatype Journal = Journal(tracked: Log.Table, lines: seq<LogLine>)

  const UNEXPECTED_NOTICE :=
    Notice("unexpected", "rate-limit.unknown", Error, "rate_limit.unexpected_failure", "")

  /** Whether the throttle would let this notice be written. */
  predicate WouldWrite(tracked: Log.Table, intervalMs: int, notice: Notice, nowMs: int) {
    Log.AdmitStep(tracked, intervalMs, EventOf(notice, nowMs)).1.write
  }

  /** The clock is asked for every notice, the log only for those that are to be written. */
  predicate NoteThrows(tracked: Log.Table, intervalMs: int, notice: Option<Notice>, nowMs: int, mishap: Mishap) {
    notice.Some? && (mishap.clock || (mishap.log && WouldWrite(tracked, intervalMs, notice.value, nowMs)))
  }

  /** A clock that throws leaves the journal as it is, a log that throws the lines. */
  function TryLogStep(journal: Journal, intervalMs: int, notice: Option<Notice>, nowMs: int, mishap: Mishap): Journal {
    if mishap.clock then journal
    else
      var (tracked, lines) := LogStep(journal.tracked, journal.lines, intervalMs, notice, nowMs);
      Journal(tracked, if mishap.log then journal.lines else lines)
  }

  predicate CheckThrows(
      journal: Journal, intervalMs: int, request: Request, reply: StoreReply, c: Circumstance, keying: Keying)
  {
    c.mishap.request
    || NoteThrows(journal.tracked, intervalMs, NoticeFor(request, reply, keying), c.nowMs, c.mishap)
  }

  function AfterCheck(
      journal: Journal, intervalMs: int, request: Request, reply: StoreReply, c: Circumstance, keying: Keying): Journal
  {
    if c.mishap.request then journal
    else TryLogStep(journal, intervalMs, NoticeFor(request, reply, keying), c.nowMs, c.mishap)
  }

  /** Something throws while a throw is being noted. */
  predicate Rejects(
      journal: Journal, intervalMs: int, request: Request, reply: StoreReply, c: Circumstance, keying: Keying)
  {
    && CheckThrows(journal, intervalMs, request, reply, c, keying)
    && NoteThrows(
         AfterCheck(journal, intervalMs, request, reply, c, keying).tracked, intervalMs, Some(UNEXPECTED_NOTICE),
         c.laterMs, c.again)
  }

  function OutcomeOf(
      journal: Journal, intervalMs: int, request: Request, reply: StoreReply, c: Circumstance, keying: Keying)
    : Outcome<Allowance>
  {
    if Rejects(journal, intervalMs, request, reply, c, keying) then Rejected
    else if CheckThrows(journal, intervalMs, request, reply, c, keying) then
      Settled(Err(Infrastructure(UNEXPECTED_FAILURE_CODE)))
    else Settled(Decide(request, reply, keying))
  }

  function AfterEnforce(
      journal: Journal, intervalMs: int, request: Request, reply: StoreReply, c: Circumstance, keying: Keying): Journal
  {
    var checked := AfterCheck(journal, intervalMs, request, reply, c, keying);
    if CheckThrows(journal, intervalMs, request, reply, c, keying) then
      TryLogStep(checked, intervalMs, Some(UNEXPECTED_NOTICE), c.laterMs, c.again)
    else checked
  }

  function CallMade(request: Request, c: Circumstance, keying: Keying): Option<StoreCall> {
    if c.mishap.request then None else CallFor(request, keying)
  }

  // ----- Composite requests

  function IdsOf(requests: seq<Request>): set<string> {
    if requests == [] then {} else IdsOf(requests[..|requests| - 1]) + {requests[|requests| - 1].policy.id}
  }

  predicate DistinctIds(requests: seq<Request>) {
    |IdsOf(requests)| == |requests|
  }

  /** The first request from the `i`-th on that is refused, or the number of requests. */
  function FirstRefused(requests: seq<Request>, replies: seq<StoreReply>, i: nat, keying: Keying): (n: nat)
    requires |requests| == |replies| && i <= |requests|
    ensures i <= n <= |requests|
    ensures n < |requests| ==> Decide(requests[n], replies[n], keying).Err?
    ensures forall m :: i <= m < n ==> Decide(requests[m], replies[m], keying).Ok?
    decreases |requests| - i
  {
    if i == |requests| || Decide(requests[i], replies[i], keying).Err? then i
    else FirstRefused(requests, replies, i + 1, keying)
  }

  /** The store calls of the first `n` requests, in order. */
  function CallsOf(requests: seq<Request>, n: nat, keying: Keying): seq<StoreCall>
    requires n <= |requests|
  {
    if n == 0 then []
    else
      var call := CallFor(requests[n - 1], keying);
      CallsOf(requests, n - 1, keying) + if call.Some? then [call.value] else []
  }

  /** The allowances of the first `n` requests, in order. */
  function Granted(requests: seq<Request>, replies: seq<StoreReply>, n: nat, keying: Keying): (r: seq<Allowance>)
    requires |requests| == |replies| && n <= FirstRefused(requests, replies, 0, keying)
    ensures |r| == n
  {
    if n == 0 then []
    else Granted(requests, replies, n - 1, keying) + [Decide(requests[n - 1], replies[n - 1], keying).value]
  }

  lemma {:induction false} GrantedInOrder(
      requests: seq<Request>, replies: seq<StoreReply>, n: nat, i: nat, keying: Keying)
    requires |requests| == |replies| && i < n <= FirstRefused(requests, replies, 0, keying)
    ensures Decide(requests[i], replies[i], keying) == Ok(Granted(requests, replies, n, keying)[i])
  {
    if i < n - 1 {
      GrantedInOrder(requests, replies, n - 1, i, keying);
    }
  }

  /** The throttle's table and the lines after the first `n` requests, the `i`-th one at `times[i + 1]`. */
  function LogAfter(
      tracked: Log.Table, lines: seq<LogLine>, intervalMs: int, requests: seq<Request>, replies: seq<StoreReply>,
      times: seq<int>, n: nat, keying: Keying)
    : (Log.Table, seq<LogLine>)
    requires |requests| == |replies| && |times| == |requests| + 1 && n <= |requests|
  {
    if n == 0 then (tracked, lines)
    else
      var (tracked, lines) := LogAfter(tracked, lines, intervalMs, requests, replies, times, n - 1, keying);
      LogStep(tracked, lines, intervalMs, NoticeFor(requests[n - 1], replies[n - 1], keying), times[n])
  }

  // ----- Composite requests whose checks may throw

  /** One guarded check: the request, what the store does if it is called, and what else happens. */
  datatype Guarded = Guarded(request: Request, reply: StoreReply, c: Circumstance)

  function RequestsOf(checks: seq<Guarded>): (requests: seq<Request>)
    ensures |requests| == |checks| && forall i :: 0 <= i < |checks| ==> requests[i] == checks[i].request
  {
    seq(|checks|, i requires 0 <= i < |checks| => checks[i].request)
  }

  /** The journal after the first `n` checks. */
  function AfterEach(journal: Journal, intervalMs: int, checks: seq<Guarded>, n: nat, keying: Keying): Journal
    requires n <= |checks|
  {
    if n == 0 then journal
    else
      var last := checks[n - 1];
      AfterEnforce(
        AfterEach(journal, intervalMs, checks, n - 1, keying), intervalMs, last.request, last.reply, last.c, keying)
  }

  function OutcomeEach(journal: Journal, intervalMs: int, checks: seq<Guarded>, i: nat, keying: Keying)
    : Outcome<Allowance>
    requires i < |checks|
  {
    var before := AfterEach(journal, intervalMs, checks, i, keying);
    OutcomeOf(before, intervalMs, checks[i].request, checks[i].reply, checks[i].c, keying)
  }

  predicate IsAllowed(outcome: Outcome<Allowance>) {
    outcome.Settled? && outcome.result.Ok?
  }

  /** The first check from the `i`-th on that is not allowed, or the number of checks. */
  function FirstStopped(journal: Journal, intervalMs: int, checks: seq<Guarded>, i: nat, keying: Keying): (n: nat)
    requires i <= |checks|
    ensures i <= n <= |checks|
    ensures n < |checks| ==> !IsAllowed(OutcomeEach(journal, intervalMs, checks, n, keying))
    ensures forall m :: i <= m < n ==> IsAllowed(OutcomeEach(journal, intervalMs, checks, m, keying))
    decreases |checks| - i
  {
    if i == |checks| || !IsAllowed(OutcomeEach(journal, intervalMs, checks, i, keying)) then i
    else FirstStopped(journal, intervalMs, checks, i + 1, keying)
  }

  function GrantedEach(journal: Journal, intervalMs: int, checks: seq<Guarded>, n: nat, keying: Keying)
    : (r: seq<Allowance>)
    requires n <= FirstStopped(journal, intervalMs, checks, 0, keying)
    ensures |r| == n
  {
    if n == 0 then []
    else
      GrantedEach(journal, intervalMs, checks, n - 1, keying) +
      [OutcomeEach(journal, intervalMs, checks, n - 1, keying).result.value]
  }

  /** The store calls of the first `n` checks. */
  function CallsEach(checks: seq<Guarded>, n: nat, keying: Keying): seq<StoreCall>
    requires n <= |checks|
  {
    if n == 0 then []
    else
      var call := CallMade(checks[n - 1].request, checks[n - 1].c, keying);
      CallsEach(checks, n - 1, keying) + if call.Some? then [call.value] else []
  }

  predicate IsUsableList(checks: seq<Guarded>) {
    checks != [] && DistinctIds(RequestsOf(checks))
  }

  /** How many checks are made: up to and including the first that is not allowed. */
  function ChecksMade(journal: Journal, intervalMs: int, checks: seq<Guarded>, list: Circumstance, keying: Keying)
    : (n: nat)
    ensures n <= |checks|
  {
    if list.mishap.request || !IsUsableList(checks) then 0
    else Min(FirstStopped(journal, intervalMs, checks, 0, keying) + 1, |checks|)
  }

  /** What escapes the checks and their guards: the list, the note about it, or a check that rejects. */
  predicate ListThrows(journal: Journal, intervalMs: int, checks: seq<Guarded>, list: Circumstance, keying: Keying) {
    if list.mishap.request then true
    else if !IsUsableList(checks) then
      NoteThrows(journal.tracked, intervalMs, Some(InvalidNotice(COMPOSITE_LOG_ID)), list.nowMs, list.mishap)
    else
      var first := FirstStopped(journal, intervalMs, checks, 0, keying);
      first < |checks| && OutcomeEach(journal, intervalMs, checks, first, keying).Rejected?
  }

  function AfterList(journal: Journal, intervalMs: int, checks: seq<Guarded>, list: Circumstance, keying: Keying)
    : Journal
  {
    if list.mishap.request then journal
    else if !IsUsableList(checks) then
      TryLogStep(journal, intervalMs, Some(InvalidNotice(COMPOSITE_LOG_ID)), list.nowMs, list.mishap)
    else AfterEach(journal, intervalMs, checks, ChecksMade(journal, intervalMs, checks, list, keying), keying)
  }

  /** Noting what has escaped, under the outer guard, throws as well. */
  predicate ListRejects(journal: Journal, intervalMs: int, checks: seq<Guarded>, list: Circumstance, keying: Keying) {
    && ListThrows(journal, intervalMs, checks, list, keying)
    && NoteThrows(
         AfterList(journal, intervalMs, checks, list, keying).tracked, intervalMs, Some(UNEXPECTED_NOTICE),
         list.laterMs, list.again)
  }

  function ListOutcome(journal: Journal, intervalMs: int, checks: seq<Guarded>, list: Circumstance, keying: Keying)
    : Outcome<seq<Allowance>>
  {
    if ListRejects(journal, intervalMs, checks, list, keying) then Rejected
    else if ListThrows(journal, intervalMs, checks, list, keying) then
      Settled(Err(Infrastructure(UNEXPECTED_FAILURE_CODE)))
    else if !IsUsableList(checks) then Settled(Err(Infrastructure(INVALID_REQUEST_CODE)))
    else
      var first := FirstStopped(journal, intervalMs, checks, 0, keying);
      if first < |checks| then Settled(Err(OutcomeEach(journal, intervalMs, checks, first, keying).result.error))
      else Settled(Ok(GrantedEach(journal, intervalMs, checks, |checks|, keying)))
  }

  class RateLimiter {
    const keying: Keying
    const throttle: Log.Throttle
    var lines: seq<LogLine>

    constructor (keying: Keying, throttle: Log.Throttle)
      ensures this.keying == keying && this.throttle == throttle && lines == []
    {
      this.keying := keying;
      this.throttle := throttle;
      lines := [];
    }

    method Note(notice: Notice, nowMs: int)
      modifies this`lines, throttle
      ensures (throttle.tracked, lines)
           == LogStep(old(throttle.tracked), old(lines), throttle.intervalMs, Some(notice), nowMs)
    {
      var event := EventOf(notice, nowMs);
      var decision := throttle.Admit(event.key, event.nowMs);
      if decision.write {
        lines := lines + [LineFor(notice, decision.suppressed)];
      }
    }

    function Written(): Journal
      reads this, throttle
    {
      Journal(throttle.tracked, lines)
    }

    method TryNote(notice: Notice, nowMs: int, mishap: Mishap) returns (threw: bool)
      modifies this`lines, throttle
      ensures threw == NoteThrows(old(throttle.tracked), throttle.intervalMs, Some(notice), nowMs, mishap)
      ensures Written() == TryLogStep(old(Written()), throttle.intervalMs, Some(notice), nowMs, mishap)
    {
      if mishap.clock {
        return true;
      }
      var event := EventOf(notice, nowMs);
      var decision := throttle.Admit(event.key, event.nowMs);
      if decision.write {
        if mishap.log {
          return true;
        }
        lines := lines + [LineFor(notice, decision.suppressed)];
      }
      threw := false;
    }

    /**
     * One request, where `reply` is what the store does if it is called. The answer is missing when
     * something threw on the way.
     */
    method TryCheck(request: Request, reply: StoreReply, c: Circumstance)
      returns (outcome: Option<Result<Allowance, Failure>>, call: Option<StoreCall>)
      modifies this`lines, throttle
      ensures outcome == if CheckThrows(old(Written()), throttle.intervalMs, request, reply, c, keying) then None
                         else Some(Decide(request, reply, keying))
      ensures call == CallMade(request, c, keying)
      ensures Written() == AfterCheck(old(Written()), throttle.intervalMs, request, reply, c, keying)
    {
      hide BuildBucketKey, IsPolicyId, EventOf, WouldWrite;
      if c.mishap.request {
        return None, None;
      }
      var policy := request.policy;
      call := None;
      var threw;
      if PolicyProblem(policy).Some? {
        threw := TryNote(InvalidNotice(policy.id), c.nowMs, c.mishap);
        return if threw then None else Some(Err(Infrastructure(INVALID_REQUEST_CODE))), None;
      }
      if request.subject.UnresolvedClient? {
        var denied := policy.onUnresolvedClient == Some("deny");
        threw := TryNote(Notice("unresolved_client", policy.id, Warn, "rate_limit.client_unresolved",
                                if denied then "denied" else "skipped"), c.nowMs, c.mishap);
        if threw {
          return None, None;
        }
        if denied {
          return Some(Err(Infrastructure(CLIENT_UNRESOLVED_CODE))), None;
        }
        return Some(Ok(Allowance(Limit(policy), None, None, true))), None;
      }
      var bucket := BuildBucketKey(policy.id, request.subject, keying);
      if bucket.Err? {
        threw := TryNote(InvalidNotice(policy.id), c.nowMs, c.mishap);
        return if threw then None else Some(Err(Infrastructure(INVALID_REQUEST_CODE))), None;
      }
      call := Some(StoreCall(bucket.value, WindowSeconds(policy)));
      if !reply.Returned? || !IsBucketHit(reply.value) {
        var reason := if reply.TimedOut? then "timeout" else "store_error";
        threw := TryNote(BackendNotice(policy, reason), c.nowMs, c.mishap);
        return if threw then None else Some(BackendFailed(policy)), call;
      }
      var hits, retry := reply.value.hits.number.value.Floor, reply.value.retryAfterSeconds.number.value;
      if hits <= Limit(policy) {
        outcome := Some(Ok(Allowance(
          Limit(policy), Some(Limit(policy) - hits), Some(if retry < 0.0 then 0.0 else retry), false)));
        return outcome, call;
      }
      threw := TryNote(Notice("rejected", policy.id, Info, "rate_limit.rejected", ""), c.nowMs, c.mishap);
      outcome := if threw then None else Some(Err(RateLimitedError(retry)));
    }

    /** One request while nothing throws. */
    method Check(request: Request, reply: StoreReply, nowMs: int)
      returns (outcome: Result<Allowance, Failure>, call: Option<StoreCall>)
      modifies this`lines, throttle
      ensures outcome == Decide(request, reply, keying) && call == CallFor(request, keying)
      ensures (throttle.tracked, lines)
           == LogStep(old(throttle.tracked), old(lines), throttle.intervalMs, NoticeFor(request, reply, keying), nowMs)
    {
      hide Decide, NoticeFor, CallFor, LogStep;
      var settled;
      settled, call := TryCheck(request, reply, Circumstance(nowMs, NO_MISHAP, nowMs, NO_MISHAP));
      outcome := settled.value;
    }

    /**
     * `enforce`, with the guard around it: whatever is thrown denies, and is noted. Only what throws
     * again while it is noted, the clock or the log, gets out.
     */
    method Enforce(request: Request, reply: StoreReply, c: Circumstance)
      returns (outcome: Outcome<Allowance>, call: Option<StoreCall>)
      modifies this`lines, throttle
      ensures outcome == OutcomeOf(old(Written()), throttle.intervalMs, request, reply, c, keying)
      ensures call == CallMade(request, c, keying)
      ensures Written() == AfterEnforce(old(Written()), throttle.intervalMs, request, reply, c, keying)
    {
      hide Decide, NoticeFor, CallFor, NoteThrows, TryLogStep, AfterCheck, CheckThrows, CallMade;
      var settled;
      settled, call := TryCheck(request, reply, c);
      if settled.Some? {
        return Settled(settled.value), call;
      }
      var threw := TryNote(UNEXPECTED_NOTICE, c.laterMs, c.again);
      outcome := if threw then Rejected else Settled(Err(Infrastructure(UNEXPECTED_FAILURE_CODE)));
    }

    /** The guarded checks in order, until one is not allowed; `stopped` is then its outcome. */
    method EnforceInOrder(checks: seq<Guarded>)
      returns (allowances: seq<Allowance>, stopped: Option<Outcome<Allowance>>, calls: seq<StoreCall>)
      modifies this`lines, throttle
      ensures
        var journal, intervalMs := old(Written()), throttle.intervalMs;
        var n := Min(|allowances| + 1, |checks|);
        && |allowances| == FirstStopped(journal, intervalMs, checks, 0, keying)
        && allowances == GrantedEach(journal, intervalMs, checks, |allowances|, keying)
        && stopped == (if |allowances| == |checks| then None
                       else Some(OutcomeEach(journal, intervalMs, checks, |allowances|, keying)))
        && calls == CallsEach(checks, n, keying)
        && Written() == AfterEach(journal, intervalMs, checks, n, keying)
    {
      hide OutcomeOf, AfterEnforce, CallMade;
      ghost var journal := Written();
      allowances, calls := [], [];
      for i := 0 to |checks|
        invariant |allowances| == i
        invariant FirstStopped(journal, throttle.intervalMs, checks, i, keying)
               == FirstStopped(journal, throttle.intervalMs, checks, 0, keying)
        invariant allowances == GrantedEach(journal, throttle.intervalMs, checks, i, keying)
        invariant calls == CallsEach(checks, i, keying)
        invariant Written() == AfterEach(journal, throttle.intervalMs, checks, i, keying)
      {
        var outcome, call := Enforce(checks[i].request, checks[i].reply, checks[i].c);
        if call.Some? {
          calls := calls + [call.value];
        }
        if !IsAllowed(outcome) {
          return allowances, Some(outcome), calls;
        }
        allowances := allowances + [outcome.result.value];
      }
      stopped := None;
    }

    /**
     * `enforceAll`, with a guard around each check and one around the whole: what escapes the guard of
     * a check stops the list, denies, and is noted once more. `list` says what happens outside the
     * checks.
     */
    method EnforceAll(checks: seq<Guarded>, list: Circumstance)
      returns (outcome: Outcome<seq<Allowance>>, calls: seq<StoreCall>)
      modifies this`lines, throttle
      ensures outcome == ListOutcome(old(Written()), throttle.intervalMs, checks, list, keying)
      ensures calls == CallsEach(
        checks, ChecksMade(old(Written()), throttle.intervalMs, checks, list, keying), keying)
      ensures
        var journal, intervalMs := old(Written()), throttle.intervalMs;
        var after := AfterList(journal, intervalMs, checks, list, keying);
        Written() ==
          if ListThrows(journal, intervalMs, checks, list, keying) then
            TryLogStep(after, intervalMs, Some(UNEXPECTED_NOTICE), list.laterMs, list.again)
          else after
    {
      hide NoteThrows, TryLogStep, AfterEach, OutcomeEach, GrantedEach, FirstStopped, IsUsableList;
      calls := [];
      var threw := list.mishap.request;
      if !threw && !IsUsableList(checks) {
        threw := TryNote(InvalidNotice(COMPOSITE_LOG_ID), list.nowMs, list.mishap);
        if !threw {
          return Settled(Err(Infrastructure(INVALID_REQUEST_CODE))), calls;
        }
      } else if !threw {
        var allowances, stopped;
        allowances, stopped, calls := EnforceInOrder(checks);
        if stopped.None? {
          return Settled(Ok(allowances)), calls;
        }
        if stopped.value.Settled? {
          return Settled(Err(stopped.value.result.error)), calls;
        }
      }
      threw := TryNote(UNEXPECTED_NOTICE, list.laterMs, list.again);
      outcome := if threw then Rejected else Settled(Err(Infrastructure(UNEXPECTED_FAILURE_CODE)));
    }

    /** The loop of `CheckAll`: the requests in order until one is refused. */
    method CheckInOrder(requests: seq<Request>, replies: seq<StoreReply>, times: seq<int>)
      returns (allowances: seq<Allowance>, refusal: Option<Failure>, calls: seq<StoreCall>)
      requires |requests| == |replies| && |times| == |requests| + 1
      modifies this`lines, throttle
      ensures |allowances| == FirstRefused(requests, replies, 0, keying)
      ensures allowances == Granted(requests, replies, |allowances|, keying)
      ensures refusal == if |allowances| == |requests| then None
                         else Some(Decide(requests[|allowances|], replies[|allowances|], keying).error)
      ensures calls == CallsOf(requests, Min(|allowances| + 1, |requests|), keying)
      ensures (throttle.tracked, lines)
           == LogAfter(old(throttle.tracked), old(lines), throttle.intervalMs, requests, replies, times,
                       Min(|allowances| + 1, |requests|), keying)
    {
      hide Decide, NoticeFor, CallFor, LogStep;
      allowances, calls := [], [];
      for i := 0 to |requests|
        invariant |allowances| == i
        invariant FirstRefused(requests, replies, i, keying) == FirstRefused(requests, replies, 0, keying)
        invariant allowances == Granted(requests, replies, i, keying)
        invariant calls == CallsOf(requests, i, keying)
        invariant (throttle.tracked, lines)
               == LogAfter(old(throttle.tracked), old(lines), throttle.intervalMs, requests, replies, times, i, keying)
      {
        var result, call := Check(requests[i], replies[i], times[i + 1]);
        if call.Some? {
          calls := calls + [call.value];
        }
        if result.Err? {
          return allowances, Some(result.error), calls;
        }
        allowances := allowances + [result.value];
      }
      refusal := None;
    }

    /**
     * A composite while nothing throws: the requests in order, up to and including the first refusal.
     * `replies` are what the store does for each if it gets that far, `times` when (the first is for
     * the list itself).
     */
    method CheckAll(requests: seq<Request>, replies: seq<StoreReply>, times: seq<int>)
      returns (outcome: Result<seq<Allowance>, Failure>, calls: seq<StoreCall>)
      requires |requests| == |replies| && |times| == |requests| + 1
      modifies this`lines, throttle
      ensures requests == [] || !DistinctIds(requests) ==>
        && outcome == Err(Infrastructure(INVALID_REQUEST_CODE)) && calls == []
        && (throttle.tracked, lines)
        == LogStep(old(throttle.tracked), old(lines), throttle.intervalMs,
                   Some(InvalidNotice(COMPOSITE_LOG_ID)), times[0])
      ensures requests != [] && DistinctIds(requests) ==>
        var first := FirstRefused(requests, replies, 0, keying);
        var n := Min(first + 1, |requests|);
        && (outcome ==
            if first < |requests| then Err(Decide(requests[first], replies[first], keying).error)
            else Ok(Granted(requests, replies, |requests|, keying)))
        && calls == CallsOf(requests, n, keying)
        && (throttle.tracked, lines)
        == LogAfter(old(throttle.tracked), old(lines), throttle.intervalMs, requests, replies, times, n, keying)
    {
      if requests == [] || !DistinctIds(requests) {
        Note(InvalidNotice(COMPOSITE_LOG_ID), times[0]);
        return Err(Infrastructure(INVALID_REQUEST_CODE)), [];
      }
      var allowances, refusal, refusedCalls := CheckInOrder(requests, replies, times);
      calls := refusedCalls;
      outcome := if refusal.Some? then Err(refusal.value) else Ok(allowances);
    }
  }

  // ----- What every decision guarantees

  /**
   * Whatever the store does, an undegraded allowance means a count within the limit, and a degraded
   * one means the policy itself chose to let uncounted attempts through.
   */
  lemma AllowanceMeansBudget(request: Request, reply: StoreReply, keying: Keying)
    ensures Decide(request, reply, keying).Ok? ==>
      var allowance := Decide(request, reply, keying).value;
      && PolicyProblem(request.policy).None?
      && allowance.limit == Limit(request.policy)
      && (!allowance.degraded ==>
            && CallFor(request, keying).Some? && reply.Returned? && IsBucketHit(reply.value)
            && allowance.remaining == Some(allowance.limit - reply.value.hits.number.value.Floor)
            && 0 <= allowance.remaining.value < allowance.limit
            && allowance.resetAfterSeconds.Some? && 0.0 <= allowance.resetAfterSeconds.value)
      && (allowance.degraded ==>
            allowance.remaining == None &&
            if request.subject.UnresolvedClient? then request.policy.onUnresolvedClient != Some("deny")
            else request.policy.onBackendFailure == "allow")
  {
  }

  /** The store has answered a count and the seconds left. */
  function CountReply(hits: int, wait: real): StoreReply {
    Returned(Fields(Numeric(Whole(hits)), Numeric(Finite(wait))))
  }

  lemma CountsAreRead(reply: StoreReply)
    ensures reply.Returned? && IsBucketHit(reply.value)
       <==> exists hits, wait :: 1 <= hits && reply == CountReply(hits, wait)
    ensures reply.Returned? && IsBucketHit(reply.value) ==>
      var fields := reply.value;
      reply == CountReply(fields.hits.number.value.Floor, fields.retryAfterSeconds.number.value)
  {
    if reply.Returned? && IsBucketHit(reply.value) {
      var fields := reply.value;
      assert reply == CountReply(fields.hits.number.value.Floor, fields.retryAfterSeconds.number.value);
    }
  }

  /**
   * What a count decides: attempts up to the policy's own number pass, with the rest of it and the
   * seconds until the window restarts; every later one is too much, with those seconds rounded up.
   */
  lemma CountDecides(request: Request, limit: int, hits: int, wait: real, keying: Keying)
    requires CallFor(request, keying).Some? && request.policy.limit == Whole(limit) && 1 <= hits
    ensures hits <= limit ==>
      Decide(request, CountReply(hits, wait), keying)
      == Ok(Allowance(limit, Some(limit - hits), Some(if wait < 0.0 then 0.0 else wait), false))
    ensures limit < hits ==>
      var outcome := Decide(request, CountReply(hits, wait), keying);
      && outcome.Err? && outcome.error.RateLimited? && outcome.error.code == "rate_limit.exceeded"
      && IsRoundedWait(outcome.error.retryAfterSeconds, wait)
  {
    NumbersAreRead(request.policy, limit);
    assert (hits as real).Floor == hits && hits as real >= 1.0;
    hide CallFor;
  }

  /** The least whole number of seconds that is at least 1 and not less than the wait. */
  predicate IsRoundedWait(seconds: int, wait: real) {
    1 <= seconds && wait <= seconds as real && (seconds == 1 || (seconds - 1) as real < wait)
  }

  /**
   * An attempt passes counted exactly when the store answers a count up to the policy's own number,
   * and uncounted exactly when a usable policy says so for what went wrong.
   */
  lemma AllowedExactlyWhen(request: Request, reply: StoreReply, keying: Keying)
    ensures (Decide(request, reply, keying).Ok? && !Decide(request, reply, keying).value.degraded)
      <==> CallFor(request, keying).Some? && exists limit, hits, wait ::
             request.policy.limit == Whole(limit) && reply == CountReply(hits, wait) && 1 <= hits <= limit
    ensures (Decide(request, reply, keying).Ok? && Decide(request, reply, keying).value.degraded)
      <==> (&& PolicyProblem(request.policy).None?
            && if request.subject.UnresolvedClient? then request.policy.onUnresolvedClient != Some("deny")
               else && CallFor(request, keying).Some? && request.policy.onBackendFailure == "allow"
                    && !exists hits, wait :: 1 <= hits && reply == CountReply(hits, wait))
    ensures Decide(request, reply, keying).Ok? && Decide(request, reply, keying).value.degraded ==>
      Decide(request, reply, keying) == Ok(Allowance(Limit(request.policy), None, None, true))
  {
    CountsAreRead(reply);
    NumbersAreRead(request.policy, Limit(request.policy));
    forall limit, hits, wait |
      request.policy.limit == Whole(limit) && reply == CountReply(hits, wait) && 1 <= hits <= limit
      ensures CallFor(request, keying).Some? ==>
        Decide(request, reply, keying).Ok? && !Decide(request, reply, keying).value.degraded
    {
      if CallFor(request, keying).Some? {
        CountDecides(request, limit, hits, wait, keying);
      }
    }
    hide BuildBucketKey, IsBucketHit;
    if Decide(request, reply, keying).Ok? && !Decide(request, reply, keying).value.degraded {
      var fields := reply.value;
      assert reply == CountReply(fields.hits.number.value.Floor, fields.retryAfterSeconds.number.value);
      assert request.policy.limit == Whole(Limit(request.policy));
    }
  }

  /** A refusal is "too much" exactly when a well-formed count is over the limit; everything else is a failure. */
  lemma RefusalMeansOverLimit(request: Request, reply: StoreReply, keying: Keying)
    ensures
      (Decide(request, reply, keying).Err? && Decide(request, reply, keying).error.RateLimited?)
      <==> CallFor(request, keying).Some? && exists limit, hits, wait ::
             request.policy.limit == Whole(limit) && reply == CountReply(hits, wait) && 1 <= hits && limit < hits
    ensures Decide(request, reply, keying).Err? && Decide(request, reply, keying).error.RateLimited? ==>
      && reply.Returned? && IsBucketHit(reply.value)
      && IsRoundedWait(
           Decide(request, reply, keying).error.retryAfterSeconds, reply.value.retryAfterSeconds.number.value)
  {
    CountsAreRead(reply);
    NumbersAreRead(request.policy, Limit(request.policy));
    forall limit, hits, wait |
      request.policy.limit == Whole(limit) && reply == CountReply(hits, wait) && 1 <= hits && limit < hits
      ensures CallFor(request, keying).Some? ==>
        Decide(request, reply, keying).Err? && Decide(request, reply, keying).error.RateLimited?
    {
      if CallFor(request, keying).Some? {
        CountDecides(request, limit, hits, wait, keying);
      }
    }
    hide BuildBucketKey, IsBucketHit;
    if Decide(request, reply, keying).Err? && Decide(request, reply, keying).error.RateLimited? {
      var fields := reply.value;
      assert reply == CountReply(fields.hits.number.value.Floor, fields.retryAfterSeconds.number.value);
      assert request.policy.limit == Whole(Limit(request.policy));
    }
  }

  /** Every failure of the limiter itself carries the code of what failed. */
  lemma FailuresAreNamed(request: Request, reply: StoreReply, keying: Keying)
    ensures Decide(request, reply, keying) == Err(Infrastructure("rate_limit.invalid_request"))
       <==> PolicyProblem(request.policy).Some? ||
            (!request.subject.UnresolvedClient? && BuildBucketKey(request.policy.id, request.subject, keying).Err?)
    ensures Decide(request, reply, keying) == Err(Infrastructure("rate_limit.client_unresolved"))
       <==> PolicyProblem(request.policy).None? && request.subject.UnresolvedClient? &&
            request.policy.onUnresolvedClient == Some("deny")
    ensures Decide(request, reply, keying) == Err(Infrastructure("rate_limit.backend_unavailable"))
       <==> CallFor(request, keying).Some? && request.policy.onBackendFailure != "allow" &&
            !exists hits, wait :: 1 <= hits && reply == CountReply(hits, wait)
  {
    CountsAreRead(reply);
    CodesDiffer();
    hide BuildBucketKey, IsBucketHit, PolicyProblem;
  }

  lemma CodesDiffer()
    ensures INVALID_REQUEST_CODE == "rate_limit.invalid_request"
    ensures CLIENT_UNRESOLVED_CODE == "rate_limit.client_unresolved"
    ensures BACKEND_UNAVAILABLE_CODE == "rate_limit.backend_unavailable"
    ensures INVALID_REQUEST_CODE[11] == 'i' && CLIENT_UNRESOLVED_CODE[11] == 'c' && BACKEND_UNAVAILABLE_CODE[11] == 'b'
  {
  }

  /** A usable request makes one call, to its subject's counter and for the policy's own window. */
  lemma CallsAreForTheSubject(request: Request, keying: Keying)
    ensures CallFor(request, keying).Some?
       <==> PolicyProblem(request.policy).None? && BuildBucketKey(request.policy.id, request.subject, keying).Ok?
    ensures CallFor(request, keying).Some? ==>
      var call := CallFor(request, keying).value;
      && BuildBucketKey(request.policy.id, request.subject, keying) == Ok(call.key)
      && request.policy.windowSeconds == Whole(call.windowSeconds)
  {
    NumbersAreRead(request.policy, WindowSeconds(request.policy));
    hide PolicyProblem;
  }

  /** An unusable policy or subject denies without calling the store, whatever its failure mode says. */
  lemma InvalidAlwaysDenies(request: Request, reply: StoreReply, keying: Keying)
    requires PolicyProblem(request.policy).Some?
          || (!request.subject.UnresolvedClient? && BuildBucketKey(request.policy.id, request.subject, keying).Err?)
    ensures CallFor(request, keying) == None
    ensures Decide(request, reply, keying) == Err(Infrastructure(INVALID_REQUEST_CODE))
  {
  }

  /** A line is offered to the log for everything but an undegraded allowance. */
  lemma OnlyCountedAllowancesAreSilent(request: Request, reply: StoreReply, keying: Keying)
    ensures NoticeFor(request, reply, keying).None?
       <==> Decide(request, reply, keying).Ok? && !Decide(request, reply, keying).value.degraded
  {
  }

  // ----- What is noted

  /** Each outcome worth a line has its own event, level, message and reason. */
  lemma NoticesAreByOutcome(request: Request, reply: StoreReply, keying: Keying)
    requires NoticeFor(request, reply, keying).Some?
    ensures
      var notice, outcome := NoticeFor(request, reply, keying).value, Decide(request, reply, keying);
      notice ==
        if outcome == Err(Infrastructure("rate_limit.invalid_request")) then
          Notice("invalid", request.policy.id, Error, "rate_limit.invalid_request", "invalid_request")
        else if request.subject.UnresolvedClient? then
          Notice("unresolved_client", request.policy.id, Warn, "rate_limit.client_unresolved",
                 if outcome.Ok? then "skipped" else "denied")
        else if outcome.Err? && outcome.error.RateLimited? then
          Notice("rejected", request.policy.id, Info, "rate_limit.rejected", "")
        else if outcome.Ok? then
          Notice("failed_open", request.policy.id, Warn, "rate_limit.failed_open",
                 if reply == TimedOut then "timeout" else "store_error")
        else
          Notice("backend_failed", request.policy.id, Error, "rate_limit.backend_failed",
                 if reply == TimedOut then "timeout" else "store_error")
  {
    CodesDiffer();
    hide BuildBucketKey, IsBucketHit, PolicyProblem;
  }

  /** The events there are; none has a colon in its name. */
  predicate IsEvent(event: string) {
    event in ["invalid", "unresolved_client", "rejected", "failed_open", "backend_failed", "unexpected"]
  }

  lemma EventsHaveNoColon(event: string)
    requires IsEvent(event)
    ensures ':' !in event
  {
  }

  /**
   * Two notices are throttled together exactly when their event and the first 64 characters of their
   * policy id agree.
   */
  lemma ThrottledTogetherExactlyWhen(a: Notice, b: Notice, nowMs: int, laterMs: int)
    requires IsEvent(a.event) && IsEvent(b.event)
    ensures EventOf(a, nowMs).key == EventOf(b, laterMs).key
       <==> a.event == b.event && a.policy[..Min(|a.policy|, 64)] == b.policy[..Min(|b.policy|, 64)]
    ensures EventOf(a, nowMs).nowMs == nowMs
  {
    EventsHaveNoColon(a.event);
    EventsHaveNoColon(b.event);
    hide IsEvent;
    var p, q := a.policy[..Min(|a.policy|, 64)], b.policy[..Min(|b.policy|, 64)];
    if EventOf(a, nowMs).key == EventOf(b, laterMs).key {
      CutAtFirst(':', a.event, b.event, p, q);
    }
  }

  lemma NoticesAreEvents(request: Request, reply: StoreReply, keying: Keying)
    ensures NoticeFor(request, reply, keying).Some? ==> IsEvent(NoticeFor(request, reply, keying).value.event)
    ensures IsEvent(UNEXPECTED_NOTICE.event) && IsEvent(InvalidNotice(COMPOSITE_LOG_ID).event)
  {
    hide CallFor, IsBucketHit, PolicyProblem;
  }

  /** A notice that is due is written as one more line, with its own data and what was suppressed before. */
  lemma LinesCarryTheNotice(
      tracked: Log.Table, lines: seq<LogLine>, intervalMs: int, notice: Notice, nowMs: int)
    ensures
      var (next, decision) := Log.AdmitStep(tracked, intervalMs, EventOf(notice, nowMs));
      LogStep(tracked, lines, intervalMs, Some(notice), nowMs) ==
        (next, if decision.write then
                 lines + [LogLine(notice.level, notice.message, notice.policy, notice.reason, decision.suppressed)]
               else lines)
  {
  }

  // ----- Composites

  lemma {:induction false} IdsAreListed(requests: seq<Request>, i: nat)
    requires i < |requests|
    ensures requests[i].policy.id in IdsOf(requests)
  {
    if i < |requests| - 1 {
      IdsAreListed(requests[..|requests| - 1], i);
    }
  }

  lemma {:induction false} AtMostOneIdEach(requests: seq<Request>)
    ensures |IdsOf(requests)| <= |requests|
  {
    if requests != [] {
      AtMostOneIdEach(requests[..|requests| - 1]);
    }
  }

  /** The size test accepts a list exactly when no two of its requests use one policy id. */
  lemma {:induction false} DistinctMeansDifferent(requests: seq<Request>)
    ensures DistinctIds(requests)
       <==> forall i, j :: 0 <= i < j < |requests| ==> requests[i].policy.id != requests[j].policy.id
  {
    if requests != [] {
      var last := |requests| - 1;
      var init := requests[..last];
      DistinctMeansDifferent(init);
      AtMostOneIdEach(init);
      forall i | 0 <= i < last
        ensures requests[i].policy.id in IdsOf(init)
      {
        IdsAreListed(init, i);
      }
      assert DistinctIds(requests) <==> DistinctIds(init) && requests[last].policy.id !in IdsOf(init);
      if requests[last].policy.id in IdsOf(init) {
        var i := IdComesFrom(init, requests[last].policy.id);
      }
    }
  }

  lemma {:induction false} IdComesFrom(requests: seq<Request>, id: string) returns (i: nat)
    requires id in IdsOf(requests)
    ensures i < |requests| && requests[i].policy.id == id
  {
    i := |requests| - 1;
    if requests[i].policy.id != id {
      i := IdComesFrom(requests[..i], id);
    }
  }

  /** Different policies never meet in one counter. */
  lemma CallsNameTheirPolicy(a: Request, b: Request, keying: Keying)
    requires CallFor(a, keying).Some? && CallFor(b, keying).Some?
    requires CallFor(a, keying).value.key == CallFor(b, keying).value.key
    ensures a.policy.id == b.policy.id
  {
    KeyIs(a.policy.id, a.subject, keying);
    KeyIs(b.policy.id, b.subject, keying);
    CutAtFirst(':', a.policy.id, b.policy.id, KeyTail(a.subject, keying), KeyTail(b.subject, keying));
  }

  lemma {:induction false} CallsComeFrom(requests: seq<Request>, n: nat, c: nat, keying: Keying) returns (i: nat)
    requires n <= |requests| && c < |CallsOf(requests, n, keying)|
    ensures i < n && CallFor(requests[i], keying) == Some(CallsOf(requests, n, keying)[c])
    ensures |CallsOf(requests, i, keying)| == c
  {
    if c < |CallsOf(requests, n - 1, keying)| {
      i := CallsComeFrom(requests, n - 1, c, keying);
    } else {
      i := n - 1;
    }
  }

  lemma {:induction false} CallsGrow(requests: seq<Request>, m: nat, n: nat, keying: Keying)
    requires m <= n <= |requests|
    ensures |CallsOf(requests, m, keying)| <= |CallsOf(requests, n, keying)|
  {
    if m < n {
      CallsGrow(requests, m, n - 1, keying);
    }
  }

  /** Every request that makes a call makes it at its turn. */
  lemma {:induction false} CallsAreMade(requests: seq<Request>, n: nat, i: nat, keying: Keying)
    requires i < n <= |requests| && CallFor(requests[i], keying).Some?
    ensures
      var turn := |CallsOf(requests, i, keying)|;
      turn < |CallsOf(requests, n, keying)| && CallsOf(requests, n, keying)[turn] == CallFor(requests[i], keying).value
  {
    if i < n - 1 {
      CallsAreMade(requests, n - 1, i, keying);
    }
  }

  /** A composite counts no bucket twice. */
  lemma NoBucketTwice(requests: seq<Request>, n: nat, c: nat, d: nat, keying: Keying)
    requires DistinctIds(requests) && n <= |requests| && c < d < |CallsOf(requests, n, keying)|
    ensures CallsOf(requests, n, keying)[c].key != CallsOf(requests, n, keying)[d].key
  {
    var i := CallsComeFrom(requests, n, c, keying);
    var j := CallsComeFrom(requests, n, d, keying);
    if j <= i {
      CallsGrow(requests, j, i, keying);
    }
    DistinctMeansDifferent(requests);
    if CallsOf(requests, n, keying)[c].key == CallsOf(requests, n, keying)[d].key {
      CallsNameTheirPolicy(requests[i], requests[j], keying);
    }
  }
}
