/** What gets out of the limiter when a request, the clock or the log throws, for one check and for a composite. */
module LimiterThrows {
  import opened Basics
  import opened Policy
  import opened Subject
  import opened Limiter
  import Log = LogThrottle

  // ----- Whatever throws denies

  /** Reading the request throws, or noting what is worth a line: the clock, or the log for a line that is due. */
  predicate SomethingThrows(
      tracked: Log.Table, intervalMs: int, request: Request, reply: StoreReply, c: Circumstance, keying: Keying)
  {
    || c.mishap.request
    || (&& NoticeFor(request, reply, keying).Some?
        && (c.mishap.clock
            || (c.mishap.log && WouldWrite(tracked, intervalMs, NoticeFor(request, reply, keying).value, c.nowMs))))
  }

  /**
   * A check that throws is never allowed: it rejects, or is denied as an unexpected failure. A check
   * that does not throw has the outcome the store's reply leads to.
   */
  lemma WhateverThrowsDenies(
      journal: Journal, intervalMs: int, request: Request, reply: StoreReply, c: Circumstance, keying: Keying)
    ensures
      var outcome := OutcomeOf(journal, intervalMs, request, reply, c, keying);
      if SomethingThrows(journal.tracked, intervalMs, request, reply, c, keying) then
        outcome.Rejected? || outcome == Settled(Err(Infrastructure("rate_limit.unexpected_failure")))
      else outcome == Settled(Decide(request, reply, keying))
    ensures IsAllowed(OutcomeOf(journal, intervalMs, request, reply, c, keying)) ==>
      && !SomethingThrows(journal.tracked, intervalMs, request, reply, c, keying)
      && Decide(request, reply, keying).Ok?
  {
  }

  /** Only a request that cannot be read keeps a check from its store call. */
  lemma CallsAreMadeBeforeNotes(request: Request, c: Circumstance, keying: Keying)
    ensures CallMade(request, c, keying) == if c.mishap.request then None else CallFor(request, keying)
  {
  }

  /** A throw that can be noted is: the line is written if it is due, and the throttle remembers. */
  lemma ThrowsAreNoted(
      journal: Journal, intervalMs: int, request: Request, reply: StoreReply, c: Circumstance, keying: Keying)
    requires SomethingThrows(journal.tracked, intervalMs, request, reply, c, keying)
    requires !c.again.clock && !c.again.log
    ensures
      var checked := AfterCheck(journal, intervalMs, request, reply, c, keying);
      var after := AfterEnforce(journal, intervalMs, request, reply, c, keying);
      var (tracked, decision) := Log.AdmitStep(checked.tracked, intervalMs, EventOf(UNEXPECTED_NOTICE, c.laterMs));
      && after.tracked == tracked
      && after.lines ==
         if decision.write then
           checked.lines + [LogLine(
             Error, "rate_limit.unexpected_failure", "rate-limit.unknown", "", decision.suppressed)]
         else checked.lines
  {
    hide NoticeFor, Log.AdmitStep, EventOf;
  }

  /** An allowed list is one whose checks were all made without a throw and allowed by their replies, in order. */
  lemma AllowedListsNeverThrew(
      journal: Journal, intervalMs: int, checks: seq<Guarded>, list: Circumstance, keying: Keying, i: nat)
    requires ListOutcome(journal, intervalMs, checks, list, keying).Settled?
    requires ListOutcome(journal, intervalMs, checks, list, keying).result.Ok?
    ensures !list.mishap.request && checks != [] && DistinctIds(RequestsOf(checks))
    ensures
      var allowances := ListOutcome(journal, intervalMs, checks, list, keying).result.value;
      && |allowances| == |checks|
      && (i < |checks| ==>
            var before := AfterEach(journal, intervalMs, checks, i, keying);
            && !SomethingThrows(before.tracked, intervalMs, checks[i].request, checks[i].reply, checks[i].c, keying)
            && Decide(checks[i].request, checks[i].reply, keying) == Ok(allowances[i]))
  {
    hide OutcomeEach, AfterEach, DistinctIds, NoteThrows, AfterList, SomethingThrows, Decide;
    if i < |checks| {
      GrantedEachIs(journal, intervalMs, checks, |checks|, i, keying);
      AllowedCheckNeverThrew(journal, intervalMs, checks, i, keying);
    }
  }

  lemma AllowedCheckNeverThrew(journal: Journal, intervalMs: int, checks: seq<Guarded>, i: nat, keying: Keying)
    requires i < |checks| && IsAllowed(OutcomeEach(journal, intervalMs, checks, i, keying))
    ensures
      var before := AfterEach(journal, intervalMs, checks, i, keying);
      && !SomethingThrows(before.tracked, intervalMs, checks[i].request, checks[i].reply, checks[i].c, keying)
      && OutcomeEach(journal, intervalMs, checks, i, keying)
      == Settled(Decide(checks[i].request, checks[i].reply, keying))
  {
    hide OutcomeOf, AfterEach, SomethingThrows, Decide;
    var before := AfterEach(journal, intervalMs, checks, i, keying);
    WhateverThrowsDenies(before, intervalMs, checks[i].request, checks[i].reply, checks[i].c, keying);
  }

  lemma {:induction false} GrantedEachIs(
      journal: Journal, intervalMs: int, checks: seq<Guarded>, n: nat, i: nat, keying: Keying)
    requires i < n <= FirstStopped(journal, intervalMs, checks, 0, keying)
    ensures OutcomeEach(journal, intervalMs, checks, i, keying)
         == Settled(Ok(GrantedEach(journal, intervalMs, checks, n, keying)[i]))
  {
    hide OutcomeEach;
    if i < n - 1 {
      GrantedEachIs(journal, intervalMs, checks, n - 1, i, keying);
    }
  }

  /** Outside the checks: a list that cannot be read, or a note about an unusable one that throws. */
  predicate SomethingThrowsOutside(tracked: Log.Table, intervalMs: int, checks: seq<Guarded>, list: Circumstance) {
    || list.mishap.request
    || (&& (checks == [] || !DistinctIds(RequestsOf(checks)))
        && (list.mishap.clock
            || (list.mishap.log
                && WouldWrite(tracked, intervalMs, InvalidNotice("rate-limit.composite"), list.nowMs))))
  }

  /** A list that throws outside its checks, or whose check rejects, is denied as unexpected unless it rejects. */
  lemma ListsThatThrowDeny(
      journal: Journal, intervalMs: int, checks: seq<Guarded>, list: Circumstance, keying: Keying)
    ensures
      var outcome := ListOutcome(journal, intervalMs, checks, list, keying);
      && (SomethingThrowsOutside(journal.tracked, intervalMs, checks, list) ==>
            outcome.Rejected? || outcome == Settled(Err(Infrastructure("rate_limit.unexpected_failure"))))
      && (!SomethingThrowsOutside(journal.tracked, intervalMs, checks, list) &&
          (checks == [] || !DistinctIds(RequestsOf(checks))) ==>
            outcome == Settled(Err(Infrastructure("rate_limit.invalid_request"))))
    ensures SomethingThrowsOutside(journal.tracked, intervalMs, checks, list) ==>
      var after := AfterList(journal, intervalMs, checks, list, keying);
      (ListOutcome(journal, intervalMs, checks, list, keying).Rejected? <==>
       || list.again.clock
       || (list.again.log && WouldWrite(after.tracked, intervalMs, UNEXPECTED_NOTICE, list.laterMs)))
  {
    hide OutcomeEach, FirstStopped, DistinctIds, WouldWrite, TryLogStep;
  }

  /** The check that stops a usable list decides it: its refusal is the list's, its rejection denies or rejects. */
  lemma TheStoppingCheckDecides(
      journal: Journal, intervalMs: int, checks: seq<Guarded>, list: Circumstance, keying: Keying, i: nat)
    requires !list.mishap.request && checks != [] && DistinctIds(RequestsOf(checks)) && i < |checks|
    requires forall m :: 0 <= m < i ==> IsAllowed(OutcomeEach(journal, intervalMs, checks, m, keying))
    requires !IsAllowed(OutcomeEach(journal, intervalMs, checks, i, keying))
    ensures
      var stopped := OutcomeEach(journal, intervalMs, checks, i, keying);
      var outcome := ListOutcome(journal, intervalMs, checks, list, keying);
      && (stopped.Settled? ==> outcome == Settled(Err(stopped.result.error)))
      && (stopped.Rejected? ==>
            outcome.Rejected? || outcome == Settled(Err(Infrastructure("rate_limit.unexpected_failure"))))
    ensures ChecksMade(journal, intervalMs, checks, list, keying) == i + 1
  {
    hide OutcomeEach, DistinctIds, NoteThrows, AfterList;
    assert FirstStopped(journal, intervalMs, checks, 0, keying) == i;
  }

  // ----- One check

  /** With a clock that always throws, a check rejects for every attempt worth a line. */
  lemma BrokenClockRejectsExactlyWhen(
      journal: Journal, intervalMs: int, request: Request, reply: StoreReply, c: Circumstance, keying: Keying)
    requires !c.mishap.request && c.mishap.clock && c.again.clock
    ensures Rejects(journal, intervalMs, request, reply, c, keying) <==> NoticeFor(request, reply, keying).Some?
  {
  }

  /** A request that throws by itself is let out exactly when the line about it cannot be written. */
  lemma ThrowingRequestRejectsExactlyWhen(
      journal: Journal, intervalMs: int, request: Request, reply: StoreReply, c: Circumstance, keying: Keying)
    requires c.mishap.request
    ensures Rejects(journal, intervalMs, request, reply, c, keying)
       <==> c.again.clock || (c.again.log && WouldWrite(journal.tracked, intervalMs, UNEXPECTED_NOTICE, c.laterMs))
  {
  }

  /**
   * The promise that `enforce` never rejects needs a log that works. With one that always throws an
   * attempt rejects exactly when it is worth a line that is due, and the line about the throw is due
   * as well or the table is emptied on the way.
   */
  lemma BrokenLogRejectsExactlyWhen(
      journal: Journal, intervalMs: int, request: Request, reply: StoreReply, c: Circumstance, keying: Keying)
    requires c.mishap == c.again == Mishap(false, false, true)
    ensures
      Rejects(journal, intervalMs, request, reply, c, keying)
      <==>
      && NoticeFor(request, reply, keying).Some?
      && var notice := NoticeFor(request, reply, keying).value;
         && WouldWrite(journal.tracked, intervalMs, notice, c.nowMs)
         && (WouldWrite(journal.tracked, intervalMs, UNEXPECTED_NOTICE, c.laterMs)
             || Log.Clears(journal.tracked, EventOf(notice, c.nowMs)))
  {
    if NoticeFor(request, reply, keying).Some? {
      var notice := NoticeFor(request, reply, keying).value;
      OtherEvents(request, reply, keying);
      hide NoticeFor;
      assert EventOf(notice, c.nowMs).key[2] == notice.event[2];
      assert EventOf(UNEXPECTED_NOTICE, c.laterMs).key[2] == UNEXPECTED_NOTICE.event[2];
    }
  }

  /** So it happens: the first attempt that is worth a line rejects when the log throws. */
  lemma ABrokenLogRejects(
      intervalMs: int, request: Request, reply: StoreReply, c: Circumstance, keying: Keying)
    requires NoticeFor(request, reply, keying).Some? && c.mishap == c.again == Mishap(false, false, true)
    ensures Rejects(Journal(map[], []), intervalMs, request, reply, c, keying)
  {
    hide NoticeFor, Rejects, EventOf;
    BrokenLogRejectsExactlyWhen(Journal(map[], []), intervalMs, request, reply, c, keying);
  }

  /** No other event's name has an `e` in the third place, as `unexpected` does. */
  lemma OtherEvents(request: Request, reply: StoreReply, keying: Keying)
    requires NoticeFor(request, reply, keying).Some?
    ensures
      var event := NoticeFor(request, reply, keying).value.event;
      2 < |event| && event[2] != UNEXPECTED_NOTICE.event[2]
  {
    hide CallFor, IsBucketHit, PolicyProblem;
  }

  // ----- A composite

  /** A check that rejects because the log threw has had the throttle remember when. */
  lemma RejectionIsRemembered(
      journal: Journal, intervalMs: int, request: Request, reply: StoreReply, c: Circumstance, keying: Keying,
      laterMs: int)
    requires Rejects(journal, intervalMs, request, reply, c, keying) && !c.again.clock
    ensures
      var after := AfterEnforce(journal, intervalMs, request, reply, c, keying);
      WouldWrite(after.tracked, intervalMs, UNEXPECTED_NOTICE, laterMs) <==> laterMs - c.laterMs >= intervalMs
  {
    hide NoticeFor, AfterCheck, CheckThrows;
  }

  /**
   * When a check of a composite rejects, the outer guard lets it out exactly if the clock throws yet
   * again, or the log does and a line about a throw is due: when the log was what threw, that is only
   * once the interval has passed since.
   */
  lemma InnerRejectionGetsOutExactlyWhen(
      journal: Journal, intervalMs: int, checks: seq<Guarded>, list: Circumstance, keying: Keying)
    requires !list.mishap.request && IsUsableList(checks)
    requires FirstStopped(journal, intervalMs, checks, 0, keying) < |checks|
    requires
      OutcomeEach(journal, intervalMs, checks, FirstStopped(journal, intervalMs, checks, 0, keying), keying).Rejected?
    ensures
      var first := FirstStopped(journal, intervalMs, checks, 0, keying);
      var c := checks[first].c;
      var before := AfterEach(journal, intervalMs, checks, first, keying);
      ListRejects(journal, intervalMs, checks, list, keying)
      <==>
      || list.again.clock
      || (list.again.log &&
          if c.again.clock then
            WouldWrite(
              AfterCheck(before, intervalMs, checks[first].request, checks[first].reply, c, keying).tracked,
              intervalMs, UNEXPECTED_NOTICE, list.laterMs)
          else list.laterMs - c.laterMs >= intervalMs)
  {
    hide Rejects, CheckThrows, AfterCheck, WouldWrite, IsUsableList, FirstStopped;
    var first := FirstStopped(journal, intervalMs, checks, 0, keying);
    var before := AfterEach(journal, intervalMs, checks, first, keying);
    var stopped := checks[first];
    assert Rejects(before, intervalMs, stopped.request, stopped.reply, stopped.c, keying);
    RejectsMeansThrows(before, intervalMs, stopped.request, stopped.reply, stopped.c, keying);
    if !stopped.c.again.clock {
      RejectionIsRemembered(before, intervalMs, stopped.request, stopped.reply, stopped.c, keying, list.laterMs);
    }
  }

  lemma RejectsMeansThrows(
      journal: Journal, intervalMs: int, request: Request, reply: StoreReply, c: Circumstance, keying: Keying)
    requires Rejects(journal, intervalMs, request, reply, c, keying)
    ensures CheckThrows(journal, intervalMs, request, reply, c, keying)
  {
  }

  /**
   * So the outer guard makes good what one guard cannot: while the clock works, a usable list never
   * rejects, whatever requests and log do, as long as it ends within the interval of its last throw.
   */
  lemma UsableListsNeverReject(
      journal: Journal, intervalMs: int, checks: seq<Guarded>, list: Circumstance, keying: Keying)
    requires !list.mishap.request && IsUsableList(checks) && !list.again.clock
    requires forall i :: 0 <= i < |checks| ==>
      !checks[i].c.again.clock && list.laterMs - checks[i].c.laterMs < intervalMs
    ensures ListOutcome(journal, intervalMs, checks, list, keying).Settled?
  {
    hide IsUsableList, FirstStopped, OutcomeEach, NoteThrows, AfterList;
    var first := FirstStopped(journal, intervalMs, checks, 0, keying);
    if first < |checks| && OutcomeEach(journal, intervalMs, checks, first, keying).Rejected? {
      InnerRejectionGetsOutExactlyWhen(journal, intervalMs, checks, list, keying);
    }
  }

  // ----- While nothing throws

  ghost predicate IsQuiet(checks: seq<Guarded>) {
    forall i :: 0 <= i < |checks| ==> checks[i].c.mishap == NO_MISHAP
  }

  function RepliesOf(checks: seq<Guarded>): (replies: seq<StoreReply>)
    ensures |replies| == |checks| && forall i :: 0 <= i < |checks| ==> replies[i] == checks[i].reply
  {
    seq(|checks|, i requires 0 <= i < |checks| => checks[i].reply)
  }

  lemma QuietOutcome(journal: Journal, intervalMs: int, checks: seq<Guarded>, i: nat, keying: Keying)
    requires IsQuiet(checks) && i < |checks|
    ensures OutcomeEach(journal, intervalMs, checks, i, keying)
         == Settled(Decide(checks[i].request, checks[i].reply, keying))
  {
    hide Decide, NoticeFor, AfterEach;
  }

  lemma {:induction false} QuietStops(journal: Journal, intervalMs: int, checks: seq<Guarded>, i: nat, keying: Keying)
    requires IsQuiet(checks) && i <= |checks|
    ensures FirstStopped(journal, intervalMs, checks, i, keying)
         == FirstRefused(RequestsOf(checks), RepliesOf(checks), i, keying)
    decreases |checks| - i
  {
    hide Decide, OutcomeEach;
    if i < |checks| {
      QuietOutcome(journal, intervalMs, checks, i, keying);
      QuietStops(journal, intervalMs, checks, i + 1, keying);
    }
  }

  lemma {:induction false} QuietGrants(journal: Journal, intervalMs: int, checks: seq<Guarded>, n: nat, keying: Keying)
    requires IsQuiet(checks) && n <= FirstStopped(journal, intervalMs, checks, 0, keying)
    requires n <= FirstRefused(RequestsOf(checks), RepliesOf(checks), 0, keying)
    ensures GrantedEach(journal, intervalMs, checks, n, keying)
         == Granted(RequestsOf(checks), RepliesOf(checks), n, keying)
  {
    hide Decide, OutcomeEach, FirstRefused, FirstStopped;
    if n > 0 {
      QuietOutcome(journal, intervalMs, checks, n - 1, keying);
      QuietGrants(journal, intervalMs, checks, n - 1, keying);
    }
  }

  lemma {:induction false} QuietCalls(checks: seq<Guarded>, n: nat, keying: Keying)
    requires IsQuiet(checks) && n <= |checks|
    ensures CallsEach(checks, n, keying) == CallsOf(RequestsOf(checks), n, keying)
  {
    hide CallFor;
    if n > 0 {
      QuietCalls(checks, n - 1, keying);
    }
  }

  /** While nothing throws the guards change nothing: calls and outcome are those of the bare composite. */
  lemma QuietListIsPlain(journal: Journal, intervalMs: int, checks: seq<Guarded>, list: Circumstance, keying: Keying)
    requires IsQuiet(checks) && list.mishap == NO_MISHAP && IsUsableList(checks)
    ensures
      var requests, replies := RequestsOf(checks), RepliesOf(checks);
      var first := FirstRefused(requests, replies, 0, keying);
      var made := ChecksMade(journal, intervalMs, checks, list, keying);
      && made == Min(first + 1, |requests|)
      && CallsEach(checks, made, keying) == CallsOf(requests, made, keying)
      && ListOutcome(journal, intervalMs, checks, list, keying) == Settled(
           if first < |requests| then Err(Decide(requests[first], replies[first], keying).error)
           else Ok(Granted(requests, replies, |requests|, keying)))
  {
    hide Decide, OutcomeEach, FirstRefused, FirstStopped, GrantedEach, Granted, CallsEach, CallsOf, IsUsableList;
    QuietStops(journal, intervalMs, checks, 0, keying);
    var first := FirstStopped(journal, intervalMs, checks, 0, keying);
    QuietCalls(checks, ChecksMade(journal, intervalMs, checks, list, keying), keying);
    if first < |checks| {
      QuietOutcome(journal, intervalMs, checks, first, keying);
    } else {
      QuietGrants(journal, intervalMs, checks, |checks|, keying);
    }
  }
}
