/** Writes one log line per key and interval, and counts the rest in a bounded table. */
module LogThrottle {
  import opened Basics

  const MAX_TRACKED_EVENTS := 512

  datatype Tracked = Tracked(lastWrittenAtMs: int, suppressed: nat)

  type Table = map<string, Tracked>

  datatype Decision = Decision(write: bool, suppressed: nat)

  datatype Event = Event(key: string, nowMs: int)

  /** The table is emptied: a new key arrives while it is full. */
  predicate Clears(tracked: Table, event: Event) {
    event.key !in tracked && |tracked| >= MAX_TRACKED_EVENTS
  }

  function AdmitStep(tracked: Table, intervalMs: int, event: Event): (Table, Decision) {
    var known := event.key in tracked;
    if known && event.nowMs - tracked[event.key].lastWrittenAtMs < intervalMs then
      var entry := tracked[event.key];
      (tracked[event.key := entry.(suppressed := entry.suppressed + 1)], Decision(false, 0))
    else
      var kept := if Clears(tracked, event) then map[] else tracked;
      (kept[event.key := Tracked(event.nowMs, 0)],
       Decision(true, if known then tracked[event.key].suppressed else 0))
  }

  class Throttle {
    const intervalMs: int
    var tracked: Table

    constructor (intervalMs: int)
      ensures this.intervalMs == intervalMs && tracked == map[]
    {
      this.intervalMs := intervalMs;
      tracked := map[];
    }

    method Admit(key: string, nowMs: int) returns (decision: Decision)
      modifies this
      ensures (tracked, decision) == AdmitStep(old(tracked), intervalMs, Event(key, nowMs))
    {
      if key in tracked && nowMs - tracked[key].lastWrittenAtMs < intervalMs {
        tracked := tracked[key := Tracked(tracked[key].lastWrittenAtMs, tracked[key].suppressed + 1)];
        return Decision(false, 0);
      }
      var suppressed := if key in tracked then tracked[key].suppressed else 0;
      if key !in tracked && |tracked| >= MAX_TRACKED_EVENTS {
        tracked := map[];
      }
      tracked := tracked[key := Tracked(nowMs, 0)];
      decision := Decision(true, suppressed);
    }
  }

  // ----- Runs

  function After(intervalMs: int, events: seq<Event>): Table {
    if events == [] then map[]
    else AdmitStep(After(intervalMs, events[..|events| - 1]), intervalMs, events[|events| - 1]).0
  }

  function DecisionAt(intervalMs: int, events: seq<Event>, i: nat): Decision
    requires i < |events|
  {
    AdmitStep(After(intervalMs, events[..i]), intervalMs, events[i]).1
  }

  predicate ClearsAt(intervalMs: int, events: seq<Event>, i: nat)
    requires i < |events|
  {
    Clears(After(intervalMs, events[..i]), events[i])
  }

  function Pending(tracked: Table, key: string): nat {
    if key in tracked then tracked[key].suppressed else 0
  }

  /** What has become of the events of one key. */
  datatype Ledger = Ledger(calls: nat, writes: nat, reported: nat, discarded: nat)

  function LedgerOf(intervalMs: int, events: seq<Event>, key: string): Ledger {
    if events == [] then Ledger(0, 0, 0, 0)
    else
      var last := |events| - 1;
      var so := LedgerOf(intervalMs, events[..last], key);
      var mine := events[last].key == key;
      var decision := DecisionAt(intervalMs, events, last);
      Ledger(
        so.calls + (if mine then 1 else 0),
        so.writes + (if mine && decision.write then 1 else 0),
        so.reported + (if mine then decision.suppressed else 0),
        so.discarded +
          (if ClearsAt(intervalMs, events, last) then Pending(After(intervalMs, events[..last]), key) else 0))
  }

  /**
   * No event is lost without a trace: every call was written, was reported by a later write, is
   * still pending, or was discarded when the table was emptied.
   */
  lemma {:induction false} EventsAreConserved(intervalMs: int, events: seq<Event>, key: string)
    ensures
      var ledger := LedgerOf(intervalMs, events, key);
      ledger.calls == ledger.writes + ledger.reported + Pending(After(intervalMs, events), key) + ledger.discarded
  {
    if events != [] {
      EventsAreConserved(intervalMs, events[..|events| - 1], key);
    }
  }

  /** A write reports all that is pending for its key and starts anew; otherwise one more is pending. */
  lemma WritesReportAll(tracked: Table, intervalMs: int, event: Event)
    ensures
      var (after, decision) := AdmitStep(tracked, intervalMs, event);
      if decision.write then decision.suppressed == Pending(tracked, event.key) && Pending(after, event.key) == 0
      else decision.suppressed == 0 && Pending(after, event.key) == Pending(tracked, event.key) + 1
  {
  }

  /** The table never holds more than its bound. */
  lemma {:induction false} TableIsBounded(intervalMs: int, events: seq<Event>)
    ensures |After(intervalMs, events)| <= 512
  {
    if events != [] {
      TableIsBounded(intervalMs, events[..|events| - 1]);
      var before, last := After(intervalMs, events[..|events| - 1]), events[|events| - 1];
      if last.key in before {
        assert After(intervalMs, events).Keys == before.Keys;
      } else {
        assert After(intervalMs, events).Keys == (if Clears(before, last) then {} else before.Keys) + {last.key};
      }
    }
  }

  /** A tracked key is forgotten exactly by a clear, and a clear forgets every other key. */
  lemma OnlyClearsForget(intervalMs: int, tracked: Table, event: Event, key: string)
    requires key in tracked
    ensures key !in AdmitStep(tracked, intervalMs, event).0 <==> Clears(tracked, event)
  {
  }

  // ----- When the table is emptied depends on the order of the keys alone

  function KeysOf(events: seq<Event>): set<string> {
    set i | 0 <= i < |events| :: events[i].key
  }

  /** The keys seen since the table was last emptied, whatever the times and the interval. */
  function Held(events: seq<Event>): set<string> {
    if events == [] then {}
    else
      var held := Held(events[..|events| - 1]);
      var key := events[|events| - 1].key;
      if key in held || |held| < MAX_TRACKED_EVENTS then held + {key} else {key}
  }

  lemma {:induction false} TableHolds(intervalMs: int, events: seq<Event>)
    ensures After(intervalMs, events).Keys == Held(events) <= KeysOf(events)
  {
    if events != [] {
      var init, last := events[..|events| - 1], events[|events| - 1];
      TableHolds(intervalMs, init);
      var before := After(intervalMs, init);
      assert |before| == |before.Keys|;
      KeysGrow(events, |init|);
      assert last.key in KeysOf(events);
      if last.key in before {
        assert After(intervalMs, events).Keys == before.Keys == before.Keys + {last.key};
      } else {
        assert After(intervalMs, events).Keys == (if Clears(before, last) then {} else before.Keys) + {last.key};
      }
    }
  }

  lemma KeysGrow(events: seq<Event>, n: nat)
    requires n <= |events|
    ensures KeysOf(events[..n]) <= KeysOf(events)
  {
    forall k | k in KeysOf(events[..n])
      ensures k in KeysOf(events)
    {
      var i :| 0 <= i < n && events[..n][i].key == k;
      assert events[i].key == k;
    }
  }

  /** Event `m` empties the table exactly when its key is not held and as many others are as fit. */
  lemma ClearsExactlyWhen(intervalMs: int, events: seq<Event>, m: nat)
    requires m < |events|
    ensures ClearsAt(intervalMs, events, m)
       <==> events[m].key !in Held(events[..m]) && |Held(events[..m])| >= 512
  {
    TableHolds(intervalMs, events[..m]);
  }

  /** While at most 512 different keys have appeared, the table is never emptied. */
  lemma FewKeysNeverClear(intervalMs: int, events: seq<Event>, m: nat)
    requires |KeysOf(events)| <= 512 && m < |events|
    ensures !ClearsAt(intervalMs, events, m)
  {
    TableHolds(intervalMs, events[..m]);
    KeysGrow(events, m);
    var held := After(intervalMs, events[..m]).Keys;
    if events[m].key !in held {
      SubsetIsSmaller(held + {events[m].key}, KeysOf(events));
    }
  }

  /** So nothing is ever discarded. */
  lemma {:induction false} FewKeysLoseNothing(intervalMs: int, events: seq<Event>, key: string)
    requires |KeysOf(events)| <= 512
    ensures LedgerOf(intervalMs, events, key).discarded == 0
  {
    if events != [] {
      var init := events[..|events| - 1];
      KeysGrow(events, |init|);
      SubsetIsSmaller(KeysOf(init), KeysOf(events));
      FewKeysLoseNothing(intervalMs, init, key);
      FewKeysNeverClear(intervalMs, events, |init|);
    }
  }

  // ----- Exactly when an event is written

  ghost predicate ClearedBetween(intervalMs: int, events: seq<Event>, i: nat, n: nat)
    requires n <= |events|
  {
    exists m :: i < m < n && ClearsAt(intervalMs, events, m)
  }

  /** Event `i` was written, and no event of its key from there up to `n` was. */
  ghost predicate IsLatestWrite(intervalMs: int, events: seq<Event>, i: nat, n: nat)
    requires i < n <= |events|
  {
    && DecisionAt(intervalMs, events, i).write
    && forall m :: i < m < n && events[m].key == events[i].key ==> !DecisionAt(intervalMs, events, m).write
  }

  /** Without a clear the key stays tracked with the time of that write; after a clear it stays untracked. */
  lemma {:induction false} SinceLatestWrite(intervalMs: int, events: seq<Event>, i: nat, n: nat)
    requires i < n <= |events| && IsLatestWrite(intervalMs, events, i, n)
    ensures
      var tracked := After(intervalMs, events[..n]);
      if ClearedBetween(intervalMs, events, i, n) then events[i].key !in tracked
      else events[i].key in tracked && tracked[events[i].key].lastWrittenAtMs == events[i].nowMs
    decreases n
  {
    assert events[..n][..n - 1] == events[..n - 1];
    if i < n - 1 {
      SinceLatestWrite(intervalMs, events, i, n - 1);
      assert ClearedBetween(intervalMs, events, i, n)
        <==> ClearedBetween(intervalMs, events, i, n - 1) || ClearsAt(intervalMs, events, n - 1);
    }
  }

  /**
   * After a write of its key, an event is written exactly when the interval has passed since the
   * latest one or the table was emptied in between.
   */
  lemma WrittenAgainExactlyWhen(intervalMs: int, events: seq<Event>, i: nat, j: nat)
    requires i < j < |events| && events[i].key == events[j].key && IsLatestWrite(intervalMs, events, i, j)
    ensures DecisionAt(intervalMs, events, j).write
       <==> events[j].nowMs - events[i].nowMs >= intervalMs || ClearedBetween(intervalMs, events, i, j)
  {
    SinceLatestWrite(intervalMs, events, i, j);
  }

  /** The first event of a key is always written. */
  lemma FirstIsWritten(intervalMs: int, events: seq<Event>, j: nat)
    requires j < |events| && events[j].key !in KeysOf(events[..j])
    ensures DecisionAt(intervalMs, events, j) == Decision(true, 0)
  {
    TableHolds(intervalMs, events[..j]);
  }

  lemma {:induction false} LastWriteSticks(intervalMs: int, events: seq<Event>, i: nat, n: nat)
    requires 0 <= intervalMs && i < n <= |events|
    requires DecisionAt(intervalMs, events, i).write && !ClearedBetween(intervalMs, events, i, n)
    ensures
      var tracked := After(intervalMs, events[..n]);
      events[i].key in tracked && events[i].nowMs <= tracked[events[i].key].lastWrittenAtMs
    decreases n
  {
    assert events[..n][..n - 1] == events[..n - 1];
    if i < n - 1 {
      hide AdmitStep;
      assert !ClearsAt(intervalMs, events, n - 1);
      LastWriteSticks(intervalMs, events, i, n - 1);
      StaysTracked(After(intervalMs, events[..n - 1]), intervalMs, events[n - 1], events[i].key);
    }
  }

  lemma StaysTracked(tracked: Table, intervalMs: int, event: Event, key: string)
    requires 0 <= intervalMs && key in tracked && !Clears(tracked, event)
    ensures
      var after := AdmitStep(tracked, intervalMs, event).0;
      key in after && tracked[key].lastWrittenAtMs <= after[key].lastWrittenAtMs
  {
  }

  /** Any two writes of one key are at least the interval apart, unless the table was emptied in between. */
  lemma WritesAreSpaced(intervalMs: int, events: seq<Event>, i: nat, j: nat)
    requires 0 <= intervalMs && i < j < |events| && events[i].key == events[j].key
    requires DecisionAt(intervalMs, events, i).write && DecisionAt(intervalMs, events, j).write
    ensures events[j].nowMs - events[i].nowMs >= intervalMs || ClearedBetween(intervalMs, events, i, j)
  {
    if !ClearedBetween(intervalMs, events, i, j) {
      LastWriteSticks(intervalMs, events, i, j);
    }
  }

  /** So with at most 512 different keys each key is written at most once per interval. */
  lemma FewKeysAreSpaced(intervalMs: int, events: seq<Event>, i: nat, j: nat)
    requires 0 <= intervalMs && i < j < |events| && events[i].key == events[j].key
    requires |KeysOf(events)| <= 512
    requires DecisionAt(intervalMs, events, i).write && DecisionAt(intervalMs, events, j).write
    ensures events[j].nowMs - events[i].nowMs >= intervalMs
  {
    WritesAreSpaced(intervalMs, events, i, j);
    if m :| i < m < j && ClearsAt(intervalMs, events, m) {
      FewKeysNeverClear(intervalMs, events, m);
    }
  }

  // ----- What emptying the table costs

  function KeyOfLength(n: nat): (key: string)
    ensures |key| == n
  {
    if n == 0 then "" else KeyOfLength(n - 1) + "k"
  }

  /** `n` events at the same time, each with a key of its own. */
  function Flood(n: nat): (events: seq<Event>)
    ensures |events| == n
  {
    if n == 0 then [] else Flood(n - 1) + [Event(KeyOfLength(n - 1), 0)]
  }

  lemma {:induction false} FloodStarts(n: nat)
    requires n > 0
    ensures Flood(n)[0] == Event("", 0)
  {
    if n > 1 {
      FloodStarts(n - 1);
    }
  }

  lemma {:induction false} FloodFills(intervalMs: int, n: nat)
    requires n <= MAX_TRACKED_EVENTS
    ensures |After(intervalMs, Flood(n))| == n
    ensures forall k :: k in After(intervalMs, Flood(n)) ==> |k| < n
  {
    if n > 0 {
      FloodFills(intervalMs, n - 1);
      var before, event := After(intervalMs, Flood(n - 1)), Event(KeyOfLength(n - 1), 0);
      AfterOneMore(intervalMs, Flood(n - 1), event);
      assert AdmitStep(before, intervalMs, event).0 == before[event.key := Tracked(0, 0)];
      assert before[event.key := Tracked(0, 0)].Keys == before.Keys + {event.key};
    }
  }

  lemma AfterOneMore(intervalMs: int, events: seq<Event>, event: Event)
    ensures After(intervalMs, events + [event]) == AdmitStep(After(intervalMs, events), intervalMs, event).0
  {
    assert (events + [event])[..|events + [event]| - 1] == events;
  }

  /** With one key more than the table holds, a key is written twice at the same moment. */
  lemma AClearBreaksTheSpacing(intervalMs: int)
    ensures
      var events := Flood(MAX_TRACKED_EVENTS + 1) + [Event("", 0)];
      var last := MAX_TRACKED_EVENTS + 1;
      && events[0] == events[last]
      && DecisionAt(intervalMs, events, 0).write && DecisionAt(intervalMs, events, last).write
  {
    var full, newest := Flood(MAX_TRACKED_EVENTS), Event(KeyOfLength(MAX_TRACKED_EVENTS), 0);
    var flood := Flood(MAX_TRACKED_EVENTS + 1);
    var events := flood + [Event("", 0)];
    FloodStarts(MAX_TRACKED_EVENTS + 1);
    FloodFills(intervalMs, MAX_TRACKED_EVENTS);
    assert flood == full + [newest];
    AfterOneMore(intervalMs, full, newest);
    assert After(intervalMs, flood) == map[newest.key := Tracked(0, 0)];
    assert events[..MAX_TRACKED_EVENTS + 1] == flood;
  }
}
