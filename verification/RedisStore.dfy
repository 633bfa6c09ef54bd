/**
 * The shared counters in Redis: one script per hit, run without other commands in between, on a
 * database that deletes a counter when its lifetime ends (taken to be exactly at the deadline).
 */
module RedisStore {
  import opened Basics
  import opened FixedWindow
  import InMemoryStore

  /** A counter may lack a lifetime, if something other than the script wrote it. */
  datatype RedisCounter = RedisCounter(hits: nat, deadlineMs: Option<int>)

  type Database = map<string, RedisCounter>

  predicate Expired(counter: RedisCounter, nowMs: int) {
    counter.deadlineMs.Some? && counter.deadlineMs.value <= nowMs
  }

  /** A key past its deadline is deleted before any command sees it. */
  function Touch(db: Database, key: string, nowMs: int): Database {
    if key in db && Expired(db[key], nowMs) then db - {key} else db
  }

  function IncrStep(db: Database, key: string, nowMs: int): (Database, nat) {
    var db := Touch(db, key, nowMs);
    var hits := if key in db then db[key].hits + 1 else 1;
    (db[key := RedisCounter(hits, if key in db then db[key].deadlineMs else None)], hits)
  }

  /** `EXPIRE key seconds NX`; a lifetime that is not positive deletes the key. */
  function ExpireNxStep(db: Database, key: string, seconds: int, nowMs: int): Database {
    var db := Touch(db, key, nowMs);
    if key !in db || db[key].deadlineMs.Some? then db
    else if seconds <= 0 then db - {key}
    else db[key := db[key].(deadlineMs := Some(nowMs + seconds * MILLISECONDS_PER_SECOND))]
  }

  function PttlOf(db: Database, key: string, nowMs: int): int {
    var db := Touch(db, key, nowMs);
    if key !in db then -2
    else if db[key].deadlineMs.None? then -1
    else db[key].deadlineMs.value - nowMs
  }

  /** The whole script: the database afterwards and `{ hits, ms left }`. */
  function ScriptStep(db: Database, hit: Hit): (Database, (nat, int)) {
    var (counted, hits) := IncrStep(db, hit.key, hit.nowMs);
    var timed := ExpireNxStep(counted, hit.key, hit.windowSeconds, hit.nowMs);
    (timed, (hits, PttlOf(timed, hit.key, hit.nowMs)))
  }

  /** The answer is parsed, not trusted: at least one hit and a time left that is not negative. */
  function ParseAnswer(reply: (nat, int)): Option<Answer> {
    var (hits, timeToLiveMs) := reply;
    if hits < 1 || timeToLiveMs < 0 then None
    else Some(Answer(hits, CeilDiv(timeToLiveMs, MILLISECONDS_PER_SECOND)))
  }

  class Redis {
    var db: Database

    constructor ()
      ensures db == map[]
    {
      db := map[];
    }

    method Incr(key: string, nowMs: int) returns (hits: nat)
      modifies this
      ensures (db, hits) == IncrStep(old(db), key, nowMs)
    {
      Expire(key, nowMs);
      if key in db {
        db := db[key := RedisCounter(db[key].hits + 1, db[key].deadlineMs)];
      } else {
        db := db[key := RedisCounter(1, None)];
      }
      hits := db[key].hits;
    }

    method ExpireNx(key: string, seconds: int, nowMs: int)
      modifies this
      ensures db == ExpireNxStep(old(db), key, seconds, nowMs)
    {
      Expire(key, nowMs);
      if key in db && db[key].deadlineMs.None? {
        if seconds <= 0 {
          db := db - {key};
        } else {
          db := db[key := RedisCounter(db[key].hits, Some(nowMs + seconds * MILLISECONDS_PER_SECOND))];
        }
      }
    }

    method Pttl(key: string, nowMs: int) returns (timeToLiveMs: int)
      modifies this
      ensures db == Touch(old(db), key, nowMs)
      ensures timeToLiveMs == PttlOf(old(db), key, nowMs)
    {
      Expire(key, nowMs);
      timeToLiveMs :=
        if key !in db then -2
        else if db[key].deadlineMs.None? then -1
        else db[key].deadlineMs.value - nowMs;
    }

    method Expire(key: string, nowMs: int)
      modifies this
      ensures db == Touch(old(db), key, nowMs)
    {
      if key in db && Expired(db[key], nowMs) {
        db := db - {key};
      }
    }

    /** One hit of the Upstash store: the script, then the answer as the store reports it. */
    method Hit(hit: Hit) returns (answer: Option<Answer>)
      modifies this
      ensures db == ScriptStep(old(db), hit).0
      ensures answer == ParseAnswer(ScriptStep(old(db), hit).1)
    {
      var hits := Incr(hit.key, hit.nowMs);
      ExpireNx(hit.key, hit.windowSeconds, hit.nowMs);
      var timeToLiveMs := Pttl(hit.key, hit.nowMs);
      answer := ParseAnswer((hits, timeToLiveMs));
    }
  }

  // ----- One hit

  /**
   * Whatever was in the database, the counter just hit has a deadline ahead of it. A deadline that
   * had not passed is unchanged, and a counter found without one gets a whole window.
   */
  lemma HitLeavesALifetime(db: Database, hit: Hit)
    requires 1 <= hit.windowSeconds
    ensures
      var db' := ScriptStep(db, hit).0;
      && hit.key in db' && db'[hit.key].deadlineMs.Some?
      && hit.nowMs < db'[hit.key].deadlineMs.value
      && (hit.key in db && db[hit.key].deadlineMs.Some? && !Expired(db[hit.key], hit.nowMs) ==>
            db'[hit.key].deadlineMs == db[hit.key].deadlineMs)
      && (hit.key in db && db[hit.key].deadlineMs.None? ==>
            db'[hit.key] ==
            RedisCounter(db[hit.key].hits + 1, Some(hit.nowMs + hit.windowSeconds * MILLISECONDS_PER_SECOND)))
  {
  }

  /** A window that is not positive is deleted by its own hit, and the answer is refused as malformed. */
  lemma EmptyWindowIsRefused(db: Database, hit: Hit)
    requires hit.windowSeconds <= 0
    ensures ParseAnswer(ScriptStep(db, hit).1) == None
       <==> (hit.key !in db || db[hit.key].deadlineMs.None? || Expired(db[hit.key], hit.nowMs))
  {
  }

  // ----- Runs, with Redis also expiring keys in the background

  predicate AllTimed(db: Database) {
    forall k :: k in db ==> db[k].deadlineMs.Some?
  }

  function Table(db: Database): Counters {
    map k | k in db && db[k].deadlineMs.Some? :: Counter(db[k].hits, db[k].deadlineMs.value)
  }

  /** Background expiry has removed some of the keys past their deadline, any of them. */
  function Sweep(db: Database, keys: set<string>, nowMs: int): Database {
    map k | k in db && !(k in keys && Expired(db[k], nowMs)) :: db[k]
  }

  /** The database after `hits`; before each, background expiry may remove any finished counters. */
  function RedisAfter(hits: seq<Hit>, sweeps: seq<set<string>>): Database
    requires |hits| == |sweeps|
  {
    if hits == [] then map[]
    else
      var last := |hits| - 1;
      ScriptStep(Sweep(RedisAfter(hits[..last], sweeps[..last]), sweeps[last], hits[last].nowMs), hits[last]).0
  }

  function RedisAnswer(hits: seq<Hit>, sweeps: seq<set<string>>, i: nat): Option<Answer>
    requires |hits| == |sweeps| && i < |hits|
  {
    ParseAnswer(ScriptStep(Sweep(RedisAfter(hits[..i], sweeps[..i]), sweeps[i], hits[i].nowMs), hits[i]).1)
  }

  /** What the three commands do together, on a database whose counters all have a lifetime. */
  lemma ScriptDoes(db: Database, hit: Hit)
    requires AllTimed(db) && 1 <= hit.windowSeconds
    ensures
      var touched := Touch(db, hit.key, hit.nowMs);
      var counted := Counted(Table(touched), hit);
      var (db', reply) := ScriptStep(db, hit);
      && (hit.key in touched ==> IsLive(Table(touched), hit.key, hit.nowMs))
      && db' == touched[hit.key := RedisCounter(counted.hits, Some(counted.expiresAtMs))]
      && reply == (counted.hits, counted.expiresAtMs - hit.nowMs)
  {
  }

  lemma ScriptRefines(db: Database, counters: Counters, thenMs: int, hit: Hit)
    requires AllTimed(db) && InMemoryStore.Represents(Table(db), counters, thenMs)
    requires thenMs <= hit.nowMs && 1 <= hit.windowSeconds
    ensures
      var (db', reply) := ScriptStep(db, hit);
      && AllTimed(db')
      && InMemoryStore.Represents(Table(db'), Count(counters, hit), hit.nowMs)
      && ParseAnswer(reply) == Some(AnswerFor(Counted(counters, hit), hit.nowMs))
  {
    ScriptDoes(db, hit);
    var touched := Touch(db, hit.key, hit.nowMs);
    var counted := Counted(Table(touched), hit);
    assert counted == Counted(counters, hit);
    assert Table(ScriptStep(db, hit).0) == Table(touched)[hit.key := counted];
    assert hit.nowMs < counted.expiresAtMs;
  }

  function Delivered(hits: seq<Hit>): Run {
    seq(|hits|, i requires 0 <= i < |hits| => Attempt(hits[i], Fate.Delivered))
  }

  lemma SweepUnseen(db: Database, counters: Counters, keys: set<string>, nowMs: int)
    requires AllTimed(db) && InMemoryStore.Represents(Table(db), counters, nowMs)
    ensures AllTimed(Sweep(db, keys, nowMs))
    ensures InMemoryStore.Represents(Table(Sweep(db, keys, nowMs)), counters, nowMs)
  {
  }

  ghost predicate Sensible(hits: seq<Hit>) {
    && InMemoryStore.TimesNeverDecrease(hits)
    && forall i :: 0 <= i < |hits| ==> 1 <= hits[i].windowSeconds
  }

  lemma {:induction false} RedisRepresentsRun(hits: seq<Hit>, sweeps: seq<set<string>>, nowMs: int)
    requires |hits| == |sweeps| && Sensible(hits) && (hits != [] ==> hits[|hits| - 1].nowMs <= nowMs)
    ensures AllTimed(RedisAfter(hits, sweeps))
    ensures InMemoryStore.Represents(Table(RedisAfter(hits, sweeps)), After(Delivered(hits)), nowMs)
  {
    if hits != [] {
      var init, last := |hits| - 1, hits[|hits| - 1];
      RedisRepresentsRun(hits[..init], sweeps[..init], last.nowMs);
      assert Delivered(hits)[..init] == Delivered(hits[..init]);
      var db, counters := RedisAfter(hits[..init], sweeps[..init]), After(Delivered(hits[..init]));
      SweepUnseen(db, counters, sweeps[init], last.nowMs);
      ScriptRefines(Sweep(db, sweeps[init], last.nowMs), counters, last.nowMs, last);
    }
  }

  /**
   * The script's answers are those of the fixed-window run with every attempt delivered, whenever
   * and whatever background expiry removes.
   */
  lemma RedisRefinesRun(hits: seq<Hit>, sweeps: seq<set<string>>, i: nat)
    requires |hits| == |sweeps| && Sensible(hits) && i < |hits|
    ensures RedisAnswer(hits, sweeps, i) == AnswerAt(Delivered(hits), i)
  {
    var db, counters := RedisAfter(hits[..i], sweeps[..i]), After(Delivered(hits[..i]));
    assert Delivered(hits)[..i] == Delivered(hits[..i]);
    RedisRepresentsRun(hits[..i], sweeps[..i], hits[i].nowMs);
    SweepUnseen(db, counters, sweeps[i], hits[i].nowMs);
    ScriptRefines(Sweep(db, sweeps[i], hits[i].nowMs), counters, hits[i].nowMs, hits[i]);
  }

  /**
   * The two stores cannot be told apart by their answers exactly as long as the memory store turns
   * nothing away: the same hits at the same times give the same counts and the same seconds.
   */
  lemma StoresAgree(maxBuckets: int, hits: seq<Hit>, sweeps: seq<set<string>>)
    requires |hits| == |sweeps| && Sensible(hits)
    ensures (forall i :: 0 <= i < |hits| ==>
              InMemoryStore.StoreAnswer(maxBuckets, hits, i) == RedisAnswer(hits, sweeps, i))
       <==> (forall i :: 0 <= i < |hits| ==> InMemoryStore.StoreAnswer(maxBuckets, hits, i).Some?)
  {
    forall i | 0 <= i < |hits|
      ensures RedisAnswer(hits, sweeps, i).Some?
      ensures RedisAnswer(hits, sweeps, i) == AnswerAt(Delivered(hits), i)
    {
      RedisRefinesRun(hits, sweeps, i);
    }
    if forall i :: 0 <= i < |hits| ==> InMemoryStore.StoreAnswer(maxBuckets, hits, i).Some? {
      assert InMemoryStore.Attempts(maxBuckets, hits) == Delivered(hits);
      forall i | 0 <= i < |hits|
        ensures InMemoryStore.StoreAnswer(maxBuckets, hits, i) == RedisAnswer(hits, sweeps, i)
      {
        InMemoryStore.StoreAnswersAreRun(maxBuckets, hits, i);
      }
    }
  }
}
