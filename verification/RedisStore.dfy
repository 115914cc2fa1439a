/**
 What both servers do in Redis: claims, and the sliding-window script on a sorted set per key that expires with the
 window. On every history the script counts what the in-process store counts while that store keeps its keys.

 Times are those of the Redis server's clock; a command or script is one atomic step.
 */
module RedisStore {
  import opened Basics
  import opened SlidingLog
  import MemoryStore

  // -- Claims ----------------------------------------------------------------------------------------

  /** SET with NX and PX, in whole milliseconds. */
  datatype Claim = Claim(key: string, at: int, ttl: int)

  /** `max(1, int(ttl * 1000))`, for a time to live of at least zero. */
  function Px(seconds: real): int {
    var ms := (seconds * 1000.0).Floor;
    if ms < 1 then 1 else ms
  }

  predicate Held(claimed: map<string, int>, c: Claim) {
    c.key in claimed && c.at < claimed[c.key]
  }

  ghost function Claims(h: seq<Claim>, n: nat): map<string, int>
    requires n <= |h|
  {
    if n == 0 then map[]
    else
      var claimed, c := Claims(h, n - 1), h[n - 1];
      if Held(claimed, c) then claimed else claimed[c.key := c.at + c.ttl]
  }

  ghost predicate Granted(h: seq<Claim>, i: nat)
    requires i < |h|
  {
    !Held(Claims(h, i), h[i])
  }

  ghost predicate ClaimClock(h: seq<Claim>) {
    forall i, j | 0 <= i < j < |h| :: h[i].at <= h[j].at
  }

  /** Among the first n claims, i was granted for key k. */
  ghost predicate GrantedFor(h: seq<Claim>, n: nat, k: string, i: nat)
    requires n <= |h|
  {
    i < n && h[i].key == k && Granted(h, i)
  }

  lemma {:induction false} ExpiryIsLastGrant(h: seq<Claim>, n: nat, k: string, now: int)
    requires n <= |h| && ClaimClock(h) && forall i | 0 <= i < n :: h[i].at <= now
    ensures k in Claims(h, n) ==> exists i: nat :: GrantedFor(h, n, k, i) && Claims(h, n)[k] == h[i].at + h[i].ttl
    ensures forall i: nat | GrantedFor(h, n, k, i) ::
              k in Claims(h, n) && (h[i].at + h[i].ttl <= Claims(h, n)[k] || h[i].at + h[i].ttl <= now)
  {
    if n > 0 {
      assert Granted(h, n - 1) <==> !Held(Claims(h, n - 1), h[n - 1]);
      hide Granted;
      var last := n - 1;
      ExpiryIsLastGrant(h, last, k, h[last].at);
      if k in Claims(h, last) {
        var i: nat :| GrantedFor(h, last, k, i) && Claims(h, last)[k] == h[i].at + h[i].ttl;
        assert GrantedFor(h, n, k, i);
      }
      if h[last].key == k && Granted(h, last) {
        assert GrantedFor(h, n, k, last);
      }
      forall i: nat | GrantedFor(h, n, k, i)
        ensures k in Claims(h, n) && (h[i].at + h[i].ttl <= Claims(h, n)[k] || h[i].at + h[i].ttl <= now)
      {
        assert i == last || GrantedFor(h, last, k, i);
      }
    }
  }

  /** A claim succeeds exactly if every earlier successful claim of its key has expired. */
  lemma ClaimIsExact(h: seq<Claim>, j: nat)
    requires j < |h| && ClaimClock(h)
    ensures Granted(h, j) <==> forall i: nat | GrantedFor(h, j, h[j].key, i) :: h[i].at + h[i].ttl <= h[j].at
  {
    ExpiryIsLastGrant(h, j, h[j].key, h[j].at);
  }

  // -- The sliding-window script -----------------------------------------------------------------------

  /** A sorted set, by score only (members are unique), and the time at which its key expires. */
  datatype ZSet = ZSet(scores: seq<real>, expires: real)

  type Database = map<string, ZSet>

  /** The scores under a key that has not expired. */
  function Live(db: Database, k: string, now: real): seq<real> {
    if k in db && now < db[k].expires then db[k].scores else []
  }

  /** ZADD: the new score goes behind all scores up to it. */
  function Insert(scores: seq<real>, t: real): seq<real> {
    if scores == [] || scores[|scores| - 1] <= t then scores + [t]
    else Insert(scores[..|scores| - 1], t) + [scores[|scores| - 1]]
  }

  datatype ScriptResult = ScriptResult(db: Database, count: nat)

  /** The script: ZREMRANGEBYSCORE, ZADD, ZCARD, ZREMRANGEBYRANK above the cap, PEXPIRE. */
  function Script(db: Database, e: Hit, cap: nat): ScriptResult
    requires cap > 0
  {
    var kept := After(Live(db, e.key, e.now), e.now - e.window);
    var added := Insert(kept, e.now);
    var count := |added|;
    var capped := if count > cap then added[count - cap..] else added;
    ScriptResult(db[e.key := ZSet(capped, e.now + e.window)], if count > cap then cap else count)
  }

  ghost function Run(h: seq<Hit>, cap: nat): Database
    requires cap > 0
  {
    if h == [] then map[] else Script(Run(h[..|h| - 1], cap), h[|h| - 1], cap).db
  }

  ghost function ScriptCount(h: seq<Hit>, j: nat, cap: nat): nat
    requires cap > 0 && j < |h|
  {
    Script(Run(h[..j], cap), h[j], cap).count
  }

  /** With a clock that does not run backwards the script is the trimming of a log. */
  lemma ScriptIsRecord(db: Database, e: Hit, cap: nat)
    requires cap > 0 && AllUpTo(Live(db, e.key, e.now), e.now)
    ensures
      var log := Record(Live(db, e.key, e.now), e.now, e.window, cap);
      Script(db, e, cap) == ScriptResult(db[e.key := ZSet(log, e.now + e.window)], |log|)
  {
    var kept := After(Live(db, e.key, e.now), e.now - e.window);
    hide After, Live;
    if kept != [] {
      assert kept[|kept| - 1] in kept;
    }
  }

  /** What the key holds for a later reader: a complete log, and an expiry no earlier than the last hit's window. */
  ghost predicate Tracks(db: Database, k: string, hits: seq<real>, cutoff: real, cap: nat, reach: real) {
    if k !in db then hits == []
    else
      && Complete(db[k].scores, hits, cutoff, cap) && hits != []
      && (hits[|hits| - 1] > cutoff ==> db[k].expires >= hits[|hits| - 1] + reach)
  }

  /** An expired key has no hits left to count. */
  lemma LiveIsComplete(db: Database, k: string, hits: seq<real>, now: real, cutoff: real, cap: nat, reach: real)
    requires Tracks(db, k, hits, cutoff, cap, reach) && Sorted(hits) && now - reach <= cutoff
    ensures Complete(Live(db, k, now), hits, cutoff, cap)
  {
    if hits != [] && hits[|hits| - 1] <= cutoff {
      NothingAfter(hits, cutoff);
    }
  }

  lemma {:induction false} KeyTracksHits(h: seq<Hit>, j: nat, m: nat, cap: nat)
    requires cap > 0 && m <= j < |h| && HitClock(h) && WindowsReach(h, j)
    ensures Tracks(Run(h[..m], cap), h[j].key, HitsOn(h[..m], h[j].key), Cutoff(h[j]), cap, h[j].window)
  {
    if m == 0 {
      assert h[..0] == [];
    } else {
      var last := m - 1;
      var k, cutoff, reach := h[j].key, Cutoff(h[j]), h[j].window;
      var db, e, hits := Run(h[..last], cap), h[last], HitsOn(h[..last], k);
      KeyTracksHits(h, j, last, cap);
      RunNext(h, last, cap);
      HitsPrefix(h, last);
      assert e.now <= h[j].now;
      hide Tracks, Run, Script;
      if e.key == k {
        SortedWithNext(h, last);
        TracksOwnHit(db, e, hits, cutoff, cap, reach);
      } else {
        TracksOtherHit(db, e, k, hits, cutoff, cap, reach);
      }
    }
  }

  lemma RunNext(h: seq<Hit>, i: nat, cap: nat)
    requires cap > 0 && i < |h|
    ensures Run(h[..i + 1], cap) == Script(Run(h[..i], cap), h[i], cap).db
  {
    hide Script;
    assert h[..i + 1][..i] == h[..i];
  }

  lemma TracksOtherHit(db: Database, e: Hit, k: string, hits: seq<real>, cutoff: real, cap: nat, reach: real)
    requires cap > 0 && e.key != k && Tracks(db, k, hits, cutoff, cap, reach)
    ensures Tracks(Script(db, e, cap).db, k, hits, cutoff, cap, reach)
  {
    hide Complete;
  }

  lemma LiveUpTo(db: Database, e: Hit, hits: seq<real>, cutoff: real, cap: nat)
    requires Complete(Live(db, e.key, e.now), hits, cutoff, cap) && AllUpTo(hits, e.now)
    ensures AllUpTo(Live(db, e.key, e.now), e.now)
  {
  }

  lemma TracksOwnHit(db: Database, e: Hit, hits: seq<real>, cutoff: real, cap: nat, reach: real)
    requires cap > 0 && Tracks(db, e.key, hits, cutoff, cap, reach) && Sorted(hits + [e.now])
    requires e.now - reach <= cutoff
    requires e.now > cutoff ==> e.window >= reach
    ensures Tracks(Script(db, e, cap).db, e.key, hits + [e.now], cutoff, cap, reach)
  {
    hide After, Record, Script, Sorted, AllUpTo, Live, Complete;
    SortedPrefix(hits, e.now);
    LiveIsComplete(db, e.key, hits, e.now, cutoff, cap, reach);
    LiveUpTo(db, e, hits, cutoff, cap);
    ScriptIsRecord(db, e, cap);
    RecordKeepsComplete(Live(db, e.key, e.now), hits, e.now, e.window, cap, cutoff);
  }

  /** The script returns the number of hits in the window, this one included, up to the cap: in every history. */
  lemma ScriptIsExact(h: seq<Hit>, j: nat, cap: nat)
    requires cap > 0 && j < |h| && HitClock(h) && WindowsReach(h, j)
    ensures ScriptCount(h, j, cap) == Min(cap, TrueHits(h, j))
  {
    hide After, Record, Script, Sorted, Tracks;
    KeyTracksHits(h, j, j, cap);
    SortedWithNext(h, j);
    ExactScript(Run(h[..j], cap), h[j], HitsOn(h[..j], h[j].key), cap);
  }

  lemma ExactScript(db: Database, e: Hit, hits: seq<real>, cap: nat)
    requires cap > 0 && Tracks(db, e.key, hits, Cutoff(e), cap, e.window) && Sorted(hits + [e.now])
    ensures Script(db, e, cap).count == Min(cap, |After(hits, Cutoff(e))| + 1)
  {
    hide After, Record, Script;
    SortedPrefix(hits, e.now);
    LiveIsComplete(db, e.key, hits, e.now, Cutoff(e), cap, e.window);
    ScriptIsRecord(db, e, cap);
    RecordIsExact(Live(db, e.key, e.now), hits, e.now, e.window, cap);
  }

  /** Both stores return the same count for the same history, while the in-process one keeps its keys. */
  lemma StoresAgree(h: seq<Hit>, j: nat, maxKeys: nat)
    requires maxKeys > 0 && j < |h| && HitClock(h) && WindowsReach(h, j) && h[j].window <= 3600.0
    requires MemoryStore.KeptSince(h, h[j].key, Cutoff(h[j]), j, maxKeys)
    ensures MemoryStore.HitCount(h, j, maxKeys) == ScriptCount(h, j, MAX_HITS_PER_KEY)
  {
    hide TrueHits, ScriptCount, WindowsReach, HitClock;
    MemoryStore.HitIsExact(h, j, maxKeys);
    ScriptIsExact(h, j, MAX_HITS_PER_KEY);
  }
}
