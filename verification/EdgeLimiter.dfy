/**
 The rate limiter of one edge isolate: a map in insertion order that keeps, per key, the last max + 1 attempts of the
 window and drops its first key when it is full. Denied attempts are recorded too.
 */
module EdgeLimiter {
  import opened Basics
  import opened Wrappers
  import opened OrderedDict
  import opened SlidingLog

  type Hits = seq<Entry<seq<real>>>

  /** `map.set`: an existing key keeps its place. */
  function Put(d: Hits, k: Key, log: seq<real>): (r: Hits) {
    if d == [] then [Entry(k, log)]
    else if d[0].key == k then [Entry(k, log)] + d[1..]
    else [d[0]] + Put(d[1..], k, log)
  }

  /** What is left after the first key was dropped for a new one, if the map is full. */
  function Room(d: Hits, k: Key, maxKeys: int): Hits {
    if Find(d, k).None? && |d| >= maxKeys && d != [] then d[1..] else d
  }

  function Step(d: Hits, e: Hit, max: nat, maxKeys: int): Hits {
    Put(Room(d, e.key, maxKeys), e.key, Record(LogOf(d, e.key), e.now, e.window, max + 1))
  }

  predicate Allows(d: Hits, e: Hit, max: nat) {
    |After(LogOf(d, e.key), e.now - e.window)| + 1 <= max
  }

  ghost function State(h: seq<Hit>, max: nat, maxKeys: int): Hits {
    if h == [] then [] else Step(State(h[..|h| - 1], max, maxKeys), h[|h| - 1], max, maxKeys)
  }

  /** Whether attempt j of a run is allowed. */
  ghost predicate Allowed(h: seq<Hit>, j: nat, max: nat, maxKeys: int)
    requires j < |h|
  {
    Allows(State(h[..j], max, maxKeys), h[j], max)
  }

  // -- The map -------------------------------------------------------------------------------------

  lemma {:induction false} PutThenFind(d: Hits, k: Key, log: seq<real>, other: Key)
    ensures Find(Put(d, k, log), other) == if other == k then Some(log) else Find(d, other)
  {
    if d != [] && d[0].key != k {
      PutThenFind(d[1..], k, log, other);
      assert Put(d, k, log)[1..] == Put(d[1..], k, log);
    } else if d != [] {
      assert Put(d, k, log)[1..] == d[1..];
    }
  }

  lemma {:induction false} PutSize(d: Hits, k: Key, log: seq<real>)
    ensures |Put(d, k, log)| == if Find(d, k).Some? then |d| else |d| + 1
  {
    if d != [] && d[0].key != k {
      PutSize(d[1..], k, log);
    }
  }

  lemma {:induction false} PutKeys(d: Hits, k: Key, log: seq<real>)
    ensures Keys(Put(d, k, log)) == Keys(d) + {k}
  {
    hide Keys;
    var r := Put(d, k, log);
    KeysSplit(r);
    if d != [] {
      KeysSplit(d);
      if d[0].key != k {
        PutKeys(d[1..], k, log);
        assert r[1..] == Put(d[1..], k, log);
      } else {
        assert r[1..] == d[1..];
      }
    }
  }

  lemma KeysSplit(d: Hits)
    requires d != []
    ensures Keys(d) == {d[0].key} + Keys(d[1..])
  {
    forall k | k in Keys(d) ensures k in {d[0].key} + Keys(d[1..]) {
      var i :| 0 <= i < |d| && d[i].key == k;
      if i > 0 {
        assert d[1..][i - 1].key == k;
      }
    }
    forall k | k in Keys(d[1..]) ensures k in Keys(d) {
      var i :| 0 <= i < |d[1..]| && d[1..][i].key == k;
      assert d[i + 1].key == k;
    }
  }

  lemma RoomThenFind(d: Hits, k: Key, maxKeys: int, other: Key)
    requires Distinct(d)
    ensures Find(Room(d, k, maxKeys), other) == Find(d, other) || Find(Room(d, k, maxKeys), other) == None
  {
    if d != [] && d[0].key == other {
      assert forall e | e in d[1..] :: e.key != other;
    }
  }

  lemma {:induction false} PutDistinct(d: Hits, k: Key, log: seq<real>)
    requires Distinct(d)
    ensures Distinct(Put(d, k, log))
    ensures forall e | e in Put(d, k, log) :: e.key == k || e in d
  {
    if d != [] {
      var p := Put(d, k, log);
      assert Distinct(d[1..]);
      if d[0].key != k {
        PutDistinct(d[1..], k, log);
        assert p[1..] == Put(d[1..], k, log);
      } else {
        assert p[1..] == d[1..];
      }
      forall i, j | 0 <= i < j < |p| ensures p[i].key != p[j].key {
        assert p[j] == p[1..][j - 1];
        if i > 0 {
          assert p[i] == p[1..][i - 1];
        } else if d[0].key == k {
          assert p[j] == d[j];
        } else if p[j].key != k {
          assert p[j] in d[1..];
        }
      }
    }
  }

  lemma {:induction false} StateDistinct(h: seq<Hit>, max: nat, maxKeys: int)
    ensures Distinct(State(h, max, maxKeys))
    ensures |State(h, max, maxKeys)| <= if maxKeys < 1 then 1 else maxKeys
  {
    if h != [] {
      var d, e := State(h[..|h| - 1], max, maxKeys), h[|h| - 1];
      StateDistinct(h[..|h| - 1], max, maxKeys);
      var room := Room(d, e.key, maxKeys);
      RoomThenFind(d, e.key, maxKeys, e.key);
      var log := Record(LogOf(d, e.key), e.now, e.window, max + 1);
      PutDistinct(room, e.key, log);
      PutSize(room, e.key, log);
    }
  }

  // -- Exactness -----------------------------------------------------------------------------------

  ghost predicate OneWindow(h: seq<Hit>, window: real) {
    forall i | 0 <= i < |h| :: h[i].window == window
  }

  /** Up to attempt j, key k is in the map whenever it has attempts after the cutoff. */
  ghost predicate NotEvicted(h: seq<Hit>, k: Key, cutoff: real, j: nat, max: nat, maxKeys: int)
    requires j <= |h|
  {
    forall m: nat | m <= j && After(HitsOn(h[..m], k), cutoff) != [] :: Find(State(h[..m], max, maxKeys), k).Some?
  }

  lemma StepLog(d: Hits, e: Hit, max: nat, maxKeys: int, k: Key)
    requires Distinct(d)
    ensures
      var d' := Step(d, e, max, maxKeys);
      if e.key == k then LogOf(d', k) == Record(LogOf(d, k), e.now, e.window, max + 1)
      else LogOf(d', k) == LogOf(d, k) || Find(d', k) == None
  {
    hide Put, Room, Find, Record;
    RoomThenFind(d, e.key, maxKeys, k);
    PutThenFind(Room(d, e.key, maxKeys), e.key, Record(LogOf(d, e.key), e.now, e.window, max + 1), k);
  }

  lemma {:induction false} LogStaysComplete(h: seq<Hit>, j: nat, m: nat, max: nat, maxKeys: int, window: real)
    requires m <= j < |h| && HitClock(h) && OneWindow(h, window)
    requires NotEvicted(h, h[j].key, Cutoff(h[j]), j, max, maxKeys)
    ensures Complete(LogOf(State(h[..m], max, maxKeys), h[j].key), HitsOn(h[..m], h[j].key), Cutoff(h[j]), max + 1)
  {
    hide Step, Record, LogOf, After, Sorted, Complete, Distinct;
    var k, cutoff := h[j].key, Cutoff(h[j]);
    if m == 0 {
      assert h[..0] == [];
      CompleteAtStart(k, cutoff, max, maxKeys);
    } else {
      var last := m - 1;
      LogStaysComplete(h, j, last, max, maxKeys, window);
      HitsPrefix(h, last);
      assert h[..m][..last] == h[..last];
      var d, e, hits := State(h[..last], max, maxKeys), h[last], HitsOn(h[..last], k);
      StateDistinct(h[..last], max, maxKeys);
      StepLog(d, e, max, maxKeys, k);
      assert e.now <= h[j].now;
      if e.key == k {
        SortedWithNext(h, last);
        RecordKeepsComplete(LogOf(d, k), hits, e.now, e.window, max + 1, cutoff);
      } else if After(hits, cutoff) == [] {
        EmptyIsComplete(State(h[..m], max, maxKeys), k, LogOf(d, k), hits, cutoff, max + 1);
      }
    }
  }

  lemma CompleteAtStart(k: Key, cutoff: real, max: nat, maxKeys: int)
    ensures Complete(LogOf(State([], max, maxKeys), k), HitsOn([], k), cutoff, max + 1)
  {
  }

  lemma EmptyIsComplete(d: Hits, k: Key, log: seq<real>, hits: seq<real>, cutoff: real, cap: nat)
    requires Complete(log, hits, cutoff, cap) && After(hits, cutoff) == []
    requires LogOf(d, k) == log || Find(d, k) == None
    ensures Complete(LogOf(d, k), hits, cutoff, cap)
  {
  }

  /** While its key is not evicted, an attempt is allowed exactly when the attempts on the key in the window, allowed
      or denied and this one included, number at most max: keeping only the last max + 1 loses no decision. */
  lemma AllowIsExact(h: seq<Hit>, j: nat, max: nat, maxKeys: int, window: real)
    requires j < |h| && HitClock(h) && OneWindow(h, window)
    requires NotEvicted(h, h[j].key, Cutoff(h[j]), j, max, maxKeys)
    ensures Allowed(h, j, max, maxKeys) <==> TrueHits(h, j) <= max
  {
    hide Record, LogOf, After, Sorted;
    LogStaysComplete(h, j, j, max, maxKeys, window);
    SortedWithNext(h, j);
    RecordIsExact(LogOf(State(h[..j], max, maxKeys), h[j].key), HitsOn(h[..j], h[j].key), h[j].now, h[j].window,
                  max + 1);
  }

  /** The allowed attempts on k after a time. */
  ghost function AllowedAfter(h: seq<Hit>, k: Key, from: real, max: nat, maxKeys: int): nat {
    if h == [] then 0
    else
      var last := |h| - 1;
      AllowedAfter(h[..last], k, from, max, maxKeys)
      + (if h[last].key == k && h[last].now > from && Allowed(h, last, max, maxKeys) then 1 else 0)
  }

  lemma {:induction false} AllowedAreAttempts(h: seq<Hit>, k: Key, from: real, max: nat, maxKeys: int)
    ensures AllowedAfter(h, k, from, max, maxKeys) <= |After(HitsOn(h, k), from)|
  {
    if h != [] {
      var last := |h| - 1;
      AllowedAreAttempts(h[..last], k, from, max, maxKeys);
      if h[last].key == k {
        AfterAppend(HitsOn(h[..last], k), h[last].now, from);
      }
    }
  }

  /** Key k is in the map from its first attempt on. */
  ghost predicate AlwaysKept(h: seq<Hit>, k: Key, max: nat, maxKeys: int) {
    forall m: nat | m <= |h| && HitsOn(h[..m], k) != [] :: Find(State(h[..m], max, maxKeys), k).Some?
  }

  lemma AlwaysKeptPrefix(h: seq<Hit>, last: nat, k: Key, max: nat, maxKeys: int)
    requires last < |h| && AlwaysKept(h, k, max, maxKeys)
    ensures AlwaysKept(h[..last], k, max, maxKeys)
    ensures forall cutoff :: NotEvicted(h, k, cutoff, last, max, maxKeys)
  {
    hide State, Find, HitsOn;
    forall m: nat | m <= last ensures h[..last][..m] == h[..m] {
    }
  }

  /** A key that is never evicted gets at most max attempts through in any window, wherever the window ends. */
  lemma {:induction false} AtMostMaxPerWindow(h: seq<Hit>, k: Key, end: real, max: nat, maxKeys: int, window: real)
    requires HitClock(h) && OneWindow(h, window) && (h != [] ==> h[|h| - 1].now <= end)
    requires AlwaysKept(h, k, max, maxKeys)
    ensures AllowedAfter(h, k, end - window, max, maxKeys) <= max
  {
    hide AlwaysKept, NotEvicted, State, Allows, HitsOn, After;
    if h != [] {
      var last := |h| - 1;
      var front, e := h[..last], h[last];
      AlwaysKeptPrefix(h, last, k, max, maxKeys);
      if e.key == k && e.now > end - window && Allowed(h, last, max, maxKeys) {
        AllowIsExact(h, last, max, maxKeys, window);
        AllowedAreAttempts(front, k, end - window, max, maxKeys);
        AfterLater(HitsOn(front, k), Cutoff(e), end - window);
      } else {
        if front != [] {
          assert front[last - 1].now <= e.now;
        }
        AtMostMaxPerWindow(front, k, end, max, maxKeys, window);
      }
    }
  }

  /** With no more keys in play than the map holds, nothing is ever evicted. */
  lemma {:induction false} FewKeysStay(h: seq<Hit>, k: Key, all: set<Key>, max: nat, maxKeys: nat)
    requires |all| <= maxKeys && forall i | 0 <= i < |h| :: h[i].key in all
    ensures HitsOn(h, k) != [] ==> Find(State(h, max, maxKeys), k).Some?
    ensures Keys(State(h, max, maxKeys)) <= all
  {
    hide Put, Record, After, Keys, Find;
    if h != [] {
      var last := |h| - 1;
      var d, e := State(h[..last], max, maxKeys), h[last];
      FewKeysStay(h[..last], k, all, max, maxKeys);
      StateDistinct(h[..last], max, maxKeys);
      RoomLeft(d, e.key, all, maxKeys);
      var log := Record(LogOf(d, e.key), e.now, e.window, max + 1);
      PutThenFind(d, e.key, log, k);
      PutKeys(d, e.key, log);
    }
  }

  lemma FewKeysAlwaysKept(h: seq<Hit>, k: Key, all: set<Key>, max: nat, maxKeys: nat)
    requires |all| <= maxKeys && forall i | 0 <= i < |h| :: h[i].key in all
    ensures AlwaysKept(h, k, max, maxKeys)
  {
    forall m: nat | m <= |h| && HitsOn(h[..m], k) != [] ensures Find(State(h[..m], max, maxKeys), k).Some? {
      FewKeysStay(h[..m], k, all, max, maxKeys);
    }
  }

  lemma RoomLeft(d: Hits, k: Key, all: set<Key>, maxKeys: nat)
    requires Distinct(d) && Keys(d) <= all && k in all && |all| <= maxKeys
    ensures Room(d, k, maxKeys) == d
  {
    if Find(d, k).None? {
      DistinctKeyCount(d);
      assert k !in Keys(d);
      SubsetSize(Keys(d) + {k}, all);
    }
  }

  // -- How long a key is kept ------------------------------------------------------------------------

  /** Writing an existing key keeps every key's place; a new key goes to the end. */
  lemma {:induction false} PutOrder(d: Hits, k: Key, log: seq<real>)
    ensures Find(d, k).None? ==> Put(d, k, log) == d + [Entry(k, log)]
    ensures Find(d, k).Some? ==> |Put(d, k, log)| == |d| && forall i | 0 <= i < |d| :: Put(d, k, log)[i].key == d[i].key
  {
    if d != [] && d[0].key != k {
      PutOrder(d[1..], k, log);
      assert d == [d[0]] + d[1..];
      var r := Put(d, k, log);
      assert r[1..] == Put(d[1..], k, log);
      forall i | 0 <= i < |d| && Find(d, k).Some? ensures r[i].key == d[i].key {
        if i > 0 {
          assert r[i] == r[1..][i - 1] && d[i] == d[1..][i - 1];
        }
      }
    }
  }

  /** Attempt m puts a key into the map that is not there. */
  ghost predicate Inserts(h: seq<Hit>, m: nat, max: nat, maxKeys: int)
    requires m < |h|
  {
    Find(State(h[..m], max, maxKeys), h[m].key).None?
  }

  /** The number of insertions from attempt i up to attempt j. */
  ghost function Insertions(h: seq<Hit>, i: nat, j: nat, max: nat, maxKeys: int): nat
    requires i <= j <= |h|
  {
    if j <= i then 0 else Insertions(h, i, j - 1, max, maxKeys) + (if Inserts(h, j - 1, max, maxKeys) then 1 else 0)
  }

  /** The key has n younger ones behind it. */
  ghost predicate Behind(d: Hits, k: Key, n: nat) {
    n < |d| && d[|d| - 1 - n].key == k
  }

  ghost function Capacity(maxKeys: int): nat {
    if maxKeys < 1 then 1 else maxKeys
  }

  /** One attempt on another key, or on a key that is there. */
  lemma StepBehind(d: Hits, e: Hit, max: nat, maxKeys: int, k: Key, n: nat)
    requires Distinct(d) && |d| <= Capacity(maxKeys) && Behind(d, k, n) && (e.key == k ==> Find(d, k).Some?)
    ensures
      var d', new_ := Step(d, e, max, maxKeys), Find(d, e.key).None?;
      var n' := if new_ then n + 1 else n;
      if n' < Capacity(maxKeys) then Behind(d', k, n') else Find(d', k) == None
  {
    hide Find, Put, Record, LogOf, Distinct;
    var log := Record(LogOf(d, e.key), e.now, e.window, max + 1);
    var room := Room(d, e.key, maxKeys);
    RoomThenFind(d, e.key, maxKeys, e.key);
    PutOrder(room, e.key, log);
    if Find(d, e.key).None? && n + 1 >= Capacity(maxKeys) {
      assert d[0].key == k && room == d[1..];
      FirstIsGone(d, k);
      hide Room, Behind;
      PutThenFind(room, e.key, log, k);
    }
  }

  lemma FirstIsGone(d: Hits, k: Key)
    requires Distinct(d) && d != [] && d[0].key == k
    ensures Find(d[1..], k) == None
  {
  }

  lemma InsertedIsLast(d: Hits, e: Hit, max: nat, maxKeys: int)
    requires Distinct(d) && Find(d, e.key).None?
    ensures Behind(Step(d, e, max, maxKeys), e.key, 0)
  {
    hide Find, Put, Record, LogOf;
    RoomThenFind(d, e.key, maxKeys, e.key);
    PutOrder(Room(d, e.key, maxKeys), e.key, Record(LogOf(d, e.key), e.now, e.window, max + 1));
  }

  lemma StaysGone(d: Hits, e: Hit, max: nat, maxKeys: int, k: Key)
    requires Distinct(d) && Find(d, k).None? && e.key != k
    ensures Find(Step(d, e, max, maxKeys), k).None?
  {
    hide Find, Put, Record, LogOf;
    RoomThenFind(d, e.key, maxKeys, k);
    PutThenFind(Room(d, e.key, maxKeys), e.key, Record(LogOf(d, e.key), e.now, e.window, max + 1), k);
  }

  lemma BehindIsFound(d: Hits, k: Key, n: nat)
    requires Behind(d, k, n)
    ensures Find(d, k).Some?
  {
  }

  /** A key that attempt i puts into the map stays there exactly as long as fewer other keys are put in after it than the
      map holds. */
  lemma {:induction false} KeptExactlyWhile(h: seq<Hit>, i: nat, j: nat, max: nat, maxKeys: int)
    requires i < j <= |h| && Inserts(h, i, max, maxKeys)
    requires forall m | i < m < j && h[m].key == h[i].key :: !Inserts(h, m, max, maxKeys)
    ensures
      var n, d := Insertions(h, i + 1, j, max, maxKeys), State(h[..j], max, maxKeys);
      && (Find(d, h[i].key).Some? <==> n < Capacity(maxKeys))
      && (n < Capacity(maxKeys) ==> Behind(d, h[i].key, n))
  {
    hide Step, Find, Behind;
    var last, k := j - 1, h[i].key;
    var d, e, d' := State(h[..last], max, maxKeys), h[last], State(h[..j], max, maxKeys);
    assert h[..j][..last] == h[..last];
    StateDistinct(h[..last], max, maxKeys);
    assert d' == Step(d, e, max, maxKeys);
    hide State, Distinct;
    if last == i {
      InsertedIsLast(d, e, max, maxKeys);
      BehindIsFound(d', k, 0);
    } else {
      KeptExactlyWhile(h, i, last, max, maxKeys);
      var n := Insertions(h, i + 1, last, max, maxKeys);
      assert Inserts(h, last, max, maxKeys) <==> Find(d, e.key).None?;
      if n < Capacity(maxKeys) {
        StepBehind(d, e, max, maxKeys, k, n);
        if Insertions(h, i + 1, j, max, maxKeys) < Capacity(maxKeys) {
          BehindIsFound(d', k, Insertions(h, i + 1, j, max, maxKeys));
        }
      } else {
        StaysGone(d, e, max, maxKeys, k);
      }
    }
  }

  // -- The class -----------------------------------------------------------------------------------

  class IsolateRateLimiter {
    const max: int
    const windowMs: real
    const maxKeys: int
    var hits: Hits

    constructor (max: int, windowMs: real, maxKeys: int)
      ensures this.max == max && this.windowMs == windowMs && this.maxKeys == maxKeys
      ensures hits == State([], 0, maxKeys)
    {
      this.max, this.windowMs, this.maxKeys := max, windowMs, maxKeys;
      hits := [];
    }

    method Allow(key: Key, now: real) returns (allowed: bool)
      modifies this
      ensures max <= 0 ==> allowed && hits == old(hits)
      ensures max > 0 ==> hits == Step(old(hits), Hit(key, now, windowMs), max, maxKeys)
      ensures max > 0 ==> allowed == Allows(old(hits), Hit(key, now, windowMs), max)
    {
      hide Find, Put, After, LastN;
      if max <= 0 {
        return true;
      }
      var recent := After(LogOf(hits, key), now - windowMs) + [now];
      if Find(hits, key).None? && |hits| >= maxKeys && hits != [] {
        hits := hits[1..];
      }
      hits := Put(hits, key, LastN(recent, max + 1));
      allowed := |recent| <= max;
    }
  }
}
