/**
 The in-process store of the Python server: single-use claims and sliding windows, each kept in an ordered dictionary
 of at most `maxKeys` keys. Over every run it behaves like an unbounded store until that many other keys come between
 two uses of a key.
 */
module MemoryStore {
  import opened Basics
  import opened Wrappers
  import opened OrderedDict
  import opened SlidingLog

  // -- Claims --------------------------------------------------------------------------------------

  datatype Claim = Claim(key: Key, now: real, ttl: real)

  /** The test `lambda v: v <= now` on expiry times. */
  function ExpiredAt(now: real): real -> bool {
    v => v <= now
  }

  datatype ClaimResult = ClaimResult(once: seq<Entry<real>>, granted: bool)

  function ClaimStep(d: seq<Entry<real>>, c: Claim, maxKeys: nat): ClaimResult
    requires maxKeys > 0
  {
    var rest := Remove(d, c.key);
    var found := Find(d, c.key);
    if found.Some? && found.value > c.now then
      ClaimResult(rest + [Entry(c.key, found.value)], false)
    else
      ClaimResult(MakeRoom(rest, ExpiredAt(c.now), maxKeys) + [Entry(c.key, c.now + c.ttl)], true)
  }

  /** The dictionary after the first n claims of a run. */
  ghost function Claims(h: seq<Claim>, n: nat, maxKeys: nat): seq<Entry<real>>
    requires maxKeys > 0 && n <= |h|
  {
    if n == 0 then [] else ClaimStep(Claims(h, n - 1, maxKeys), h[n - 1], maxKeys).once
  }

  /** Whether claim i of a run succeeded. */
  ghost predicate Granted(h: seq<Claim>, i: nat, maxKeys: nat)
    requires maxKeys > 0 && i < |h|
  {
    ClaimStep(Claims(h, i, maxKeys), h[i], maxKeys).granted
  }

  ghost function ClaimUses(h: seq<Claim>, n: nat): (uses: seq<Key>)
    requires n <= |h|
  {
    if n == 0 then [] else ClaimUses(h, n - 1) + [h[n - 1].key]
  }

  ghost predicate ClaimClock(h: seq<Claim>) {
    forall i, j | 0 <= i < j < |h| :: h[i].now <= h[j].now
  }

  /** In every run the dictionary is in order of last use and never exceeds its bound. */
  lemma {:induction false} ClaimsStayOrdered(h: seq<Claim>, n: nat, maxKeys: nat)
    requires maxKeys > 0 && n <= |h|
    ensures InUseOrder(Claims(h, n, maxKeys), ClaimUses(h, n))
    ensures |Claims(h, n, maxKeys)| <= maxKeys
  {
    hide ClaimStep;
    if n > 0 {
      ClaimsStayOrdered(h, n - 1, maxKeys);
      ClaimStepOrder(Claims(h, n - 1, maxKeys), h[n - 1], maxKeys, ClaimUses(h, n - 1));
    }
  }

  lemma ClaimStepOrder(d: seq<Entry<real>>, c: Claim, maxKeys: nat, uses: seq<Key>)
    requires maxKeys > 0 && InUseOrder(d, uses) && |d| <= maxKeys
    ensures InUseOrder(ClaimStep(d, c, maxKeys).once, uses + [c.key])
    ensures |ClaimStep(d, c, maxKeys).once| <= maxKeys
  {
    hide InUseOrder, ExpiredAt, MakeRoom, Remove, Find;
    var rest := Remove(d, c.key);
    var found := Find(d, c.key);
    if found.Some? && found.value > c.now {
      RemoveShortens(d, c.key, found.value);
      ReinsertKeepsOrder(d, c.key, found.value, rest, uses);
    } else {
      ReinsertKeepsOrder(d, c.key, c.now + c.ttl, MakeRoom(rest, ExpiredAt(c.now), maxKeys), uses);
    }
  }

  lemma {:induction false} RemoveShortens<V>(d: seq<Entry<V>>, k: Key, v: V)
    requires Holds(d, k, v)
    ensures |Remove(d, k)| < |d|
  {
    if d[0].key != k {
      assert Holds(d[1..], k, v);
      RemoveShortens(d[1..], k, v);
    }
  }

  /** One of the first n claims was granted for k until `expires`. */
  ghost predicate Justified(h: seq<Claim>, n: nat, k: Key, expires: real, maxKeys: nat)
    requires maxKeys > 0 && n <= |h|
  {
    exists i: nat | i < n :: h[i].key == k && h[i].now + h[i].ttl == expires && Granted(h, i, maxKeys)
  }

  lemma NewEntry(d: seq<Entry<real>>, c: Claim, maxKeys: nat, e: Entry<real>)
    requires maxKeys > 0
    ensures e in ClaimStep(d, c, maxKeys).once ==>
              e in d || (e == Entry(c.key, c.now + c.ttl) && ClaimStep(d, c, maxKeys).granted)
  {
    hide MakeRoom, Remove, Find, ExpiredAt;
    var rest := Remove(d, c.key);
    var room := MakeRoom(rest, ExpiredAt(c.now), maxKeys);
    assert forall x | x in room :: x in rest;
    assert forall x | x in rest :: x in d;
  }

  /** Every entry stems from a granted claim. */
  lemma {:induction false} EntriesAreJustified(h: seq<Claim>, n: nat, maxKeys: nat)
    requires maxKeys > 0 && n <= |h|
    ensures forall e | e in Claims(h, n, maxKeys) :: Justified(h, n, e.key, e.value, maxKeys)
  {
    hide ClaimStep;
    if n > 0 {
      EntriesAreJustified(h, n - 1, maxKeys);
      var d, c := Claims(h, n - 1, maxKeys), h[n - 1];
      forall e | e in Claims(h, n, maxKeys) ensures Justified(h, n, e.key, e.value, maxKeys) {
        NewEntry(d, c, maxKeys, e);
        if e !in d {
          assert Granted(h, n - 1, maxKeys);
        }
      }
    }
  }

  /** A claim is refused only while an earlier claim of the same key that succeeded has not expired. */
  lemma RefusalIsJustified(h: seq<Claim>, j: nat, maxKeys: nat)
    requires maxKeys > 0 && j < |h|
    ensures !Granted(h, j, maxKeys) ==>
              exists i: nat | i < j ::
                h[i].key == h[j].key && Granted(h, i, maxKeys) && h[i].now + h[i].ttl > h[j].now
  {
    EntriesAreJustified(h, j, maxKeys);
    hide Claims;
    if !Granted(h, j, maxKeys) {
      var expires := Find(Claims(h, j, maxKeys), h[j].key).value;
      assert Entry(h[j].key, expires) in Claims(h, j, maxKeys);
    }
  }

  /** Between claims i and j, fewer than maxKeys other keys are ever claimed without k being claimed again. */
  ghost predicate Undisturbed(h: seq<Claim>, k: Key, i: nat, j: nat, maxKeys: nat)
    requires i <= j <= |h|
  {
    forall m | i < m <= j :: |OthersSince(ClaimUses(h, m), k)| < maxKeys
  }

  lemma {:induction false} EntryPersists(h: seq<Claim>, i: nat, j: nat, maxKeys: nat)
    requires maxKeys > 0 && i < j <= |h| && ClaimClock(h) && Granted(h, i, maxKeys)
    requires forall m | i < m < j :: h[m].now < h[i].now + h[i].ttl
    requires Undisturbed(h, h[i].key, i, j, maxKeys)
    ensures Holds(Claims(h, j, maxKeys), h[i].key, h[i].now + h[i].ttl)
  {
    hide ClaimStep, InUseOrder, OthersSince, Holds;
    var k, expires, last := h[i].key, h[i].now + h[i].ttl, j - 1;
    if last == i {
      GrantedEntry(Claims(h, i, maxKeys), h[i], maxKeys);
    } else {
      EntryPersists(h, i, last, maxKeys);
      ClaimsStayOrdered(h, last, maxKeys);
      assert |OthersSince(ClaimUses(h, j), k)| < maxKeys;
      EntryKept(Claims(h, last, maxKeys), k, expires, h[last], maxKeys, ClaimUses(h, last));
    }
  }

  lemma GrantedEntry(d: seq<Entry<real>>, c: Claim, maxKeys: nat)
    requires maxKeys > 0 && ClaimStep(d, c, maxKeys).granted
    ensures Holds(ClaimStep(d, c, maxKeys).once, c.key, c.now + c.ttl)
  {
    hide Remove, Find, MakeRoom, ExpiredAt;
    var e := ClaimStep(d, c, maxKeys).once;
    assert e[|e| - 1] == Entry(c.key, c.now + c.ttl);
  }

  lemma EntryKept(d: seq<Entry<real>>, k: Key, expires: real, c: Claim, maxKeys: nat, uses: seq<Key>)
    requires maxKeys > 0 && InUseOrder(d, uses) && Holds(d, k, expires) && c.now < expires
    requires |OthersSince(uses + [c.key], k)| < maxKeys
    ensures Holds(ClaimStep(d, c, maxKeys).once, k, expires)
    ensures c.key == k ==> !ClaimStep(d, c, maxKeys).granted
  {
    if c.key == k {
      InUseOrderIsDistinct(d, uses);
      FindUnique(d, k, expires);
      var e := ClaimStep(d, c, maxKeys).once;
      assert e[|e| - 1] == Entry(k, expires);
    } else {
      SurvivesRoom(d, k, expires, c.key, ExpiredAt(c.now), maxKeys, uses);
    }
  }

  lemma {:induction false} FindUnique<V>(d: seq<Entry<V>>, k: Key, v: V)
    requires Distinct(d) && Holds(d, k, v)
    ensures Find(d, k) == Some(v)
  {
    if d[0].key != k {
      assert Holds(d[1..], k, v);
      FindUnique(d[1..], k, v);
    } else {
      var p :| 0 <= p < |d| && d[p] == Entry(k, v);
      assert p == 0;
    }
  }

  /** After a claim succeeded, every claim of its key before the expiry fails, unless maxKeys other keys came between
      two uses of the key. */
  lemma GrantedOncePerTtl(h: seq<Claim>, i: nat, j: nat, maxKeys: nat)
    requires maxKeys > 0 && i < j < |h| && ClaimClock(h)
    requires h[i].key == h[j].key && Granted(h, i, maxKeys) && h[j].now < h[i].now + h[i].ttl
    requires Undisturbed(h, h[i].key, i, j, maxKeys)
    ensures !Granted(h, j, maxKeys)
  {
    hide ClaimStep, InUseOrder;
    forall m | i < m < j ensures h[m].now < h[i].now + h[i].ttl {
      assert h[m].now <= h[j].now;
    }
    EntryPersists(h, i, j, maxKeys);
    ClaimsStayOrdered(h, j, maxKeys);
    HeldIsRefused(Claims(h, j, maxKeys), h[j], h[i].now + h[i].ttl, maxKeys, ClaimUses(h, j));
  }

  lemma HeldIsRefused(d: seq<Entry<real>>, c: Claim, expires: real, maxKeys: nat, uses: seq<Key>)
    requires maxKeys > 0 && InUseOrder(d, uses) && Holds(d, c.key, expires) && c.now < expires
    ensures !ClaimStep(d, c, maxKeys).granted
  {
    InUseOrderIsDistinct(d, uses);
    FindUnique(d, c.key, expires);
  }

  // -- Sliding windows -----------------------------------------------------------------------------

  /** The test `not v or v[-1] <= now - 3600` on hit lists. */
  function StaleAt(now: real): seq<real> -> bool {
    v => v == [] || v[|v| - 1] <= now - 3600.0
  }

  datatype HitResult = HitResult(windows: seq<Entry<seq<real>>>, count: nat)

  function HitStep(d: seq<Entry<seq<real>>>, e: Hit, maxKeys: nat): HitResult
    requires maxKeys > 0
  {
    var room := MakeRoom(Remove(d, e.key), StaleAt(e.now), maxKeys);
    var log := Record(LogOf(d, e.key), e.now, e.window, MAX_HITS_PER_KEY);
    HitResult(room + [Entry(e.key, log)], |log|)
  }

  /** The windows after the first n hits of a run. */
  ghost function Windows(h: seq<Hit>, n: nat, maxKeys: nat): seq<Entry<seq<real>>>
    requires maxKeys > 0 && n <= |h|
  {
    if n == 0 then [] else HitStep(Windows(h, n - 1, maxKeys), h[n - 1], maxKeys).windows
  }

  /** What hit j of a run returns. */
  ghost function HitCount(h: seq<Hit>, j: nat, maxKeys: nat): nat
    requires maxKeys > 0 && j < |h|
  {
    HitStep(Windows(h, j, maxKeys), h[j], maxKeys).count
  }

  lemma {:induction false} WindowsStayOrdered(h: seq<Hit>, n: nat, maxKeys: nat)
    requires maxKeys > 0 && n <= |h|
    ensures InUseOrder(Windows(h, n, maxKeys), HitUses(h[..n]))
    ensures |Windows(h, n, maxKeys)| <= maxKeys
  {
    hide HitStep, HitsOn;
    if n > 0 {
      WindowsStayOrdered(h, n - 1, maxKeys);
      HitsPrefix(h, n - 1);
      HitStepOrder(Windows(h, n - 1, maxKeys), h[n - 1], maxKeys, HitUses(h[..n - 1]));
    }
  }

  lemma HitStepOrder(d: seq<Entry<seq<real>>>, e: Hit, maxKeys: nat, uses: seq<Key>)
    requires maxKeys > 0 && InUseOrder(d, uses)
    ensures InUseOrder(HitStep(d, e, maxKeys).windows, uses + [e.key])
    ensures |HitStep(d, e, maxKeys).windows| <= maxKeys
  {
    hide InUseOrder, StaleAt, MakeRoom, Remove, LogOf, Record;
    var log := Record(LogOf(d, e.key), e.now, e.window, MAX_HITS_PER_KEY);
    ReinsertKeepsOrder(d, e.key, log, MakeRoom(Remove(d, e.key), StaleAt(e.now), maxKeys), uses);
  }

  lemma LogOfHeld(d: seq<Entry<seq<real>>>, k: Key, log: seq<real>)
    requires Distinct(d) && Holds(d, k, log)
    ensures LogOf(d, k) == log
  {
    FindUnique(d, k, log);
  }

  /** A hit on another key leaves the log alone or drops it. */
  lemma OtherHit(d: seq<Entry<seq<real>>>, k: Key, e: Hit, maxKeys: nat, uses: seq<Key>)
    requires maxKeys > 0 && InUseOrder(d, uses) && e.key != k
    ensures
      var d' := HitStep(d, e, maxKeys).windows;
      LogOf(d', k) == LogOf(d, k) || LogOf(d', k) == []
    ensures
      var d' := HitStep(d, e, maxKeys).windows;
      !StaleAt(e.now)(LogOf(d, k)) && |OthersSince(uses + [e.key], k)| < maxKeys ==> LogOf(d', k) == LogOf(d, k)
  {
    var d' := HitStep(d, e, maxKeys).windows;
    InUseOrderIsDistinct(d, uses);
    HitStepOrder(d, e, maxKeys, uses);
    InUseOrderIsDistinct(d', uses + [e.key]);
    var found := Find(d', k);
    if found.Some? {
      assert Entry(k, found.value) in Remove(d, e.key);
      LogOfHeld(d, k, found.value);
    }
    var before := Find(d, k);
    if before.Some? && !StaleAt(e.now)(before.value) && |OthersSince(uses + [e.key], k)| < maxKeys {
      SurvivesRoom(d, k, before.value, e.key, StaleAt(e.now), maxKeys, uses);
      assert Holds(d', k, before.value);
      LogOfHeld(d', k, before.value);
    }
  }

  /** Up to hit j, whenever key k has hits after the cutoff, fewer than maxKeys other keys were hit since its last one. */
  ghost predicate KeptSince(h: seq<Hit>, k: Key, cutoff: real, j: nat, maxKeys: nat)
    requires j <= |h|
  {
    forall m: nat | m <= j && After(HitsOn(h[..m], k), cutoff) != [] :: |OthersSince(HitUses(h[..m]), k)| < maxKeys
  }

  lemma {:induction false} LogStaysComplete(h: seq<Hit>, j: nat, m: nat, maxKeys: nat)
    requires maxKeys > 0 && m <= j < |h| && HitClock(h) && WindowsReach(h, j) && h[j].window <= 3600.0
    requires KeptSince(h, h[j].key, Cutoff(h[j]), j, maxKeys)
    ensures Complete(LogOf(Windows(h, m, maxKeys), h[j].key), HitsOn(h[..m], h[j].key), Cutoff(h[j]), MAX_HITS_PER_KEY)
  {
    hide HitStep, Record, InUseOrder, LogOf, OthersSince, After, HitUses, Sorted, Complete;
    var k, cutoff := h[j].key, Cutoff(h[j]);
    if m == 0 {
      CompleteAtStart(k, cutoff);
      assert h[..0] == [];
    } else {
      var last := m - 1;
      LogStaysComplete(h, j, last, maxKeys);
      HitsPrefix(h, last);
      HitsSorted(h[..m], k);
      var d, e, hits := Windows(h, last, maxKeys), h[last], HitsOn(h[..last], k);
      WindowsStayOrdered(h, last, maxKeys);
      assert e.now <= h[j].now;
      if e.key == k {
        OwnHit(d, e, maxKeys, HitUses(h[..last]));
        RecordKeepsComplete(LogOf(d, k), hits, e.now, e.window, MAX_HITS_PER_KEY, cutoff);
      } else {
        assert After(hits, cutoff) != [] ==> |OthersSince(HitUses(h[..last]) + [e.key], k)| < maxKeys;
        OtherHitComplete(d, k, e, maxKeys, HitUses(h[..last]), hits, cutoff);
      }
    }
  }

  lemma CompleteAtStart(k: Key, cutoff: real)
    ensures Complete(LogOf([], k), HitsOn([], k), cutoff, MAX_HITS_PER_KEY)
  {
  }

  lemma OwnHit(d: seq<Entry<seq<real>>>, e: Hit, maxKeys: nat, uses: seq<Key>)
    requires maxKeys > 0 && InUseOrder(d, uses)
    ensures
      var d' := HitStep(d, e, maxKeys).windows;
      LogOf(d', e.key) == Record(LogOf(d, e.key), e.now, e.window, MAX_HITS_PER_KEY)
  {
    hide Record, MakeRoom, LogOf;
    var d' := HitStep(d, e, maxKeys).windows;
    HitStepOrder(d, e, maxKeys, uses);
    InUseOrderIsDistinct(d', uses + [e.key]);
    assert d'[|d'| - 1] == Entry(e.key, Record(LogOf(d, e.key), e.now, e.window, MAX_HITS_PER_KEY));
    LogOfHeld(d', e.key, d'[|d'| - 1].value);
  }

  lemma OtherHitComplete(d: seq<Entry<seq<real>>>, k: Key, e: Hit, maxKeys: nat, uses: seq<Key>, hits: seq<real>,
                         cutoff: real)
    requires maxKeys > 0 && InUseOrder(d, uses) && e.key != k && Sorted(hits)
    requires Complete(LogOf(d, k), hits, cutoff, MAX_HITS_PER_KEY)
    requires e.now - 3600.0 <= cutoff
    requires After(hits, cutoff) != [] ==> |OthersSince(uses + [e.key], k)| < maxKeys
    ensures Complete(LogOf(HitStep(d, e, maxKeys).windows, k), hits, cutoff, MAX_HITS_PER_KEY)
  {
    hide HitStep, LogOf, OthersSince, InUseOrder;
    OtherHit(d, k, e, maxKeys, uses);
    var log := LogOf(d, k);
    if After(hits, cutoff) != [] {
      assert log != [] && log[|log| - 1] == hits[|hits| - 1];
      AfterIsSuffix(hits, cutoff);
      assert hits[|hits| - 1] == After(hits, cutoff)[|After(hits, cutoff)| - 1];
      assert hits[|hits| - 1] in After(hits, cutoff);
    }
  }

  lemma CountsItsLog(d: seq<Entry<seq<real>>>, e: Hit, maxKeys: nat)
    requires maxKeys > 0
    ensures HitStep(d, e, maxKeys).count == |Record(LogOf(d, e.key), e.now, e.window, MAX_HITS_PER_KEY)|
  {
    hide MakeRoom, Remove, LogOf, Record;
  }

  /** A hit returns the number of hits on its key in its window, this one included, or the cap if that is lower. It
      holds for windows of at most an hour, if the clock never runs backwards, no counted hit used a narrower window
      (as when each key has one fixed window), and after each counted hit fewer than maxKeys other keys are hit before
      the next one. */
  lemma HitIsExact(h: seq<Hit>, j: nat, maxKeys: nat)
    requires maxKeys > 0 && j < |h| && HitClock(h) && WindowsReach(h, j) && h[j].window <= 3600.0
    requires KeptSince(h, h[j].key, Cutoff(h[j]), j, maxKeys)
    ensures HitCount(h, j, maxKeys) == Min(MAX_HITS_PER_KEY, TrueHits(h, j))
  {
    hide HitStep, LogOf, OthersSince, After, HitUses, Sorted, Complete, KeptSince, WindowsReach, Record, Windows;
    LogStaysComplete(h, j, j, maxKeys);
    SortedWithNext(h, j);
    CountsItsLog(Windows(h, j, maxKeys), h[j], maxKeys);
    RecordIsExact(LogOf(Windows(h, j, maxKeys), h[j].key), HitsOn(h[..j], h[j].key), h[j].now, h[j].window,
                  MAX_HITS_PER_KEY);
  }

  // -- The class -----------------------------------------------------------------------------------

  class MemoryStore {
    const maxKeys: nat
    var once: seq<Entry<real>>
    var windows: seq<Entry<seq<real>>>

    constructor (max: int)
      ensures maxKeys == if max < 1 then 1 else max
      ensures once == Claims([], 0, maxKeys) && windows == Windows([], 0, maxKeys)
    {
      maxKeys := if max < 1 then 1 else max;
      once := [];
      windows := [];
    }

    method ClaimOnce(key: Key, now: real, ttl: real) returns (granted: bool)
      requires maxKeys > 0
      modifies this`once
      ensures ClaimResult(once, granted) == ClaimStep(old(once), Claim(key, now, ttl), maxKeys)
    {
      hide MakeRoom, DropExpired, DropOldest, Remove, Find, ExpiredAt;
      var expires := Find(once, key);
      once := Remove(once, key);
      if expires.Some? && expires.value > now {
        once := once + [Entry(key, expires.value)];
        granted := false;
      } else {
        once := MakeRoomFor(once, ExpiredAt(now), maxKeys);
        once := once + [Entry(key, now + ttl)];
        granted := true;
      }
    }

    method Hit(key: Key, now: real, window: real) returns (count: nat)
      requires maxKeys > 0
      modifies this`windows
      ensures HitResult(windows, count) == HitStep(old(windows), SlidingLog.Hit(key, now, window), maxKeys)
    {
      hide MakeRoom, DropExpired, DropOldest, Remove, LogOf, After, LastN;
      var previous := LogOf(windows, key);
      windows := Remove(windows, key);
      windows := MakeRoomFor(windows, StaleAt(now), maxKeys);
      var hits := After(previous, now - window) + [now];
      windows := windows + [Entry(key, LastN(hits, MAX_HITS_PER_KEY))];
      count := |LastN(hits, MAX_HITS_PER_KEY)|;
    }
  }
}
