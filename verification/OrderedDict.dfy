/**
 Python's OrderedDict as the stores use it: entries in order of their last insertion, least recently inserted first.
 Every write takes the key out, makes room at the front and puts the key back at the end. The order is compared with a
 history of uses: an entry is only pushed out by as many other keys, used since its own last use, as the dictionary
 holds.
 */
module OrderedDict {
  import opened Basics
  import opened Wrappers

  type Key = string

  datatype Entry<V> = Entry(key: Key, value: V)

  function Keys<V>(d: seq<Entry<V>>): (ks: set<Key>)
    ensures forall i | 0 <= i < |d| :: d[i].key in ks
    ensures forall k | k in ks :: exists i | 0 <= i < |d| :: d[i].key == k
  {
    if d == [] then {} else Keys(d[..|d| - 1]) + {d[|d| - 1].key}
  }

  ghost predicate Distinct<V>(d: seq<Entry<V>>) {
    forall i, j | 0 <= i < j < |d| :: d[i].key != d[j].key
  }

  ghost predicate Holds<V>(d: seq<Entry<V>>, k: Key, v: V) {
    Entry(k, v) in d
  }

  /** `d.get(k)`. */
  function Find<V>(d: seq<Entry<V>>, k: Key): (r: Option<V>)
    ensures r.Some? ==> Holds(d, k, r.value)
    ensures r.None? ==> forall i | 0 <= i < |d| :: d[i].key != k
  {
    if d == [] then None else if d[0].key == k then Some(d[0].value) else Find(d[1..], k)
  }

  /** The list under a key, empty if there is none. */
  function LogOf<T>(d: seq<Entry<seq<T>>>, k: Key): seq<T> {
    var found := Find(d, k);
    if found.Some? then found.value else []
  }

  lemma {:induction false} FindNone<V>(d: seq<Entry<V>>, k: Key)
    requires forall e | e in d :: e.key != k
    ensures Find(d, k) == None
  {
    if d != [] {
      assert d[0] in d;
      FindNone(d[1..], k);
    }
  }

  /** `del d[k]`, if k is there. */
  function Remove<V>(d: seq<Entry<V>>, k: Key): (r: seq<Entry<V>>)
    ensures |r| <= |d|
    ensures forall e | e in r :: e in d && e.key != k
    ensures forall e | e in d && e.key != k :: e in r
  {
    if d == [] then [] else if d[0].key == k then Remove(d[1..], k) else [d[0]] + Remove(d[1..], k)
  }

  /** Where the expired entries from position i on end, or `budget` of them. */
  function ExpiredEnd<V>(d: seq<Entry<V>>, expired: V -> bool, i: nat, budget: nat): (n: nat)
    requires i <= |d|
    ensures i <= n <= |d| && n - i <= budget && (n - i == budget || n == |d| || !expired(d[n].value))
    ensures forall j | i <= j < n :: expired(d[j].value)
    decreases budget
  {
    if budget == 0 || i == |d| || !expired(d[i].value) then i else ExpiredEnd(d, expired, i + 1, budget - 1)
  }

  /** Up to `budget` expired entries leave from the front. */
  function DropExpired<V>(d: seq<Entry<V>>, expired: V -> bool, budget: nat): (r: seq<Entry<V>>)
    ensures |r| <= |d| && r == d[|d| - |r|..]
  {
    d[ExpiredEnd(d, expired, 0, budget)..]
  }

  /** Entries leave from the front until there is room for one more. */
  function DropOldest<V>(d: seq<Entry<V>>, maxKeys: nat): (r: seq<Entry<V>>)
    requires maxKeys > 0
    ensures |r| < maxKeys && |r| <= |d| && r == d[|d| - |r|..]
  {
    if |d| >= maxKeys then d[|d| - maxKeys + 1..] else d
  }

  /** `_make_room`, before an insert. */
  function MakeRoom<V>(d: seq<Entry<V>>, expired: V -> bool, maxKeys: nat): (r: seq<Entry<V>>)
    requires maxKeys > 0
    ensures |r| < maxKeys && |r| <= |d| && r == d[|d| - |r|..]
  {
    DropOldest(DropExpired(d, expired, 8), maxKeys)
  }

  /** Where there is room, the entries that leave are expired and at the front: all of them, but at most eight. */
  lemma RoomDropsEight<V>(d: seq<Entry<V>>, expired: V -> bool, maxKeys: nat)
    requires |d| < maxKeys
    ensures
      var r := MakeRoom(d, expired, maxKeys);
      var n := |d| - |r|;
      && n <= 8 && r == d[n..] && (forall i | 0 <= i < n :: expired(d[i].value))
      && (n == 8 || r == [] || !expired(r[0].value))
  {
  }

  // -- Order of last use ---------------------------------------------------------------------------

  /** The distinct other keys used since the last use of k in a history of uses. */
  ghost function OthersSince(uses: seq<Key>, k: Key): set<Key> {
    if uses == [] || uses[|uses| - 1] == k then {} else OthersSince(uses[..|uses| - 1], k) + {uses[|uses| - 1]}
  }

  /** Least recently used first: every later entry's key was used since the earlier entry's. */
  ghost predicate InUseOrder<V>(d: seq<Entry<V>>, uses: seq<Key>) {
    forall i, j | 0 <= i < j < |d| :: d[j].key in OthersSince(uses, d[i].key)
  }

  lemma {:induction false} NotItself(uses: seq<Key>, k: Key)
    ensures k !in OthersSince(uses, k)
  {
    if uses != [] && uses[|uses| - 1] != k {
      NotItself(uses[..|uses| - 1], k);
    }
  }

  lemma InUseOrderIsDistinct<V>(d: seq<Entry<V>>, uses: seq<Key>)
    requires InUseOrder(d, uses)
    ensures Distinct(d)
  {
    forall i, j | 0 <= i < j < |d| ensures d[i].key != d[j].key {
      NotItself(uses, d[i].key);
    }
  }

  lemma UseAppend(uses: seq<Key>, k: Key, other: Key)
    ensures OthersSince(uses + [k], other) == if k == other then {} else OthersSince(uses, other) + {k}
  {
    assert (uses + [k])[..|uses|] == uses;
  }

  /** The distinct other keys between position i and position m of a history of uses. */
  ghost function UsedBetween(uses: seq<Key>, i: nat, m: nat): set<Key>
    requires i < m <= |uses|
  {
    set k | i < k < m && uses[k] != uses[i] :: uses[k]
  }

  lemma {:induction false} OthersAreUsedBetween(uses: seq<Key>, i: nat, m: nat)
    requires i < m <= |uses|
    ensures OthersSince(uses[..m], uses[i]) <= UsedBetween(uses, i, m)
  {
    assert uses[..m][..m - 1] == uses[..m - 1];
    if m - 1 > i {
      OthersAreUsedBetween(uses, i, m - 1);
    }
  }

  lemma UsedBetweenGrows(uses: seq<Key>, i: nat, m: nat)
    requires i + 1 < m <= |uses|
    ensures |UsedBetween(uses, i, m - 1)| <= |UsedBetween(uses, i, m)|
  {
    SubsetSize(UsedBetween(uses, i, m - 1), UsedBetween(uses, i, m));
  }

  lemma {:induction false} RemoveKeepsOrder<V>(d: seq<Entry<V>>, k: Key, uses: seq<Key>)
    requires InUseOrder(d, uses)
    ensures InUseOrder(Remove(d, k), uses)
  {
    if d != [] {
      hide OthersSince;
      var rest := d[1..];
      RemoveKeepsOrder(rest, k, uses);
      if d[0].key != k {
        var r := Remove(rest, k);
        forall j | 0 <= j < |r| ensures r[j].key in OthersSince(uses, d[0].key) {
          assert r[j] in rest;
          var m :| 0 <= m < |rest| && rest[m] == r[j];
          assert d[m + 1] == r[j];
        }
        ConsKeepsOrder(d[0], r, uses);
      }
    }
  }

  lemma ConsKeepsOrder<V>(e: Entry<V>, r: seq<Entry<V>>, uses: seq<Key>)
    requires InUseOrder(r, uses) && forall j | 0 <= j < |r| :: r[j].key in OthersSince(uses, e.key)
    ensures InUseOrder([e] + r, uses)
  {
    hide OthersSince;
    var all := [e] + r;
    forall i, j | 0 <= i < j < |all| ensures all[j].key in OthersSince(uses, all[i].key) {
      assert all[j] == r[j - 1];
      assert i > 0 ==> all[i] == r[i - 1];
    }
  }

  /** Taking k out and, after entries left from the front, putting it at the end keeps the order of last use. */
  lemma ReinsertKeepsOrder<V>(d: seq<Entry<V>>, k: Key, v: V, room: seq<Entry<V>>, uses: seq<Key>)
    requires InUseOrder(d, uses)
    requires
      var rest := Remove(d, k);
      |room| <= |rest| && room == rest[|rest| - |room|..]
    ensures InUseOrder(room + [Entry(k, v)], uses + [k])
  {
    hide Remove, OthersSince;
    RemoveKeepsOrder(d, k, uses);
    var rest := Remove(d, k);
    var all := room + [Entry(k, v)];
    forall i, j | 0 <= i < j < |all| ensures all[j].key in OthersSince(uses + [k], all[i].key) {
      assert all[i] == rest[|rest| - |room| + i];
      UseAppend(uses, k, all[i].key);
      if j < |room| {
        assert all[j] == rest[|rest| - |room| + j];
      }
    }
  }

  lemma {:induction false} DistinctKeyCount<V>(d: seq<Entry<V>>)
    requires Distinct(d)
    ensures |Keys(d)| == |d|
  {
    if d != [] {
      var front := d[..|d| - 1];
      DistinctKeyCount(front);
      assert d[|d| - 1].key !in Keys(front);
    }
  }

  /** The entries behind position p, and one more key, were all used since the entry at p. */
  lemma LaterEntriesAreRecent<V>(rest: seq<Entry<V>>, p: nat, other: Key, uses: seq<Key>)
    requires p < |rest| && InUseOrder(rest, uses) && (forall e | e in rest :: e.key != other)
    ensures |rest| - p <= |OthersSince(uses + [other], rest[p].key)|
  {
    var k := rest[p].key;
    var later := rest[p + 1..];
    forall j | 0 <= j < |later| ensures later[j].key in OthersSince(uses, k) && later[j].key != other {
      assert later[j] == rest[p + 1 + j];
    }
    InUseOrderIsDistinct(later, uses);
    DistinctKeyCount(later);
    UseAppend(uses, other, k);
    assert other !in Keys(later);
    SubsetSize(Keys(later) + {other}, OthersSince(uses + [other], k));
  }

  lemma RoomKeepsPosition<V>(rest: seq<Entry<V>>, p: nat, expired: V -> bool, maxKeys: nat)
    requires maxKeys > 0 && p < |rest| && !expired(rest[p].value) && |rest| - p < maxKeys
    ensures rest[p] in MakeRoom(rest, expired, maxKeys)
  {
    var live := DropExpired(rest, expired, 8);
    assert p >= |rest| - |live|;
    var room := MakeRoom(rest, expired, maxKeys);
    assert room[p - (|rest| - |room|)] == rest[p];
  }

  /** An entry that is not expired survives making room for another key, unless that key completes `maxKeys` other
      keys used since the entry's own. */
  lemma SurvivesRoom<V>(d: seq<Entry<V>>, k: Key, v: V, other: Key, expired: V -> bool, maxKeys: nat, uses: seq<Key>)
    requires maxKeys > 0 && InUseOrder(d, uses) && Holds(d, k, v) && other != k && !expired(v)
    requires |OthersSince(uses + [other], k)| < maxKeys
    ensures Holds(MakeRoom(Remove(d, other), expired, maxKeys), k, v)
  {
    var rest := Remove(d, other);
    RemoveKeepsOrder(d, other, uses);
    var p :| 0 <= p < |rest| && rest[p] == Entry(k, v);
    LaterEntriesAreRecent(rest, p, other, uses);
    RoomKeepsPosition(rest, p, expired, maxKeys);
  }

  lemma RoomInTwoLoops<V>(d: seq<Entry<V>>, expired: V -> bool, maxKeys: nat)
    requires maxKeys > 0
    ensures MakeRoom(d, expired, maxKeys) == DropOldest(DropExpired(d, expired, 8), maxKeys)
  {
    hide DropExpired, DropOldest;
  }

  /** The first loop of `_make_room`. */
  method DropExpiredLoop<V>(d: seq<Entry<V>>, expired: V -> bool, budget: nat) returns (r: seq<Entry<V>>)
    ensures r == DropExpired(d, expired, budget)
  {
    r := d;
    for i := 0 to budget
      invariant i <= |d| && r == d[i..]
      invariant ExpiredEnd(d, expired, 0, budget) == ExpiredEnd(d, expired, i, budget - i)
    {
      if r == [] || !expired(r[0].value) {
        break;
      }
      r := r[1..];
    }
  }

  /** The second loop of `_make_room`. */
  method DropOldestLoop<V>(d: seq<Entry<V>>, maxKeys: nat) returns (r: seq<Entry<V>>)
    requires maxKeys > 0
    ensures r == DropOldest(d, maxKeys)
  {
    r := d;
    ghost var dropped: nat := 0;
    while |r| >= maxKeys
      invariant dropped <= |d| && r == d[dropped..] && (dropped > 0 ==> |r| >= maxKeys - 1)
    {
      r := r[1..];
      dropped := dropped + 1;
    }
  }

  /** `_make_room`: both loops. */
  method MakeRoomFor<V>(d: seq<Entry<V>>, expired: V -> bool, maxKeys: nat) returns (r: seq<Entry<V>>)
    requires maxKeys > 0
    ensures r == MakeRoom(d, expired, maxKeys)
  {
    RoomInTwoLoops(d, expired, maxKeys);
    hide MakeRoom, DropExpired, DropOldest;
    r := DropExpiredLoop(d, expired, 8);
    r := DropOldestLoop(r, maxKeys);
  }
}
