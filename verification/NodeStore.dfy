/**
 The in-process store of the Node server: unbounded maps that a timer cleans up now and then. Times are milliseconds.
 Wherever the timer fires, claims and counts are those of a store that never forgets.
 */
module NodeStore {
  import opened Basics
  import opened SlidingLog

  const HOUR := 3_600_000.0

  // -- Claims --------------------------------------------------------------------------------------

  datatype ClaimEvent = Claim(key: string, now: real, ttl: real) | CleanClaims(now: real)

  /** `cleanup` on the claims. */
  function CleanedClaims(once: map<string, real>, now: real): map<string, real> {
    map k | k in once && !(once[k] <= now) :: once[k]
  }

  predicate Free(once: map<string, real>, k: string, now: real) {
    k !in once || once[k] <= now
  }

  function ClaimStep(once: map<string, real>, e: ClaimEvent): map<string, real> {
    match e
    case CleanClaims(now) => CleanedClaims(once, now)
    case Claim(k, now, ttl) => if Free(once, k, now) then once[k := now + ttl] else once
  }

  ghost function Claims(h: seq<ClaimEvent>): map<string, real> {
    if h == [] then map[] else ClaimStep(Claims(h[..|h| - 1]), h[|h| - 1])
  }

  ghost predicate Granted(h: seq<ClaimEvent>, i: nat)
    requires i < |h|
  {
    h[i].Claim? && Free(Claims(h[..i]), h[i].key, h[i].now)
  }

  ghost predicate ClaimClock(h: seq<ClaimEvent>) {
    forall i, j | 0 <= i < j < |h| :: h[i].now <= h[j].now
  }

  /** Claim i succeeded for key k and has not expired at `now`. */
  ghost predicate Blocks(h: seq<ClaimEvent>, i: nat, k: string, now: real)
    requires i < |h|
  {
    h[i].Claim? && h[i].key == k && Granted(h, i) && h[i].now + h[i].ttl > now
  }

  /** A key is taken at a later time exactly when some earlier claim of it blocks. */
  lemma {:induction false} TakenIffBlocked(h: seq<ClaimEvent>, k: string, now: real)
    requires ClaimClock(h) && (h != [] ==> h[|h| - 1].now <= now)
    ensures !Free(Claims(h), k, now) <==> exists i: nat | i < |h| :: Blocks(h, i, k, now)
  {
    if h != [] {
      var last := |h| - 1;
      var front, e := h[..last], h[last];
      assert front != [] ==> front[|front| - 1].now <= now;
      TakenIffBlocked(front, k, now);
      assert front + [e] == h;
      BlocksAppend(front, e, k, now);
      hide Free, Blocks, ClaimStep;
    }
  }

  lemma BlocksAppend(h: seq<ClaimEvent>, e: ClaimEvent, k: string, now: real)
    ensures
      var blocks := e.Claim? && e.key == k && Free(Claims(h), k, e.now) && e.now + e.ttl > now;
      (exists i: nat | i < |h| + 1 :: Blocks(h + [e], i, k, now))
      <==> blocks || exists i: nat | i < |h| :: Blocks(h, i, k, now)
  {
    hide Claims, Free;
    var all := h + [e];
    assert all[..|h|] == h;
    forall i: nat | i < |h| ensures Blocks(h, i, k, now) == Blocks(all, i, k, now) {
      assert h[..i] == all[..i];
    }
    if exists i: nat | i < |h| :: Blocks(h, i, k, now) {
      var i: nat :| i < |h| && Blocks(h, i, k, now);
      assert Blocks(all, i, k, now);
    }
    assert Blocks(all, |h|, k, now) <==> e.Claim? && e.key == k && Free(Claims(h), k, e.now) && e.now + e.ttl > now;
  }

  /** In every run a claim succeeds exactly when no earlier claim of its key that succeeded is still unexpired. */
  lemma ClaimIsExact(h: seq<ClaimEvent>, j: nat)
    requires j < |h| && h[j].Claim? && ClaimClock(h)
    ensures Granted(h, j) <==> forall i: nat | i < j :: !Blocks(h, i, h[j].key, h[j].now)
  {
    TakenIffBlocked(h[..j], h[j].key, h[j].now);
    forall i: nat | i < j ensures Blocks(h[..j], i, h[j].key, h[j].now) == Blocks(h, i, h[j].key, h[j].now) {
      assert h[..j][..i] == h[..i];
    }
  }

  // -- Sliding windows -----------------------------------------------------------------------------

  datatype HitEvent = HitOf(hit: Hit) | CleanWindows(at: real)

  function At(e: HitEvent): real {
    match e
    case HitOf(hit) => hit.now
    case CleanWindows(at) => at
  }

  function WindowOf(windows: map<string, seq<real>>, k: string): seq<real> {
    if k in windows then windows[k] else []
  }

  /** `cleanup` on the windows: a key without a hit in the last hour goes. */
  function CleanedWindows(windows: map<string, seq<real>>, now: real): map<string, seq<real>> {
    map k | k in windows && !(windows[k] == [] || windows[k][|windows[k]| - 1] < now - HOUR) :: windows[k]
  }

  function HitStep(windows: map<string, seq<real>>, e: HitEvent): map<string, seq<real>> {
    match e
    case CleanWindows(at) => CleanedWindows(windows, at)
    case HitOf(hit) =>
      windows[hit.key := Record(WindowOf(windows, hit.key), hit.now, hit.window, MAX_HITS_PER_KEY)]
  }

  ghost function Windows(h: seq<HitEvent>): map<string, seq<real>> {
    if h == [] then map[] else HitStep(Windows(h[..|h| - 1]), h[|h| - 1])
  }

  /** The hits of a run, without the timer. */
  ghost function HitsIn(h: seq<HitEvent>): seq<Hit> {
    if h == [] then []
    else if h[|h| - 1].HitOf? then HitsIn(h[..|h| - 1]) + [h[|h| - 1].hit]
    else HitsIn(h[..|h| - 1])
  }

  ghost predicate EventClock(h: seq<HitEvent>) {
    forall i, j | 0 <= i < j < |h| :: At(h[i]) <= At(h[j])
  }

  ghost predicate EventsReach(h: seq<HitEvent>, hit: Hit) {
    forall m | 0 <= m < |h| && h[m].HitOf? && h[m].hit.key == hit.key && h[m].hit.now > Cutoff(hit) ::
      h[m].hit.window >= hit.window
  }

  lemma {:induction false} TimesSorted(h: seq<HitEvent>, k: string)
    requires EventClock(h)
    ensures Sorted(HitsOn(HitsIn(h), k))
    ensures h != [] ==> AllUpTo(HitsOn(HitsIn(h), k), At(h[|h| - 1]))
  {
    if h != [] {
      var front := h[..|h| - 1];
      TimesSorted(front, k);
      if front != [] {
        assert At(front[|front| - 1]) <= At(h[|h| - 1]);
      }
      hide Sorted, AllUpTo, HitsOn;
      if front != [] {
        UpToLater(HitsOn(HitsIn(front), k), At(front[|front| - 1]), At(h[|h| - 1]));
      } else {
        NoHitsSorted(k, At(h[|h| - 1]));
      }
      if h[|h| - 1].HitOf? {
        SortedAppend(HitsOn(HitsIn(front), k), At(h[|h| - 1]));
      }
    }
  }

  lemma NoHitsSorted(k: string, t: real)
    ensures Sorted(HitsOn([], k)) && AllUpTo(HitsOn([], k), t)
  {
  }

  lemma SortedAppend(s: seq<real>, t: real)
    requires Sorted(s) && AllUpTo(s, t)
    ensures Sorted(s + [t]) && AllUpTo(s + [t], t)
  {
  }

  lemma {:induction false} LogStaysComplete(h: seq<HitEvent>, hit: Hit)
    requires EventClock(h + [HitOf(hit)]) && EventsReach(h, hit) && hit.window <= HOUR
    ensures Complete(WindowOf(Windows(h), hit.key), HitsOn(HitsIn(h), hit.key), Cutoff(hit), MAX_HITS_PER_KEY)
  {
    if h != [] {
      var front, e := h[..|h| - 1], h[|h| - 1];
      EarlierClock(h, hit);
      LogStaysComplete(front, hit);
      TimesSorted(h, hit.key);
      TimesSorted(front, hit.key);
      var hits := HitsOn(HitsIn(front), hit.key);
      if e.HitOf? {
        if e.hit.key == hit.key {
          RecordKeepsComplete(WindowOf(Windows(front), hit.key), hits, e.hit.now, e.hit.window, MAX_HITS_PER_KEY,
                              Cutoff(hit));
        }
      } else {
        CleanupKeepsComplete(Windows(front), hit.key, hits, e.at, Cutoff(hit));
      }
    }
  }

  lemma EarlierClock(h: seq<HitEvent>, hit: Hit)
    requires EventClock(h + [HitOf(hit)]) && h != []
    ensures EventClock(h) && EventClock(h[..|h| - 1] + [HitOf(hit)]) && EventClock(h[..|h| - 1])
    ensures At(h[|h| - 1]) <= hit.now
  {
    var all := h + [HitOf(hit)];
    assert forall i | 0 <= i < |h| :: h[i] == all[i];
    assert At(all[|h| - 1]) <= At(all[|h|]);
    var fewer := h[..|h| - 1] + [HitOf(hit)];
    forall i, j | 0 <= i < j < |fewer| ensures At(fewer[i]) <= At(fewer[j]) {
      assert At(all[i]) <= At(all[if j < |h| - 1 then j else |h|]);
    }
  }

  /** The timer removes a key only when none of its hits can be counted any more. */
  lemma CleanupKeepsComplete(windows: map<string, seq<real>>, k: string, hits: seq<real>, at: real, cutoff: real)
    requires Complete(WindowOf(windows, k), hits, cutoff, MAX_HITS_PER_KEY) && Sorted(hits) && at - HOUR <= cutoff
    ensures Complete(WindowOf(CleanedWindows(windows, at), k), hits, cutoff, MAX_HITS_PER_KEY)
  {
    if k in windows && k !in CleanedWindows(windows, at) {
      if hits != [] && windows[k] != [] {
        assert hits[|hits| - 1] == windows[k][|windows[k]| - 1];
        NothingAfter(hits, cutoff);
      }
    }
  }

  // -- The class -----------------------------------------------------------------------------------

  class NodeMemoryStore {
    var once: map<string, real>
    var windows: map<string, seq<real>>

    constructor ()
      ensures once == Claims([]) && windows == Windows([])
    {
      once, windows := map[], map[];
    }

    method ClaimOnce(key: string, now: real, ttl: real) returns (granted: bool)
      modifies this`once
      ensures once == ClaimStep(old(once), Claim(key, now, ttl))
      ensures granted == Free(old(once), key, now)
    {
      if key in once && once[key] > now {
        return false;
      }
      once := once[key := now + ttl];
      return true;
    }

    /** The history of the key up to now is a ghost argument: it is what the count is compared with. */
    method Hit(key: string, now: real, window: real, ghost h: seq<HitEvent>) returns (count: nat)
      requires windows == Windows(h)
      requires EventClock(h + [HitOf(SlidingLog.Hit(key, now, window))])
      requires EventsReach(h, SlidingLog.Hit(key, now, window)) && window <= HOUR
      modifies this`windows
      ensures windows == Windows(h + [HitOf(SlidingLog.Hit(key, now, window))])
      ensures count == Min(MAX_HITS_PER_KEY, |After(HitsOn(HitsIn(h), key), now - window)| + 1)
    {
      hide Complete, Sorted, After, Windows, HitsIn, EventsReach, EventClock;
      ghost var hit := SlidingLog.Hit(key, now, window);
      var hits := WindowOf(windows, key);
      ghost var log := hits;
      LogStaysCompleteWith(h, hit);
      var drop := 0;
      while drop < |hits| && hits[drop] <= now - window
        invariant 0 <= drop <= |hits|
        invariant forall i | 0 <= i < drop :: hits[i] <= now - window
      {
        drop := drop + 1;
      }
      DroppedPrefix(hits, drop, now - window);
      hits := hits[drop..] + [now];
      if |hits| > MAX_HITS_PER_KEY {
        hits := hits[|hits| - MAX_HITS_PER_KEY..];
      }
      windows := windows[key := hits];
      count := |hits|;
    }

    method Cleanup(now: real)
      modifies this
      ensures once == CleanedClaims(old(once), now) && windows == CleanedWindows(old(windows), now)
    {
      once := map k | k in once && !(once[k] <= now) :: once[k];
      windows := map k | k in windows && !(windows[k] == [] || windows[k][|windows[k]| - 1] < now - HOUR) :: windows[k];
    }
  }

  /** What the method needs to know of its history. */
  lemma {:induction false} LogStaysCompleteWith(h: seq<HitEvent>, hit: Hit)
    requires EventClock(h + [HitOf(hit)]) && EventsReach(h, hit) && hit.window <= HOUR
    ensures
      var log := WindowOf(Windows(h), hit.key);
      && Sorted(log)
      && |Record(log, hit.now, hit.window, MAX_HITS_PER_KEY)|
         == Min(MAX_HITS_PER_KEY, |After(HitsOn(HitsIn(h), hit.key), Cutoff(hit))| + 1)
    ensures Windows(h + [HitOf(hit)]) == HitStep(Windows(h), HitOf(hit))
  {
    assert (h + [HitOf(hit)])[..|h|] == h;
    hide After, HitsOn, HitsIn, HitStep, Record;
    LogStaysComplete(h, hit);
    SortedTimes(h, hit);
    SortedPrefix(HitsOn(HitsIn(h), hit.key), hit.now);
    RecordIsExact(WindowOf(Windows(h), hit.key), HitsOn(HitsIn(h), hit.key), hit.now, hit.window, MAX_HITS_PER_KEY);
  }

  lemma SortedTimes(h: seq<HitEvent>, hit: Hit)
    requires EventClock(h + [HitOf(hit)])
    ensures Sorted(HitsOn(HitsIn(h), hit.key) + [hit.now])
  {
    var all := h + [HitOf(hit)];
    assert all[..|h|] == h;
    TimesSorted(all, hit.key);
  }

  /** Dropping the sorted prefix up to a cutoff leaves the times after it. */
  lemma {:induction false} DroppedPrefix(hits: seq<real>, drop: nat, cutoff: real)
    requires drop <= |hits| && Sorted(hits)
    requires forall i | 0 <= i < drop :: hits[i] <= cutoff
    requires drop < |hits| ==> hits[drop] > cutoff
    ensures hits[drop..] == After(hits, cutoff)
  {
    if drop == |hits| {
      NothingAfter(hits, cutoff);
    } else {
      SplitAtDrop(hits, drop, cutoff);
    }
  }

  lemma {:induction false} SplitAtDrop(hits: seq<real>, drop: nat, cutoff: real)
    requires drop <= |hits| && Sorted(hits)
    requires forall i | 0 <= i < drop :: hits[i] <= cutoff
    requires forall i | drop <= i < |hits| :: hits[i] > cutoff
    ensures hits[drop..] == After(hits, cutoff)
  {
    if drop == |hits| {
      NothingAfter(hits, cutoff);
    } else {
      var last := |hits| - 1;
      SplitAtDrop(hits[..last], drop, cutoff);
      assert hits[drop..] == hits[..last][drop..] + [hits[last]];
    }
  }

  /** The timer leaves exactly the claims that have not expired, and the windows with a hit in the last hour. */
  lemma CleanupLeaves(once: map<string, real>, windows: map<string, seq<real>>, now: real, k: string)
    ensures k in CleanedClaims(once, now) <==> k in once && now < once[k]
    ensures k in CleanedWindows(windows, now) <==>
              k in windows && windows[k] != [] && now <= windows[k][|windows[k]| - 1] + 3_600_000.0
    ensures k in CleanedClaims(once, now) ==> CleanedClaims(once, now)[k] == once[k]
    ensures k in CleanedWindows(windows, now) ==> CleanedWindows(windows, now)[k] == windows[k]
  {
  }
}
