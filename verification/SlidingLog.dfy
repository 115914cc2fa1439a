/**
 A sliding-window log: the times of the hits on one key, trimmed to the window and to a cap. Trimming never changes a
 later count below the cap, as long as the clock does not run backwards.
 */
module SlidingLog {
  import opened Basics

  /** Both stores keep at most this many hits of a key. */
  const MAX_HITS_PER_KEY := 10_000

  ghost predicate Sorted(s: seq<real>) {
    forall i, j | 0 <= i < j < |s| :: s[i] <= s[j]
  }

  /** The times after `cutoff`, in order. */
  function After(s: seq<real>, cutoff: real): (r: seq<real>)
    ensures |r| <= |s|
    ensures forall t | t in r :: t > cutoff && t in s
  {
    if s == [] then []
    else if s[|s| - 1] > cutoff then After(s[..|s| - 1], cutoff) + [s[|s| - 1]]
    else After(s[..|s| - 1], cutoff)
  }

  /** The last n elements. */
  function LastN<T>(s: seq<T>, n: nat): (r: seq<T>)
    ensures |r| == if |s| <= n then |s| else n
  {
    if |s| <= n then s else s[|s| - n..]
  }

  /** The log after a hit: old hits dropped, the hit added, at most `cap` kept. */
  function Record(log: seq<real>, now: real, window: real, cap: nat): seq<real> {
    LastN(After(log, now - window) + [now], cap)
  }

  ghost predicate IsSuffix<T>(s: seq<T>, t: seq<T>) {
    |s| <= |t| && s == t[|t| - |s|..]
  }

  /** The log holds the most recent hits, and all of those after `cutoff` up to the cap. */
  ghost predicate Complete(log: seq<real>, hits: seq<real>, cutoff: real, cap: nat) {
    IsSuffix(log, hits) && |log| >= Min(cap, |After(hits, cutoff)|)
  }

  ghost predicate AllUpTo(s: seq<real>, cutoff: real) {
    forall i | 0 <= i < |s| :: s[i] <= cutoff
  }

  lemma {:induction false} NothingAfter(s: seq<real>, cutoff: real)
    requires AllUpTo(s, cutoff)
    ensures After(s, cutoff) == []
  {
    if s != [] {
      NothingAfter(s[..|s| - 1], cutoff);
    }
  }

  /** In a sorted list the times after a cutoff are its end. */
  lemma {:induction false} AfterIsSuffix(s: seq<real>, cutoff: real)
    requires Sorted(s)
    ensures IsSuffix(After(s, cutoff), s)
  {
    if s != [] {
      if s[|s| - 1] > cutoff {
        var front := s[..|s| - 1];
        AfterIsSuffix(front, cutoff);
        var n := |After(front, cutoff)|;
        assert front[|front| - n..] + [s[|s| - 1]] == s[|front| - n..];
      } else {
        NothingAfter(s, cutoff);
      }
    }
  }

  /** The end of a sorted list has all the times after a cutoff that fit in it. */
  lemma {:induction false} SuffixAfter(s: seq<real>, t: seq<real>, cutoff: real)
    requires Sorted(t) && IsSuffix(s, t)
    ensures |After(s, cutoff)| == Min(|s|, |After(t, cutoff)|)
  {
    if s != [] {
      assert s[|s| - 1] == t[|t| - 1];
      if t[|t| - 1] > cutoff {
        assert IsSuffix(s[..|s| - 1], t[..|t| - 1]);
        SuffixAfter(s[..|s| - 1], t[..|t| - 1], cutoff);
      } else {
        NothingAfter(t, cutoff);
        NothingAfter(s, cutoff);
      }
    }
  }

  lemma {:induction false} AfterAppend(s: seq<real>, t: real, cutoff: real)
    ensures After(s + [t], cutoff) == if t > cutoff then After(s, cutoff) + [t] else After(s, cutoff)
  {
    assert (s + [t])[..|s|] == s;
  }

  lemma {:induction false} AfterLater(s: seq<real>, a: real, b: real)
    requires a <= b
    ensures |After(s, b)| <= |After(s, a)|
  {
    if s != [] {
      AfterLater(s[..|s| - 1], a, b);
    }
  }

  lemma SortedPrefix(hits: seq<real>, now: real)
    requires Sorted(hits + [now])
    ensures Sorted(hits) && AllUpTo(hits, now)
  {
    var all := hits + [now];
    forall i, j | 0 <= i < j < |hits| ensures hits[i] <= hits[j] {
      assert all[i] <= all[j];
    }
    forall i | 0 <= i < |hits| ensures hits[i] <= now {
      assert all[i] <= all[|hits|];
    }
  }

  lemma SuffixGrows<T>(s: seq<T>, t: seq<T>, x: T, cap: nat)
    requires IsSuffix(s, t)
    ensures IsSuffix(LastN(s + [x], cap), t + [x])
  {
  }

  lemma SuffixOfSuffix<T>(r: seq<T>, s: seq<T>, t: seq<T>)
    requires IsSuffix(r, s) && IsSuffix(s, t)
    ensures IsSuffix(r, t)
  {
  }

  /** A hit keeps the log complete for every cutoff its window reaches back to. */
  lemma RecordKeepsComplete(log: seq<real>, hits: seq<real>, now: real, window: real, cap: nat, cutoff: real)
    requires cap > 0 && Sorted(hits + [now])
    requires Complete(log, hits, cutoff, cap)
    requires now > cutoff ==> now - window <= cutoff
    ensures Complete(Record(log, now, window, cap), hits + [now], cutoff, cap)
  {
    SortedPrefix(hits, now);
    SuffixIsSorted(log, hits);
    hide After, Sorted, AllUpTo, IsSuffix, LastN, Min;
    var kept := After(log, now - window);
    AfterIsSuffix(log, now - window);
    SuffixOfSuffix(kept, log, hits);
    SuffixGrows(kept, hits, now, cap);
    RecordIsLongEnough(log, hits, now, window, cap, cutoff);
  }

  lemma RecordIsLongEnough(log: seq<real>, hits: seq<real>, now: real, window: real, cap: nat, cutoff: real)
    requires cap > 0 && Sorted(hits) && AllUpTo(hits, now) && IsSuffix(log, hits)
    requires |log| >= Min(cap, |After(hits, cutoff)|) && (now > cutoff ==> now - window <= cutoff)
    ensures |Record(log, now, window, cap)| >= Min(cap, |After(hits + [now], cutoff)|)
  {
    hide After, Sorted, AllUpTo, IsSuffix, LastN;
    AfterAppend(hits, now, cutoff);
    SuffixAfter(log, hits, now - window);
    if now > cutoff {
      AfterLater(hits, now - window, cutoff);
    } else {
      UpToLater(hits, now, cutoff);
      NothingAfter(hits, cutoff);
    }
  }

  lemma SuffixIsSorted(s: seq<real>, t: seq<real>)
    requires Sorted(t) && IsSuffix(s, t)
    ensures Sorted(s)
  {
  }

  lemma UpToLater(s: seq<real>, a: real, b: real)
    requires AllUpTo(s, a) && a <= b
    ensures AllUpTo(s, b)
  {
  }

  /** What a hit counts is the number of hits in its window, this one included, up to the cap. */
  lemma RecordIsExact(log: seq<real>, hits: seq<real>, now: real, window: real, cap: nat)
    requires cap > 0 && Sorted(hits + [now])
    requires Complete(log, hits, now - window, cap)
    ensures |Record(log, now, window, cap)| == Min(cap, |After(hits, now - window)| + 1)
    ensures |After(log, now - window)| == Min(|log|, |After(hits, now - window)|)
  {
    assert Sorted(hits) && IsSuffix(log, hits) by {
      SortedPrefix(hits, now);
    }
    hide Sorted, IsSuffix, After;
    SuffixAfter(log, hits, now - window);
  }

  // -- Histories -----------------------------------------------------------------------------------

  datatype Hit = Hit(key: string, now: real, window: real)

  /** The times of the hits on k, in order. */
  ghost function HitsOn(h: seq<Hit>, k: string): seq<real> {
    if h == [] then []
    else if h[|h| - 1].key == k then HitsOn(h[..|h| - 1], k) + [h[|h| - 1].now]
    else HitsOn(h[..|h| - 1], k)
  }

  ghost function HitUses(h: seq<Hit>): seq<string> {
    seq(|h|, i requires 0 <= i < |h| => h[i].key)
  }

  ghost predicate HitClock(h: seq<Hit>) {
    forall i, j | 0 <= i < j < |h| :: h[i].now <= h[j].now
  }

  /** A hit counts the hits after this time. */
  function Cutoff(e: Hit): real {
    e.now - e.window
  }

  /** The hits on the key of hit j that lie in its window, itself included. */
  ghost function TrueHits(h: seq<Hit>, j: nat): nat
    requires j < |h|
  {
    |After(HitsOn(h[..j], h[j].key), Cutoff(h[j]))| + 1
  }

  /** No earlier hit in the window of hit j, on its key, used a narrower window. */
  ghost predicate WindowsReach(h: seq<Hit>, j: nat)
    requires j < |h|
  {
    forall m | 0 <= m < j && h[m].key == h[j].key && h[m].now > Cutoff(h[j]) :: h[m].window >= h[j].window
  }

  lemma HitsPrefix(h: seq<Hit>, i: nat)
    requires i < |h|
    ensures forall k :: HitsOn(h[..i + 1], k) == if h[i].key == k then HitsOn(h[..i], k) + [h[i].now] else HitsOn(h[..i], k)
    ensures HitUses(h[..i + 1]) == HitUses(h[..i]) + [h[i].key]
  {
    assert h[..i + 1][..i] == h[..i];
  }

  lemma {:induction false} HitsSorted(h: seq<Hit>, k: string)
    requires HitClock(h)
    ensures Sorted(HitsOn(h, k))
    ensures h != [] ==> AllUpTo(HitsOn(h, k), h[|h| - 1].now)
  {
    if h != [] {
      var front := h[..|h| - 1];
      HitsSorted(front, k);
      if front != [] {
        assert front[|front| - 1].now <= h[|h| - 1].now;
      }
    }
  }

  lemma SortedWithNext(h: seq<Hit>, j: nat)
    requires j < |h| && HitClock(h)
    ensures Sorted(HitsOn(h[..j], h[j].key) + [h[j].now])
  {
    hide Sorted;
    HitsPrefix(h, j);
    HitsSorted(h[..j + 1], h[j].key);
  }

  /** The places of the hits on k after a cutoff. */
  ghost function PlacesAfter(h: seq<Hit>, k: string, cutoff: real): set<int> {
    set i | 0 <= i < |h| && h[i].key == k && h[i].now > cutoff
  }

  lemma {:induction false} AfterCounts(h: seq<Hit>, k: string, cutoff: real)
    ensures |After(HitsOn(h, k), cutoff)| == |PlacesAfter(h, k, cutoff)|
  {
    if h != [] {
      var n := |h| - 1;
      AfterCounts(h[..n], k, cutoff);
      var front := PlacesAfter(h[..n], k, cutoff);
      if h[n].key == k {
        AfterAppend(HitsOn(h[..n], k), h[n].now, cutoff);
      }
      if h[n].key == k && h[n].now > cutoff {
        assert PlacesAfter(h, k, cutoff) == front + {n};
      } else {
        assert PlacesAfter(h, k, cutoff) == front;
      }
    }
  }

  /** The true number of hits is that of the hits on the key so far, this one included, that are younger than the window. */
  lemma TrueHitsCount(h: seq<Hit>, j: nat)
    requires j < |h|
    ensures TrueHits(h, j) == |set i | 0 <= i < j && h[i].key == h[j].key && h[i].now > h[j].now - h[j].window| + 1
  {
    AfterCounts(h[..j], h[j].key, Cutoff(h[j]));
    assert PlacesAfter(h[..j], h[j].key, Cutoff(h[j]))
        == set i | 0 <= i < j && h[i].key == h[j].key && h[i].now > h[j].now - h[j].window;
  }
}
