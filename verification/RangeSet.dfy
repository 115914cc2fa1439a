/**
 IPv4 networks as intervals: sorted, merged and searched by bisection, compared with a scan of all entries.
 */
module RangeSet {
  import opened Wrappers
  import opened Words
  import opened Sorting

  /** A network in CIDR form; host bits of the address are ignored (`strict=False`). */
  datatype Cidr = Cidr(address: nat, prefix: nat)

  type Network = n: Cidr | n.address < 0x1_0000_0000 && n.prefix <= 32 witness Cidr(0, 0)

  function Pow2(k: nat): (p: nat)
    ensures p > 0
  {
    if k == 0 then 1 else 2 * Pow2(k - 1)
  }

  function Block(n: Network): (b: nat)
    ensures b > 0
  {
    Pow2(32 - n.prefix)
  }

  /** The largest multiple of b up to a. */
  function Floor(a: nat, b: nat): (f: nat)
    requires b > 0
    ensures f <= a
  {
    a - a % b
  }

  function First(n: Network): nat
  {
    Floor(n.address, Block(n))
  }

  function Last(n: Network): nat
  {
    First(n) + Block(n) - 1
  }

  predicate Contains(n: Network, a: nat)
  {
    First(n) <= a <= Last(n)
  }

  /** A network contains the addresses that agree with its own on the first `prefix` bits. */
  lemma ContainsIsSamePrefix(n: Network, a: nat)
    ensures Contains(n, a) <==> a / Block(n) == n.address / Block(n)
  {
    hide Block;
    var b, q := Block(n), n.address / Block(n);
    assert First(n) == Floor(n.address, b) == q * b;
    if Contains(n, a) {
      DivModUnique(a, q, a - First(n), b);
    }
    assert a == a / b * b + a % b;
  }

  // -- What a prefix length means --------------------------------------------------------------------

  lemma {:induction false} Pow2Product(j: nat, k: nat)
    ensures Pow2(j + k) == Pow2(j) * Pow2(k)
  {
    if j > 0 {
      Pow2Product(j - 1, k);
      assert Pow2(j + k) == 2 * (Pow2(j - 1) * Pow2(k));
    }
  }

  lemma AllAddresses()
    ensures Pow2(32) == 0x1_0000_0000
  {
    assert Pow2(8) == 0x100;
    Pow2Product(8, 8);
    Pow2Product(16, 16);
  }

  lemma FloorBelow(a: nat, b: nat, m: nat)
    requires b > 0 && a < m * b
    ensures Floor(a, b) % b == 0 && Floor(a, b) + b <= m * b
  {
    var q := a / b;
    assert Floor(a, b) == q * b;
    DivModUnique(q * b, q, 0, b);
    if q >= m {
      MulMonotone(m, q, b);
      assert false;
    }
    MulMonotone(q + 1, m, b);
    assert (q + 1) * b == q * b + b;
  }

  /** A network lies below 2^32, and its first address is a multiple of its size. */
  lemma BlockFits(n: Network)
    ensures First(n) % Block(n) == 0 && First(n) + Block(n) <= 0x1_0000_0000
  {
    AllAddresses();
    Pow2Product(n.prefix, 32 - n.prefix);
    hide Pow2;
    FloorBelow(n.address, Block(n), Pow2(n.prefix));
  }

  /** /0 is the whole address space, and /32 a single address. */
  lemma WidestAndNarrowest(n: Network, a: nat)
    ensures n.prefix == 0 ==> (Contains(n, a) <==> a < 0x1_0000_0000)
    ensures n.prefix == 32 ==> (Contains(n, a) <==> a == n.address)
  {
    if n.prefix == 0 {
      AllAddresses();
    }
    if n.prefix == 32 {
      assert Pow2(0) == 1;
    }
  }

  function LowerHalf(n: Network): Network
    requires n.prefix < 32
  {
    Cidr(if First(n) < 0x1_0000_0000 then First(n) else 0, n.prefix + 1)
  }

  function UpperHalf(n: Network): Network
    requires n.prefix < 32
  {
    var first := First(n) + Block(n) / 2;
    Cidr(if first < 0x1_0000_0000 then first else 0, n.prefix + 1)
  }

  lemma HalfBlock(n: Network)
    requires n.prefix < 32
    ensures Block(n) == 2 * Block(LowerHalf(n)) == 2 * Block(UpperHalf(n))
  {
    hide First;
  }

  lemma HalvesStart(f: nat, b: nat)
    requires b > 0 && f % (2 * b) == 0
    ensures Floor(f, b) == f && Floor(f + b, b) == f + b
  {
    var q := f / (2 * b);
    assert f == q * (2 * b) == (2 * q) * b;
    DivModUnique(f, 2 * q, 0, b);
    assert f + b == (2 * q + 1) * b;
    DivModUnique(f + b, 2 * q + 1, 0, b);
  }

  /** Every bit of the prefix halves a network: it is the disjoint union of the two with one bit more. */
  lemma PrefixHalves(n: Network, a: nat)
    requires n.prefix < 32
    ensures Contains(n, a) <==> Contains(LowerHalf(n), a) || Contains(UpperHalf(n), a)
    ensures !(Contains(LowerHalf(n), a) && Contains(UpperHalf(n), a))
    ensures LowerHalf(n).address == First(n) && UpperHalf(n).address == First(n) + Block(n) / 2
  {
    hide Block, Floor, Pow2;
    BlockFits(n);
    HalfBlock(n);
    var lo, hi := LowerHalf(n), UpperHalf(n);
    HalvesStart(First(n), Block(lo));
    assert First(lo) == First(n) && First(hi) == First(n) + Block(lo);
    hide First;
  }

  /** `overlaps`: an end of one network lies in the other. */
  predicate Overlaps(n: Network, m: Network)
  {
    Contains(n, First(m)) || Contains(n, Last(m)) || Contains(m, First(n)) || Contains(m, Last(n))
  }

  /** Two networks overlap exactly when some address is in both. */
  lemma OverlapIsSharedAddress(n: Network, m: Network)
    ensures Overlaps(n, m) <==> exists a: nat :: Contains(n, a) && Contains(m, a)
  {
    hide First, Block;
    if Overlaps(n, m) {
      var a := if Contains(n, First(m)) then First(m) else if Contains(n, Last(m)) then Last(m)
               else if Contains(m, First(n)) then First(n) else Last(n);
      assert Contains(n, a) && Contains(m, a);
    }
  }

  // -- Merged intervals ----------------------------------------------------------------------------

  datatype Range = Range(lo: nat, hi: nat)

  predicate Covers(r: Range, a: nat) {
    r.lo <= a <= r.hi
  }

  ghost predicate Covered(rs: seq<Range>, a: nat) {
    exists i | 0 <= i < |rs| :: Covers(rs[i], a)
  }

  ghost predicate SortedByStart(rs: seq<Range>) {
    && (forall i | 0 <= i < |rs| :: rs[i].lo <= rs[i].hi)
    && (forall i, j | 0 <= i < j < |rs| :: rs[i].lo <= rs[j].lo)
  }

  /** Disjoint, in order, and not even adjacent. */
  ghost predicate Separated(rs: seq<Range>) {
    && (forall i | 0 <= i < |rs| :: rs[i].lo <= rs[i].hi)
    && (forall i, j | 0 <= i < j < |rs| :: rs[i].hi + 1 < rs[j].lo)
  }

  /** One iteration of the merging loop. */
  function Absorb(merged: seq<Range>, r: Range): seq<Range> {
    if merged != [] && r.lo <= merged[|merged| - 1].hi + 1 then
      var m := merged[|merged| - 1];
      merged[|merged| - 1 := Range(m.lo, if m.hi < r.hi then r.hi else m.hi)]
    else
      merged + [r]
  }

  function Merge(rs: seq<Range>): seq<Range> {
    if rs == [] then [] else Absorb(Merge(rs[..|rs| - 1]), rs[|rs| - 1])
  }

  lemma AbsorbCovers(merged: seq<Range>, r: Range, a: nat)
    requires r.lo <= r.hi
    requires merged != [] ==> merged[|merged| - 1].lo <= r.lo && merged[|merged| - 1].lo <= merged[|merged| - 1].hi
    ensures Covered(Absorb(merged, r), a) <==> Covered(merged, a) || Covers(r, a)
  {
    var after := Absorb(merged, r);
    var last := |merged| - 1;
    forall i | 0 <= i < |merged| && (i < last || |after| > |merged|) ensures after[i] == merged[i] {
    }
    if Covered(merged, a) {
      var i :| 0 <= i < |merged| && Covers(merged[i], a);
      assert Covers(after[i], a);
    }
    if Covers(r, a) {
      assert Covers(after[|after| - 1], a);
    }
    if Covered(after, a) {
      var i :| 0 <= i < |after| && Covers(after[i], a);
      assert Covers(r, a) || (i < |merged| && Covers(merged[i], a));
    }
  }

  lemma {:induction false} MergeSeparated(rs: seq<Range>)
    requires SortedByStart(rs)
    ensures Separated(Merge(rs))
    ensures rs != [] ==> Merge(rs) != [] && Merge(rs)[|Merge(rs)| - 1].lo <= rs[|rs| - 1].lo
  {
    if rs != [] {
      var front := rs[..|rs| - 1];
      MergeSeparated(front);
      if front != [] {
        assert front[|front| - 1].lo <= rs[|rs| - 1].lo;
      }
    }
  }

  lemma {:induction false} MergeCovers(rs: seq<Range>, a: nat)
    requires SortedByStart(rs)
    ensures Covered(Merge(rs), a) <==> Covered(rs, a)
  {
    if rs != [] {
      var front, r := rs[..|rs| - 1], rs[|rs| - 1];
      MergeCovers(front, a);
      MergeSeparated(front);
      if front != [] {
        assert front[|front| - 1].lo <= r.lo;
      }
      AbsorbCovers(Merge(front), r, a);
      if Covered(rs, a) {
        var i :| 0 <= i < |rs| && Covers(rs[i], a);
        assert i < |front| ==> Covers(front[i], a);
      }
      if Covered(front, a) {
        var i :| 0 <= i < |front| && Covers(front[i], a);
        assert Covers(rs[i], a);
      }
      assert Covers(r, a) ==> Covers(rs[|rs| - 1], a);
    }
  }

  // -- Sorting -------------------------------------------------------------------------------------

  /** Tuple order: by start, then by end. */
  predicate Before(r: Range, s: Range) {
    r.lo < s.lo || (r.lo == s.lo && r.hi <= s.hi)
  }

  /** Python's `sorted` on pairs. */
  function Sort(rs: seq<Range>): seq<Range> {
    SortBy(rs, Before)
  }

  lemma SortIsByStart(rs: seq<Range>)
    requires forall i | 0 <= i < |rs| :: rs[i].lo <= rs[i].hi
    ensures SortedByStart(Sort(rs)) && multiset(Sort(rs)) == multiset(rs)
  {
    SortProperties(rs, Before);
    var sorted := Sort(rs);
    forall i | 0 <= i < |sorted| ensures sorted[i].lo <= sorted[i].hi {
      assert sorted[i] in multiset(rs);
    }
    forall i, j | 0 <= i < j < |sorted| ensures sorted[i].lo <= sorted[j].lo {
      assert Before(sorted[i], sorted[j]);
    }
  }

  lemma SortCovers(rs: seq<Range>, a: nat)
    requires forall i | 0 <= i < |rs| :: rs[i].lo <= rs[i].hi
    ensures Covered(Sort(rs), a) <==> Covered(rs, a)
  {
    SortIsByStart(rs);
    if Covered(rs, a) {
      var i :| 0 <= i < |rs| && Covers(rs[i], a);
      assert rs[i] in multiset(Sort(rs));
      var j :| 0 <= j < |Sort(rs)| && Sort(rs)[j] == rs[i];
    }
    if Covered(Sort(rs), a) {
      var i :| 0 <= i < |Sort(rs)| && Covers(Sort(rs)[i], a);
      assert Sort(rs)[i] in multiset(rs);
      var j :| 0 <= j < |rs| && rs[j] == Sort(rs)[i];
    }
  }

  // -- The index -----------------------------------------------------------------------------------

  datatype Index = Index(starts: seq<nat>, ends: seq<nat>, count: nat)

  /** The intervals of the entries that are IPv4 networks. */
  function Ranges(entries: seq<Option<Network>>): seq<Range>
  {
    if entries == [] then []
    else
      var front := Ranges(entries[..|entries| - 1]);
      var e := entries[|entries| - 1];
      if e.None? then front else front + [Range(First(e.value), Last(e.value))]
  }

  /** The linear scan: some entry's network contains the address. */
  ghost predicate Scan(entries: seq<Option<Network>>, a: nat)
  {
    exists i | 0 <= i < |entries| :: entries[i].Some? && Contains(entries[i].value, a)
  }

  lemma {:induction false} RangesScan(entries: seq<Option<Network>>, a: nat)
    ensures forall i | 0 <= i < |Ranges(entries)| :: Ranges(entries)[i].lo <= Ranges(entries)[i].hi
    ensures Covered(Ranges(entries), a) <==> Scan(entries, a)
  {
    hide First, Block;
    if entries != [] {
      var front, e := entries[..|entries| - 1], entries[|entries| - 1];
      RangesScan(front, a);
      var inner, rs := Ranges(front), Ranges(entries);
      if e.Some? {
        assert rs[|inner|] == Range(First(e.value), Last(e.value));
        assert Covers(rs[|inner|], a) <==> Contains(e.value, a);
        assert forall i | 0 <= i < |inner| :: rs[i] == inner[i];
      }
    }
  }

  ghost predicate IndexOf(x: Index, merged: seq<Range>) {
    && |x.starts| == |x.ends| == |merged|
    && forall i | 0 <= i < |merged| :: x.starts[i] == merged[i].lo && x.ends[i] == merged[i].hi
  }

  /** Building the index: sort, merge, split into starts and ends. */
  method Build(entries: seq<Option<Network>>) returns (x: Index)
    ensures IndexOf(x, Merge(Sort(Ranges(entries)))) && x.count == |entries|
  {
    var ranges := Sort(Ranges(entries));
    var merged: seq<Range> := [];
    var i := 0;
    while i < |ranges|
      invariant 0 <= i <= |ranges|
      invariant merged == Merge(ranges[..i])
    {
      var r := ranges[i];
      assert ranges[..i + 1][..i] == ranges[..i];
      if merged != [] && r.lo <= merged[|merged| - 1].hi + 1 {
        var m := merged[|merged| - 1];
        merged := merged[|merged| - 1 := Range(m.lo, if m.hi < r.hi then r.hi else m.hi)];
      } else {
        merged := merged + [r];
      }
      i := i + 1;
    }
    assert ranges[..i] == ranges;
    x := Index(seq(|merged|, j requires 0 <= j < |merged| => merged[j].lo),
               seq(|merged|, j requires 0 <= j < |merged| => merged[j].hi), |entries|);
  }

  /** `bisect_right`: how many starts are at most the address. */
  method BisectRight(starts: seq<nat>, a: nat) returns (i: nat)
    requires forall p, q | 0 <= p < q < |starts| :: starts[p] <= starts[q]
    ensures i <= |starts|
    ensures forall p | 0 <= p < i :: starts[p] <= a
    ensures forall p | i <= p < |starts| :: a < starts[p]
  {
    var lo, hi := 0, |starts|;
    while lo < hi
      invariant 0 <= lo <= hi <= |starts|
      invariant forall p | 0 <= p < lo :: starts[p] <= a
      invariant forall p | hi <= p < |starts| :: a < starts[p]
    {
      var mid := (lo + hi) / 2;
      if a < starts[mid] {
        hi := mid;
      } else {
        lo := mid + 1;
      }
    }
    i := lo;
  }

  /** Membership of the index, whatever it was built from, is a scan of its intervals. */
  method Member(x: Index, ghost merged: seq<Range>, a: nat) returns (found: bool)
    requires IndexOf(x, merged) && Separated(merged)
    ensures found <==> Covered(merged, a)
  {
    var i := BisectRight(x.starts, a);
    found := i >= 1 && a <= x.ends[i - 1];
    if found {
      assert Covers(merged[i - 1], a);
    } else {
      forall j | 0 <= j < |merged| ensures !Covers(merged[j], a) {
        assert j + 1 < i ==> merged[j].hi + 1 < merged[i - 1].lo && x.starts[i - 1] <= a;
      }
    }
  }

  /** Binary search over merged intervals finds exactly the addresses that a scan of the entries finds. */
  lemma MembershipIsScan(entries: seq<Option<Network>>, a: nat)
    ensures Separated(Merge(Sort(Ranges(entries))))
    ensures Covered(Merge(Sort(Ranges(entries))), a) <==> Scan(entries, a)
  {
    RangesScan(entries, a);
    SortIsByStart(Ranges(entries));
    SortCovers(Ranges(entries), a);
    MergeSeparated(Sort(Ranges(entries)));
    MergeCovers(Sort(Ranges(entries)), a);
  }
}
