/**
 The downloaded IP lists: filtering, refreshing and looking up. A failed or empty download keeps the previous list, and
 no list ever contains a special-purpose address.
 */
module Feeds {
  import opened Wrappers
  import opened RangeSet

  type Address = a: nat | a < 0x1_0000_0000

  datatype Feed = Tor | FireholLevel1 | SpamhausDrop | AbuseIpdb

  /** A candidate entry of a list, after parsing: blank, no IPv4 network, a plain address, or a network with a prefix
      length or with a netmask. */
  datatype Candidate = Blank | Invalid | Plain(address: Address) | Block(net: Network) | Masked(net: Network)

  /** The network of a candidate: `_network`. */
  function NetworkOf(c: Candidate): Option<Network> {
    match c
    case Plain(a) => Some(Cidr(a, 32))
    case Block(n) => Some(n)
    case Masked(n) => Some(n)
    case _ => None
  }

  /** 0/8, 10/8, 100.64/10; 127/8, 169.254/16, 172.16/12; 192.0.0/24, 192.0.2/24, 192.88.99/24; 192.168/16, 198.18/15,
      198.51.100/24; 203.0.113/24, 224/4, 240/4. */
  const SPECIAL: seq<Network> := [
    Cidr(0x0000_0000, 8), Cidr(0x0a00_0000, 8), Cidr(0x6440_0000, 10),
    Cidr(0x7f00_0000, 8), Cidr(0xa9fe_0000, 16), Cidr(0xac10_0000, 12),
    Cidr(0xc000_0000, 24), Cidr(0xc000_0200, 24), Cidr(0xc058_6300, 24),
    Cidr(0xc0a8_0000, 16), Cidr(0xc612_0000, 15), Cidr(0xc633_6400, 24),
    Cidr(0xcb00_7100, 24), Cidr(0xe000_0000, 4), Cidr(0xf000_0000, 4)]

  /** An address of one of the special-purpose ranges. */
  ghost predicate SpecialAddress(special: seq<Network>, a: nat)
  {
    exists i | 0 <= i < |special| :: Contains(special[i], a)
  }

  predicate OverlapsAny(n: Network, special: seq<Network>)
  {
    exists i | 0 <= i < |special| :: Overlaps(n, special[i])
  }

  function Octet(a: nat, k: nat): nat
    requires k < 4
  {
    match k
    case 0 => a / 0x100_0000
    case 1 => a / 0x1_0000 % 256
    case 2 => a / 0x100 % 256
    case _ => a % 256
  }

  /** The ranges of special purpose, octet by octet. */
  predicate SpecialOctets(a: nat) {
    var o1, o2, o3 := Octet(a, 0), Octet(a, 1), Octet(a, 2);
    || o1 in {0, 10, 127} || o1 >= 224
    || (o1 == 100 && 64 <= o2 <= 127) || (o1 == 169 && o2 == 254) || (o1 == 172 && 16 <= o2 <= 31)
    || (o1 == 192 && (o2 == 168 || (o2 == 0 && o3 in {0, 2}) || (o2 == 88 && o3 == 99)))
    || (o1 == 198 && (o2 in {18, 19} || (o2 == 51 && o3 == 100))) || (o1 == 203 && o2 == 0 && o3 == 113)
  }

  lemma OctetsOf(a: nat)
    requires a < 0x1_0000_0000
    ensures a == 0x100_0000 * Octet(a, 0) + 0x1_0000 * Octet(a, 1) + 0x100 * Octet(a, 2) + Octet(a, 3)
    ensures forall k: nat | k < 4 :: 0 <= Octet(a, k) < 256
  {
    var b, c := a / 0x100, a / 0x1_0000;
    assert c == b / 0x100 && a / 0x100_0000 == c / 0x100;
  }

  lemma Interval(n: Network, first: nat, size: nat, a: nat)
    requires RangeSet.Block(n) == size && n.address == first && first % size == 0
    ensures Contains(n, a) <==> first <= a < first + size
  {
  }

  lemma BlockSizes()
    ensures Pow2(8) == 0x100 && Pow2(16) == 0x1_0000 && Pow2(17) == 0x2_0000 && Pow2(20) == 0x10_0000
    ensures Pow2(22) == 0x40_0000 && Pow2(24) == 0x100_0000 && Pow2(28) == 0x1000_0000
  {
    Pow2Product(8, 8);
    Pow2Product(8, 9);
    Pow2Product(8, 12);
    Pow2Product(8, 14);
    Pow2Product(8, 16);
    Pow2Product(8, 20);
  }

  predicate Within(i: nat, a: nat)
    requires i < 15
  {
    Contains(SPECIAL[i], a)
  }

  lemma WideRanges(a: nat)
    requires a < 0x1_0000_0000
    ensures
      var o1 := Octet(a, 0);
      && (Within(0, a) <==> o1 == 0)
      && (Within(1, a) <==> o1 == 10)
      && (Within(3, a) <==> o1 == 127)
      && (Within(13, a) || Within(14, a) <==> o1 >= 224)
  {
    hide Pow2, Octet, Contains;
    BlockSizes();
    OctetsOf(a);
    Interval(SPECIAL[0], 0, 0x100_0000, a);
    Interval(SPECIAL[1], 0x0a00_0000, 0x100_0000, a);
    Interval(SPECIAL[3], 0x7f00_0000, 0x100_0000, a);
    Interval(SPECIAL[13], 0xe000_0000, 0x1000_0000, a);
    Interval(SPECIAL[14], 0xf000_0000, 0x1000_0000, a);
  }

  lemma MiddleRanges(a: nat)
    requires a < 0x1_0000_0000
    ensures
      var o1, o2 := Octet(a, 0), Octet(a, 1);
      && (Within(2, a) <==> o1 == 100 && 64 <= o2 <= 127)
      && (Within(4, a) <==> o1 == 169 && o2 == 254)
      && (Within(5, a) <==> o1 == 172 && 16 <= o2 <= 31)
      && (Within(9, a) <==> o1 == 192 && o2 == 168)
      && (Within(10, a) <==> o1 == 198 && o2 in {18, 19})
  {
    hide Pow2, Octet, Contains;
    BlockSizes();
    OctetsOf(a);
    Interval(SPECIAL[2], 0x6440_0000, 0x40_0000, a);
    Interval(SPECIAL[4], 0xa9fe_0000, 0x1_0000, a);
    Interval(SPECIAL[5], 0xac10_0000, 0x10_0000, a);
    Interval(SPECIAL[9], 0xc0a8_0000, 0x1_0000, a);
    Interval(SPECIAL[10], 0xc612_0000, 0x2_0000, a);
  }

  lemma NarrowRanges(a: nat)
    requires a < 0x1_0000_0000
    ensures
      var o1, o2, o3 := Octet(a, 0), Octet(a, 1), Octet(a, 2);
      && (Within(6, a) <==> o1 == 192 && o2 == 0 && o3 == 0)
      && (Within(7, a) <==> o1 == 192 && o2 == 0 && o3 == 2)
      && (Within(8, a) <==> o1 == 192 && o2 == 88 && o3 == 99)
      && (Within(11, a) <==> o1 == 198 && o2 == 51 && o3 == 100)
      && (Within(12, a) <==> o1 == 203 && o2 == 0 && o3 == 113)
  {
    hide Pow2, Octet, Contains;
    BlockSizes();
    OctetsOf(a);
    Interval(SPECIAL[6], 0xc000_0000, 0x100, a);
    Interval(SPECIAL[7], 0xc000_0200, 0x100, a);
    Interval(SPECIAL[8], 0xc058_6300, 0x100, a);
    Interval(SPECIAL[11], 0xc633_6400, 0x100, a);
    Interval(SPECIAL[12], 0xcb00_7100, 0x100, a);
  }

  /** The excluded networks hold exactly the addresses of these ranges. */
  lemma SpecialRanges(a: nat)
    requires a < 0x1_0000_0000
    ensures SpecialAddress(SPECIAL, a) <==> SpecialOctets(a)
  {
    hide Octet, Contains;
    WideRanges(a);
    MiddleRanges(a);
    NarrowRanges(a);
    assert SpecialAddress(SPECIAL, a) <==> exists i: nat | i < 15 :: Within(i, a);
  }

  // -- Filtering -----------------------------------------------------------------------------------

  datatype Parsed = Parsed(entries: seq<Candidate>, droppedSpecial: nat, droppedInvalid: nat)

  /** "/32" is cut off a single address. */
  function Canonical(c: Candidate): Candidate {
    if c.Block? && c.net.prefix == 32 then Plain(c.net.address) else c
  }

  ghost predicate Usable(c: Candidate, special: seq<Network>)
  {
    NetworkOf(c).Some? && !OverlapsAny(NetworkOf(c).value, special)
  }

  /** The usable candidates, in order. */
  ghost function UsableOf(cs: seq<Candidate>, special: seq<Network>): (r: seq<Candidate>)
    ensures forall i | 0 <= i < |r| :: Usable(r[i], special)
  {
    if cs == [] then []
    else
      var front, c := UsableOf(cs[..|cs| - 1], special), cs[|cs| - 1];
      if Usable(c, special) then front + [Canonical(c)] else front
  }

  /** `_collect`. */
  method Collect(cs: seq<Candidate>, special: seq<Network>) returns (out: Parsed)
    ensures out.entries == UsableOf(cs, special)
    ensures out.droppedInvalid == CountInvalid(cs)
    ensures |out.entries| + out.droppedSpecial + out.droppedInvalid == |cs| - CountBlank(cs)
  {
    out := Parsed([], 0, 0);
    var i := 0;
    while i < |cs|
      invariant 0 <= i <= |cs|
      invariant out.entries == UsableOf(cs[..i], special)
      invariant out.droppedInvalid == CountInvalid(cs[..i])
      invariant |out.entries| + out.droppedSpecial + out.droppedInvalid == i - CountBlank(cs[..i])
    {
      var c := cs[i];
      assert cs[..i + 1][..i] == cs[..i];
      if !c.Blank? {
        var net := NetworkOf(c);
        if net.None? {
          out := out.(droppedInvalid := out.droppedInvalid + 1);
        } else if OverlapsAny(net.value, special) {
          out := out.(droppedSpecial := out.droppedSpecial + 1);
        } else {
          out := out.(entries := out.entries + [Canonical(c)]);
        }
      }
      i := i + 1;
    }
    assert cs[..i] == cs;
  }

  function CountInvalid(cs: seq<Candidate>): nat {
    if cs == [] then 0 else CountInvalid(cs[..|cs| - 1]) + (if cs[|cs| - 1].Invalid? then 1 else 0)
  }

  function CountBlank(cs: seq<Candidate>): nat {
    if cs == [] then 0 else CountBlank(cs[..|cs| - 1]) + (if cs[|cs| - 1].Blank? then 1 else 0)
  }

  ghost function Places(cs: seq<Candidate>, p: Candidate -> bool): set<int> {
    set i | 0 <= i < |cs| && p(cs[i])
  }

  lemma PlacesOfLast(cs: seq<Candidate>, p: Candidate -> bool)
    requires cs != []
    ensures |Places(cs, p)| == |Places(cs[..|cs| - 1], p)| + if p(cs[|cs| - 1]) then 1 else 0
  {
    var n := |cs| - 1;
    var front := Places(cs[..n], p);
    if p(cs[n]) {
      assert Places(cs, p) == front + {n};
    } else {
      assert Places(cs, p) == front;
    }
  }

  predicate IsInvalid(c: Candidate) { c.Invalid? }

  predicate IsBlank(c: Candidate) { c.Blank? }

  /** The two counters count the candidates that are invalid, and those that are blank. */
  lemma {:induction false} CountsAreCounts(cs: seq<Candidate>)
    ensures CountInvalid(cs) == |Places(cs, IsInvalid)|
    ensures CountBlank(cs) == |Places(cs, IsBlank)|
  {
    if cs != [] {
      CountsAreCounts(cs[..|cs| - 1]);
      PlacesOfLast(cs, IsInvalid);
      PlacesOfLast(cs, IsBlank);
    }
  }

  // -- Lists ---------------------------------------------------------------------------------------

  function Networks(entries: seq<Candidate>): seq<Option<Network>> {
    seq(|entries|, i requires 0 <= i < |entries| => NetworkOf(entries[i]))
  }

  /** A usable entry contains no special-purpose address. */
  lemma UsableIsNotSpecial(c: Candidate, special: seq<Network>, a: nat)
    ensures Usable(c, special) && Contains(NetworkOf(c).value, a) ==> !SpecialAddress(special, a)
  {
    hide Contains, Overlaps;
    if Usable(c, special) && Contains(NetworkOf(c).value, a) {
      var n := NetworkOf(c).value;
      forall i | 0 <= i < |special| ensures !Contains(special[i], a) {
        OverlapIsSharedAddress(n, special[i]);
        assert !Overlaps(n, special[i]);
      }
    }
  }

  /** A scan of a list for an address; the Tor list holds plain addresses only. */
  ghost predicate Scanned(feed: Feed, entries: seq<Candidate>, a: Address)
  {
    if feed.Tor? then Plain(a) in entries
    else ListHit(entries, a)
  }

  /** Some usable candidate's network contains the address. */
  ghost predicate UsableHit(cs: seq<Candidate>, special: seq<Network>, a: nat) {
    exists i | 0 <= i < |cs| :: Usable(cs[i], special) && Contains(NetworkOf(cs[i]).value, a)
  }

  ghost predicate ListHit(entries: seq<Candidate>, a: nat) {
    exists i | 0 <= i < |entries| :: NetworkOf(entries[i]).Some? && Contains(NetworkOf(entries[i]).value, a)
  }

  lemma CanonicalKeepsNetwork(c: Candidate)
    ensures NetworkOf(c).Some? <==> NetworkOf(Canonical(c)).Some?
    ensures NetworkOf(c).Some? ==>
              forall a: nat :: Contains(NetworkOf(c).value, a) <==> Contains(NetworkOf(Canonical(c)).value, a)
  {
    if c.Block? && c.net.prefix == 32 {
      forall a: nat ensures Contains(c.net, a) <==> Contains(Cidr(c.net.address, 32), a) {
        WidestAndNarrowest(c.net, a);
        WidestAndNarrowest(Cidr(c.net.address, 32), a);
      }
    }
  }

  /** Filtering and rewriting lose no address of a usable candidate and add none. */
  lemma {:induction false} CollectedHits(cs: seq<Candidate>, special: seq<Network>, a: nat)
    ensures ListHit(UsableOf(cs, special), a) <==> UsableHit(cs, special, a)
  {
    hide Contains, Overlaps, Canonical;
    if cs != [] {
      var front, c := cs[..|cs| - 1], cs[|cs| - 1];
      var kept := UsableOf(front, special);
      CollectedHits(front, special, a);
      CanonicalKeepsNetwork(c);
      assert UsableHit(cs, special, a) <==>
             UsableHit(front, special, a) || (Usable(c, special) && Contains(NetworkOf(c).value, a)) by {
        if UsableHit(front, special, a) {
          var i :| 0 <= i < |front| && Usable(front[i], special) && Contains(NetworkOf(front[i]).value, a);
          assert cs[i] == front[i];
        }
      }
      LastHit(kept, Canonical(c), a);
    }
  }

  lemma LastHit(entries: seq<Candidate>, c: Candidate, a: nat)
    ensures ListHit(entries + [c], a) <==> ListHit(entries, a) || (NetworkOf(c).Some? && Contains(NetworkOf(c).value, a))
  {
    hide Contains;
    var all := entries + [c];
    if ListHit(entries, a) {
      var i :| 0 <= i < |entries| && NetworkOf(entries[i]).Some? && Contains(NetworkOf(entries[i]).value, a);
      assert all[i] == entries[i];
    }
    assert all[|entries|] == c;
  }

  /** The Tor list takes an address exactly from a usable candidate that is the address itself, with or without "/32". */
  lemma {:induction false} CollectedAddresses(cs: seq<Candidate>, special: seq<Network>, a: Address)
    ensures Plain(a) in UsableOf(cs, special) <==>
              exists c | c in cs :: Usable(c, special) && c in {Plain(a), Block(Cidr(a, 32))}
  {
    hide Usable;
    if cs != [] {
      CollectedAddresses(cs[..|cs| - 1], special, a);
      assert cs == cs[..|cs| - 1] + [cs[|cs| - 1]];
    }
  }

  /** A refresh: skipped, failed, or a downloaded (or cached) text with these candidates. */
  datatype Fetch = Failed | Text(candidates: seq<Candidate>)

  datatype Event =
    | Cached(feed: Feed, candidates: seq<Candidate>)
    | Refresh(feed: Feed, force: bool, now: real, fetch: Fetch)

  function MinInterval(f: Feed): real {
    match f
    case Tor => 900.0
    case FireholLevel1 => 900.0
    case SpamhausDrop => 3600.0
    case AbuseIpdb => 21600.0
  }

  /** The lists in force: for each feed the usable entries of its last good text, and the time of its last attempt. */
  datatype Lists = Lists(good: map<Feed, seq<Candidate>>, last: map<Feed, real>)

  function LastAttempt(s: Lists, f: Feed): real {
    if f in s.last then s.last[f] else 0.0
  }

  predicate Skipped(s: Lists, f: Feed, force: bool, now: real, hasKey: bool) {
    (f.AbuseIpdb? && !hasKey) || (!force && now - LastAttempt(s, f) < MinInterval(f))
  }

  ghost function ApplyText(s: Lists, f: Feed, cs: seq<Candidate>, special: seq<Network>): Lists
  {
    var entries := UsableOf(cs, special);
    if entries == [] then s else s.(good := s.good[f := entries])
  }

  ghost function Step(s: Lists, e: Event, special: seq<Network>, hasKey: bool): Lists
  {
    match e
    case Cached(f, cs) => ApplyText(s, f, cs, special)
    case Refresh(f, force, now, fetch) =>
      if Skipped(s, f, force, now, hasKey) then s
      else
        var tried := s.(last := s.last[f := now]);
        match fetch
        case Failed => tried
        case Text(cs) => ApplyText(tried, f, cs, special)
  }

  /** A refresh asks the feed's server exactly if it is forced or due, and the feed's key is there if it needs one. */
  lemma DueIsTried(s: Lists, f: Feed, force: bool, now: real, fetch: Fetch, special: seq<Network>, hasKey: bool)
    ensures
      var after := Step(s, Refresh(f, force, now, fetch), special, hasKey);
      var due := if f in s.last then now - s.last[f] else now;
      var enough := if f.SpamhausDrop? then 3600.0 else if f.AbuseIpdb? then 21600.0 else 900.0;
      if (force || due >= enough) && (f.AbuseIpdb? ==> hasKey)
      then after.last == s.last[f := now] && (fetch.Text? && UsableOf(fetch.candidates, special) != [] ==>
                                                f in after.good && after.good[f] == UsableOf(fetch.candidates, special))
      else after == s
  {
    hide UsableOf;
  }

  ghost function Run(h: seq<Event>, special: seq<Network>, hasKey: bool): Lists {
    if h == [] then Lists(map[], map[]) else Step(Run(h[..|h| - 1], special, hasKey), h[|h| - 1], special, hasKey)
  }

  /** The candidates an event offers for a feed: none if it is about another feed, skipped or failed. */
  ghost function Offered(h: seq<Event>, i: nat, f: Feed, special: seq<Network>, hasKey: bool): seq<Candidate>
    requires i < |h|
  {
    match h[i]
    case Cached(g, cs) => if g == f then cs else []
    case Refresh(g, force, now, Text(cs)) =>
      if g == f && !Skipped(Run(h[..i], special, hasKey), f, force, now, hasKey) then cs else []
    case _ => []
  }

  /** The last parsed list of a feed that was not empty; empty if there was none. */
  ghost function LastGood(h: seq<Event>, f: Feed, special: seq<Network>, hasKey: bool): seq<Candidate> {
    if h == [] then []
    else
      var offered := UsableOf(Offered(h, |h| - 1, f, special, hasKey), special);
      if offered != [] then offered else LastGood(h[..|h| - 1], f, special, hasKey)
  }

  ghost function InForce(s: Lists, f: Feed): seq<Candidate> {
    if f in s.good then s.good[f] else []
  }

  /** Over every sequence of refreshes each feed answers from its last good list. */
  lemma {:induction false} LastGoodInForce(h: seq<Event>, f: Feed, special: seq<Network>, hasKey: bool)
    ensures InForce(Run(h, special, hasKey), f) == LastGood(h, f, special, hasKey)
  {
    if h != [] {
      LastGoodInForce(h[..|h| - 1], f, special, hasKey);
    }
  }

  lemma {:induction false} LastGoodIsUsable(h: seq<Event>, f: Feed, special: seq<Network>, hasKey: bool)
    ensures forall i | 0 <= i < |LastGood(h, f, special, hasKey)| :: Usable(LastGood(h, f, special, hasKey)[i], special)
  {
    if h != [] {
      LastGoodIsUsable(h[..|h| - 1], f, special, hasKey);
    }
  }

  /** Whatever was downloaded, in whatever order, no list contains a special-purpose address. */
  lemma NeverListsSpecial(h: seq<Event>, f: Feed, special: seq<Network>, hasKey: bool, a: Address)
    ensures Scanned(f, InForce(Run(h, special, hasKey), f), a) ==> !SpecialAddress(special, a)
  {
    hide Usable, Contains, SpecialAddress, Run, LastGood;
    LastGoodInForce(h, f, special, hasKey);
    LastGoodIsUsable(h, f, special, hasKey);
    var entries := LastGood(h, f, special, hasKey);
    if f.Tor? {
      PlainContains(a);
      UsableIsNotSpecial(Plain(a), special, a);
    } else if Scanned(f, entries, a) {
      var i :| 0 <= i < |entries| && NetworkOf(entries[i]).Some? && Contains(NetworkOf(entries[i]).value, a);
      UsableIsNotSpecial(entries[i], special, a);
    }
  }

  lemma PlainContains(a: Address)
    ensures Contains(Cidr(a, 32), a)
  {
  }

  // -- The class -----------------------------------------------------------------------------------

  function Severity(f: Feed): nat
    requires !f.Tor?
  {
    match f
    case FireholLevel1 => 80
    case SpamhausDrop => 90
    case AbuseIpdb => 75
  }

  ghost predicate TorFits(tor: set<Address>, entries: seq<Candidate>) {
    forall a: Address :: a in tor <==> Plain(a) in entries
  }

  ghost predicate IndexFits(x: Index, entries: seq<Candidate>) {
    IndexOf(x, Merge(Sort(Ranges(Networks(entries)))))
  }

  lemma ScannedIsScan(f: Feed, entries: seq<Candidate>, a: Address)
    requires !f.Tor?
    ensures Scanned(f, entries, a) <==> Scan(Networks(entries), a)
  {
    hide Contains;
    var ns := Networks(entries);
    if Scanned(f, entries, a) {
      var i :| 0 <= i < |entries| && NetworkOf(entries[i]).Some? && Contains(NetworkOf(entries[i]).value, a);
      assert ns[i].Some? && Contains(ns[i].value, a);
    }
  }

  /** The compiled form of the lists: a set of Tor addresses and one interval index per threat feed. */
  class IPReputation {
    const hasKey: bool
    const special: seq<Network>
    var tor: set<Address>
    var lists: map<Feed, Index>
    var last: map<Feed, real>
    /** The lists in force, as sequences of entries. */
    ghost var good: map<Feed, seq<Candidate>>

    ghost function State(): Lists
      reads this
    {
      Lists(good, last)
    }

    ghost predicate Valid()
      reads this
    {
      && TorFits(tor, InForce(State(), Tor))
      && lists.Keys == good.Keys - {Tor}
      && forall f: Feed | f in lists :: IndexFits(lists[f], good[f])
    }

    constructor (hasKey: bool)
      ensures Valid() && State() == Lists(map[], map[]) && this.hasKey == hasKey && special == SPECIAL
    {
      hide SPECIAL;
      this.hasKey, special := hasKey, SPECIAL;
      tor, lists, last := {}, map[], map[];
      good := map[];
    }

    /** `_apply`: an empty list changes nothing. */
    method ApplyList(f: Feed, cs: seq<Candidate>)
      requires Valid()
      modifies this`tor, this`lists, this`good
      ensures Valid() && State() == ApplyText(old(State()), f, cs, special)
    {
      hide UsableOf, Merge, Sort, Ranges, IndexOf;
      var parsed := Collect(cs, special);
      if parsed.entries == [] {
        return;
      }
      if f.Tor? {
        tor := PlainAddresses(parsed.entries);
      } else {
        var index := Build(Networks(parsed.entries));
        assert IndexFits(index, parsed.entries);
        lists := lists[f := index];
      }
      good := good[f := parsed.entries];
    }

    method RefreshFeed(f: Feed, force: bool, now: real, fetch: Fetch)
      requires Valid()
      modifies this`tor, this`lists, this`last, this`good
      ensures Valid() && State() == Step(old(State()), Refresh(f, force, now, fetch), special, hasKey)
    {
      hide TorFits, IndexFits, ApplyText;
      if f.AbuseIpdb? && !hasKey {
        return;
      }
      if !force && now - (if f in last then last[f] else 0.0) < MinInterval(f) {
        return;
      }
      last := last[f := now];
      if fetch.Text? {
        ApplyList(f, fetch.candidates);
      }
    }

    /** `addr in ranges` for one feed: what a scan of the list in force would say. */
    method Listed(f: Feed, a: Address) returns (found: bool)
      requires Valid()
      ensures found <==> Scanned(f, InForce(State(), f), a)
    {
      if f.Tor? {
        return a in tor;
      }
      if f !in lists {
        return false;
      }
      ScannedIsScan(f, good[f], a);
      hide Scanned;
      MembershipIsScan(Networks(good[f]), a);
      found := Member(lists[f], Merge(Sort(Ranges(Networks(good[f])))), a);
    }

    /** `lookup` of a single address: on the Tor list, the threat lists it is on, and their highest severity. */
    method Lookup(a: Address) returns (isTor: bool, names: set<Feed>, risk: nat)
      requires Valid()
      ensures isTor <==> Scanned(Tor, InForce(State(), Tor), a)
      ensures forall f: Feed :: f in names <==> f != Tor && Scanned(f, InForce(State(), f), a)
      ensures risk == if SpamhausDrop in names then 90 else if FireholLevel1 in names then 80
                      else if AbuseIpdb in names then 75 else 0
    {
      hide Scanned, TorFits, IndexFits;
      isTor := Listed(Tor, a);
      names, risk := {}, 0;
      var feeds := [FireholLevel1, SpamhausDrop, AbuseIpdb];
      var i := 0;
      while i < |feeds|
        invariant 0 <= i <= |feeds|
        invariant forall f: Feed :: f in names <==> f in feeds[..i] && Scanned(f, InForce(State(), f), a)
        invariant forall f: Feed | f in names :: f != Tor && Severity(f) <= risk
        invariant risk == 0 || exists f: Feed :: f in names && f != Tor && Severity(f) == risk
      {
        var found := Listed(feeds[i], a);
        if found {
          names := names + {feeds[i]};
          risk := if risk < Severity(feeds[i]) then Severity(feeds[i]) else risk;
        }
        assert feeds[..i + 1] == feeds[..i] + [feeds[i]];
        i := i + 1;
      }
      assert feeds[..i] == feeds && feeds[0].FireholLevel1? && feeds[1].SpamhausDrop? && feeds[2].AbuseIpdb?;
    }
  }

  function PlainAddresses(entries: seq<Candidate>): (s: set<Address>)
    ensures TorFits(s, entries)
  {
    set i | 0 <= i < |entries| && entries[i].Plain? :: entries[i].address
  }
}
