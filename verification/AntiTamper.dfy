/**
 Signed requests with replay protection. A verified nonce is remembered for twice the allowed clock skew S, compared
 against a timestamp that is checked in whole seconds. Exactly when the signer's clock is a full S ahead, a request can be
 accepted a second time.
 */
module AntiTamper {
  // `mac` stands for HMAC-SHA256 under the shared secret; clocks are seconds since 1970.

  import opened Wrappers
  import opened OrderedDict
  import opened SignatureHeader
  import opened Text
  import MemoryStore
  import NonceCache
  import RedisStore

  /** A request as it is signed: upper-case method, path with query, hash of the body. */
  datatype Request = Request(method_: string, path: string, bodyHash: string)

  datatype Outcome = Missing | Malformed | Expired | BadSignature | Replay | Valid

  datatype Checked = Rejected(outcome: Outcome) | Passed(header: Header)

  /** `str(t)`. */
  function Show(t: int): string {
    if t < 0 then "-" + Decimal(-t) else Decimal(t)
  }

  function Signature(mac: string -> string, r: Request, t: int, n: string): string {
    mac(Canonical(Signed(r.method_, r.path, Show(t), n, r.bodyHash)))
  }

  function Sign(mac: string -> string, r: Request, now: real, nonce: string): string
    requires now >= 0.0
  {
    Write(now.Floor, nonce, Signature(mac, r, now.Floor, nonce))
  }

  predicate InSkew(now: real, t: int, skew: nat) {
    now.Floor - t <= skew && t - now.Floor <= skew
  }

  /** Everything before the nonce is looked up. */
  function Check(mac: string -> string, r: Request, header: string, now: real, skew: nat): (c: Checked)
    ensures c.Rejected? ==> c.outcome != Valid && c.outcome != Replay
  {
    if header == "" then Rejected(Missing)
    else
      match Parse(header)
      case None => Rejected(Malformed)
      case Some(h) =>
        if !InSkew(now, h.t, skew) then Rejected(Expired)
        else if Signature(mac, r, h.t, h.n) != h.s then Rejected(BadSignature)
        else Passed(h)
  }

  lemma NonceIsHex(n: string)
    requires IsNonce(n)
    ensures 8 <= |n| <= 64 && forall i | 0 <= i < |n| :: n[i] in "0123456789abcdefABCDEF"
  {
    forall i | 0 <= i < |n| ensures n[i] in "0123456789abcdefABCDEF" {
      Classes(n[i]);
    }
  }

  /** A freshly signed request passes the check at any clock within the skew. */
  lemma FreshlySignedPasses(mac: string -> string, r: Request, signed: real, now: real, nonce: string, skew: nat)
    requires signed >= 0.0 && IsNonce(nonce) && InSkew(now, signed.Floor, skew)
    requires forall x :: mac(x) != "" && Plain(mac(x))
    ensures
      var s := Signature(mac, r, signed.Floor, nonce);
      Check(mac, r, Sign(mac, r, signed, nonce), now, skew) == Passed(Header(signed.Floor, nonce, s))
  {
    hide Parse, Canonical, IsNonce, Plain;
    NonceIsHex(nonce);
    WrittenHeaderParses(signed.Floor, nonce, Signature(mac, r, signed.Floor, nonce));
    assert Sign(mac, r, signed, nonce)[0] == 't';
  }

  ghost predicate Injective(mac: string -> string) {
    forall x, y | mac(x) == mac(y) :: x == y
  }

  ghost predicate OneLineParts(r: Request) {
    OneLine(r.method_) && OneLine(r.path)
  }

  lemma DecimalTells(n: nat)
    ensures OneLine(Decimal(n)) && IsDigit(Decimal(n)[0]) && Digits(Decimal(n)) == Some(n)
  {
    hide Decimal, Digits;
    DecimalIsDigits(n);
    DigitsOfDecimal(n);
  }

  /** `str` is one line and tells the numbers apart. */
  lemma ShowIsDecimal(t: int, u: int)
    ensures OneLine(Show(t)) && (Show(t) == Show(u) ==> t == u)
  {
    hide Decimal, Digits;
    DecimalTells(if t < 0 then -t else t);
    DecimalTells(if u < 0 then -u else u);
    if t < 0 && u < 0 {
      assert Show(t)[1..] == Decimal(-t) && Show(u)[1..] == Decimal(-u);
    }
  }

  /** What passes the check is exactly what was signed: the signature in the header is that of one request with one
      timestamp and one nonce, and these are the ones that passed. */
  lemma PassedWasSigned(mac: string -> string, q: Request, header: string, now: real, skew: nat,
                        r: Request, t: int, n: string)
    requires Injective(mac) && OneLineParts(q) && OneLineParts(r) && OneLine(n)
    requires Check(mac, q, header, now, skew).Passed?
    requires Check(mac, q, header, now, skew).header.s == Signature(mac, r, t, n)
    ensures q == r && Check(mac, q, header, now, skew).header == Header(t, n, Signature(mac, r, t, n))
    ensures now.Floor - skew <= t <= now.Floor + skew
  {
    hide Parse, Canonical, Show;
    var h := Check(mac, q, header, now, skew).header;
    assert Parse(header) == Some(h);
    ParsedNonce(header);
    ShowIsDecimal(h.t, t);
    ShowIsDecimal(t, t);
    CanonicalIsInjective(Signed(q.method_, q.path, Show(h.t), h.n, q.bodyHash),
                         Signed(r.method_, r.path, Show(t), n, r.bodyHash));
  }

  lemma ParsedNonce(header: string)
    ensures Parse(header).Some? ==> IsNonce(Parse(header).value.n) && OneLine(Parse(header).value.n)
  {
    hide Split, Parts, ParseInt;
  }

  /** One signature covers one request: a header that was signed for r passes with no other request. */
  lemma SignatureCoversRequest(mac: string -> string, q: Request, r: Request, signed: real, now: real, nonce: string,
                               skew: nat)
    requires Injective(mac) && OneLineParts(q) && OneLineParts(r) && signed >= 0.0 && IsNonce(nonce)
    requires forall x :: mac(x) != "" && Plain(mac(x))
    ensures Check(mac, q, Sign(mac, r, signed, nonce), now, skew).Passed? <==> q == r && InSkew(now, signed.Floor, skew)
  {
    hide Parse, Canonical, IsNonce, Plain;
    NonceIsHex(nonce);
    WrittenHeaderParses(signed.Floor, nonce, Signature(mac, r, signed.Floor, nonce));
    assert Sign(mac, r, signed, nonce)[0] == 't';
    if Check(mac, q, Sign(mac, r, signed, nonce), now, skew).Passed? {
      NonceIsOneLine(nonce);
      PassedWasSigned(mac, q, Sign(mac, r, signed, nonce), now, skew, r, signed.Floor, nonce);
    }
  }

  lemma NonceIsOneLine(n: string)
    requires IsNonce(n)
    ensures OneLine(n)
  {
  }

  /** Why a request is refused before its nonce is looked up. */
  lemma RefusalReasons(mac: string -> string, r: Request, header: string, now: real, skew: nat)
    ensures
      var c := Check(mac, r, header, now, skew);
      && (c == Rejected(Missing) <==> header == "")
      && (c == Rejected(Malformed) <==> header != "" && Parse(header).None?)
      && (header != "" && Parse(header).Some? ==>
            var h := Parse(header).value;
            && (c == Rejected(Expired) <==> now.Floor > h.t + skew || now.Floor < h.t - skew)
            && (c == Rejected(BadSignature) <==>
                  h.t - skew <= now.Floor <= h.t + skew && h.s != Signature(mac, r, h.t, h.n)))
  {
    hide Parse, Signature;
  }

  // -- Nonces in the process -----------------------------------------------------------------------

  type Nonces = seq<Entry<real>>

  function Recent(d: Nonces, horizon: real): (r: Nonces)
    ensures forall e | e in r :: e in d && e.value >= horizon
    ensures forall e | e in d && e.value >= horizon :: e in r
  {
    if d == [] then []
    else if d[0].value >= horizon then [d[0]] + Recent(d[1..], horizon)
    else Recent(d[1..], horizon)
  }

  /** `_evict`. */
  function Evict(d: Nonces, now: real, skew: nat, maxNonces: nat): Nonces {
    var horizon := now - (2 * skew) as real;
    if |d| > maxNonces || (d != [] && d[0].value < horizon) then Recent(d, horizon) else d
  }

  datatype Result = Result(nonces: Nonces, outcome: Outcome)

  function Verify(d: Nonces, c: Checked, now: real, skew: nat, maxNonces: nat): Result {
    match c
    case Rejected(o) => Result(d, o)
    case Passed(h) =>
      var kept := Evict(d, now, skew, maxNonces);
      if Find(kept, h.n).Some? then Result(kept, Replay)
      else Result(kept + [Entry(h.n, now)], Valid)
  }

  // -- Runs ----------------------------------------------------------------------------------------

  datatype Setup = Setup(mac: string -> string, skew: nat, maxNonces: nat)

  datatype Call = Call(request: Request, header: string, now: real)

  ghost function CheckAt(u: Setup, c: Call): (r: Checked)
    ensures r.Rejected? ==> r.outcome != Valid && r.outcome != Replay
  {
    Check(u.mac, c.request, c.header, c.now, u.skew)
  }

  ghost function State(u: Setup, h: seq<Call>): Nonces {
    if h == [] then []
    else Verify(State(u, h[..|h| - 1]), CheckAt(u, h[|h| - 1]), h[|h| - 1].now, u.skew, u.maxNonces).nonces
  }

  ghost predicate Accepted(u: Setup, h: seq<Call>, i: nat)
    requires i < |h|
  {
    Verify(State(u, h[..i]), CheckAt(u, h[i]), h[i].now, u.skew, u.maxNonces).outcome == Valid
  }

  ghost predicate Clock(h: seq<Call>) {
    (forall i | 0 <= i < |h| :: h[i].now >= 0.0) && forall i, j | 0 <= i < j < |h| :: h[i].now <= h[j].now
  }

  /** Entries in order of time, none twice, none later than `now`. */
  ghost predicate OldestFirst(d: Nonces, now: real) {
    && Distinct(d)
    && (forall i | 0 <= i < |d| :: d[i].value <= now)
    && (forall i, j | 0 <= i < j < |d| :: d[i].value <= d[j].value)
  }

  lemma {:induction false} RecentKeepsOrder(d: Nonces, horizon: real, now: real)
    requires OldestFirst(d, now)
    ensures OldestFirst(Recent(d, horizon), now)
  {
    if d != [] {
      RecentKeepsOrder(d[1..], horizon, now);
      var r := Recent(d[1..], horizon);
      forall i | 0 <= i < |r| ensures r[i].value >= d[0].value && r[i].key != d[0].key {
        assert r[i] in d[1..];
      }
      PrependKeepsOrder(d[0], r, now);
    }
  }

  lemma PrependKeepsOrder(e: Entry<real>, r: Nonces, now: real)
    requires OldestFirst(r, now) && e.value <= now
    requires forall i | 0 <= i < |r| :: r[i].value >= e.value && r[i].key != e.key
    ensures OldestFirst([e] + r, now)
  {
    var all := [e] + r;
    forall i, j | 0 <= i < j < |all| ensures all[i].value <= all[j].value && all[i].key != all[j].key {
      assert all[j] == r[j - 1];
      assert i > 0 ==> all[i] == r[i - 1];
    }
  }

  lemma AppendKeepsOrder(r: Nonces, n: Key, now: real)
    requires OldestFirst(r, now) && Find(r, n).None?
    ensures OldestFirst(r + [Entry(n, now)], now)
  {
  }

  lemma VerifyKeepsOrder(d: Nonces, c: Checked, before: real, now: real, skew: nat, maxNonces: nat)
    requires OldestFirst(d, before) && before <= now
    ensures OldestFirst(Verify(d, c, now, skew, maxNonces).nonces, now)
  {
    assert OldestFirst(d, now);
    if c.Passed? {
      RecentKeepsOrder(d, now - (2 * skew) as real, now);
      var kept := Evict(d, now, skew, maxNonces);
      assert OldestFirst(kept, now);
      hide OldestFirst, Evict, Find;
      if Find(kept, c.header.n).None? {
        AppendKeepsOrder(kept, c.header.n, now);
      }
    }
  }

  lemma {:induction false} StateOldestFirst(u: Setup, h: seq<Call>)
    requires Clock(h)
    ensures OldestFirst(State(u, h), if h == [] then 0.0 else h[|h| - 1].now)
  {
    if h != [] {
      var last := |h| - 1;
      StateOldestFirst(u, h[..last]);
      VerifyKeepsOrder(State(u, h[..last]), CheckAt(u, h[last]),
                       if last == 0 then 0.0 else h[last - 1].now, h[last].now, u.skew, u.maxNonces);
    }
  }

  lemma OldIsGone(d: Nonces, n: Key, t: real, horizon: real, latest: real)
    requires OldestFirst(d, latest) && Holds(d, n, t) && t < horizon
    ensures d[0].value < horizon && forall e | e in Recent(d, horizon) :: e.key != n
  {
    var kept := Recent(d, horizon);
    hide Recent;
    var p :| 0 <= p < |d| && d[p] == Entry(n, t);
    assert d[0].value <= d[p].value;
    forall e | e in kept ensures e.key != n {
      var i :| 0 <= i < |d| && d[i] == e;
      assert i != p;
    }
  }

  /** Eviction forgets exactly the nonces older than the horizon: the oldest one triggers it. */
  lemma EvictForgetsOld(d: Nonces, n: Key, t: real, now: real, skew: nat, maxNonces: nat, latest: real)
    requires OldestFirst(d, latest) && Holds(d, n, t)
    ensures Find(Evict(d, now, skew, maxNonces), n) == if t >= now - (2 * skew) as real then Some(t) else None
  {
    hide Recent, Find, Distinct;
    var horizon := now - (2 * skew) as real;
    RecentKeepsOrder(d, horizon, latest);
    var kept := Evict(d, now, skew, maxNonces);
    if t >= horizon {
      assert Holds(kept, n, t);
      MemoryStore.FindUnique(kept, n, t);
    } else {
      OldIsGone(d, n, t, horizon, latest);
      FindNone(kept, n);
    }
  }

  /** A nonce that is not there is not found after eviction either. */
  lemma EvictAddsNothing(d: Nonces, n: Key, now: real, skew: nat, maxNonces: nat)
    requires Find(d, n).None?
    ensures Find(Evict(d, now, skew, maxNonces), n).None?
  {
    var kept := Evict(d, now, skew, maxNonces);
    forall e | e in kept ensures e.key != n {
      assert e in d;
    }
    FindNone(kept, n);
  }

  ghost predicate PassesWith(u: Setup, c: Call, n: string, t: int) {
    CheckAt(u, c).Passed? && CheckAt(u, c).header.n == n && CheckAt(u, c).header.t == t
  }

  /** No call between i and j with this nonce was accepted. */
  ghost predicate QuietBetween(u: Setup, h: seq<Call>, n: string, i: nat, j: nat)
    requires i <= j <= |h|
  {
    forall m | i < m < j && CheckAt(u, h[m]).Passed? && CheckAt(u, h[m]).header.n == n :: !Accepted(u, h, m)
  }

  /** An accepted nonce is remembered with its time, or is more than 2 S old. */
  ghost predicate Remembered(d: Nonces, n: string, accepted: real, now: real, skew: nat) {
    Find(d, n) == Some(accepted) || (Find(d, n) == None && accepted < now - (2 * skew) as real)
  }

  lemma RememberedStep(d: Nonces, c: Checked, n: string, accepted: real, before: real, now: real, skew: nat,
                       maxNonces: nat)
    requires OldestFirst(d, before) && before <= now && Remembered(d, n, accepted, before, skew)
    requires c.Passed? && c.header.n == n ==> Verify(d, c, now, skew, maxNonces).outcome != Valid
    ensures Remembered(Verify(d, c, now, skew, maxNonces).nonces, n, accepted, now, skew)
  {
    if c.Passed? {
      var kept := Evict(d, now, skew, maxNonces);
      if Find(d, n).Some? {
        EvictForgetsOld(d, n, accepted, now, skew, maxNonces, before);
      } else {
        EvictAddsNothing(d, n, now, skew, maxNonces);
      }
      if c.header.n != n {
        FindAppended(kept, c.header.n, now, n);
      }
    }
  }

  lemma {:induction false} FindAppended(d: Nonces, k: Key, v: real, n: Key)
    ensures Find(d + [Entry(k, v)], n) == if Find(d, n).Some? then Find(d, n) else if k == n then Some(v) else None
  {
    var all := d + [Entry(k, v)];
    if d != [] {
      FindAppended(d[1..], k, v, n);
      assert all[1..] == d[1..] + [Entry(k, v)];
    } else {
      assert all[1..] == [];
    }
  }

  lemma {:induction false} StaysRemembered(u: Setup, h: seq<Call>, i: nat, j: nat, n: string)
    requires i < j <= |h| && Clock(h) && Accepted(u, h, i) && CheckAt(u, h[i]).header.n == n
    requires QuietBetween(u, h, n, i, j)
    ensures Remembered(State(u, h[..j]), n, h[i].now, h[j - 1].now, u.skew)
  {
    hide CheckAt, Verify, OldestFirst;
    var last := j - 1;
    assert h[..j][..last] == h[..last];
    if last == i {
      AcceptedIsRemembered(State(u, h[..i]), CheckAt(u, h[i]), h[i].now, u.skew, u.maxNonces);
    } else {
      StaysRemembered(u, h, i, last, n);
      StateOldestFirst(u, h[..last]);
      RememberedStep(State(u, h[..last]), CheckAt(u, h[last]), n, h[i].now, h[last - 1].now, h[last].now, u.skew,
                     u.maxNonces);
    }
  }

  lemma AcceptedIsRemembered(d: Nonces, c: Checked, now: real, skew: nat, maxNonces: nat)
    requires Verify(d, c, now, skew, maxNonces).outcome == Valid && (c.Rejected? ==> c.outcome != Valid)
    ensures c.Passed? && Find(Verify(d, c, now, skew, maxNonces).nonces, c.header.n) == Some(now)
  {
    FindAppended(Evict(d, now, skew, maxNonces), c.header.n, now, c.header.n);
  }

  /** A nonce accepted at call i that passes the check again at call j, in whatever header, is accepted again exactly if
      more than 2 S have passed. */
  lemma {:induction false} AcceptedAgainIff(u: Setup, h: seq<Call>, i: nat, j: nat, n: string, t: int)
    requires i < j < |h| && Clock(h) && Accepted(u, h, i) && PassesWith(u, h[i], n, t)
    requires PassesWith(u, h[j], n, t) && QuietBetween(u, h, n, i, j)
    ensures Accepted(u, h, j) <==> h[j].now - h[i].now > (2 * u.skew) as real
  {
    hide CheckAt, OldestFirst, Evict, Recent, State, Find;
    StaysRemembered(u, h, i, j, n);
    StateOldestFirst(u, h[..j]);
    var d := State(u, h[..j]);
    if Find(d, n).Some? {
      EvictForgetsOld(d, n, h[i].now, h[j].now, u.skew, u.maxNonces, h[j - 1].now);
    } else {
      EvictAddsNothing(d, n, h[j].now, u.skew, u.maxNonces);
      assert h[j - 1].now <= h[j].now;
    }
  }

  /** The signer's clock was at most S - 1 whole seconds ahead at the first acceptance: then the nonce stays known for as
      long as the timestamp is accepted. */
  lemma TimestampExpiresFirst(accepted: real, later: real, t: int, skew: nat)
    requires t <= accepted.Floor + skew - 1 && InSkew(later, t, skew)
    ensures later - accepted < (2 * skew) as real
  {
    assert later.Floor + 1 <= accepted.Floor + 2 * skew;
    RealStep(later.Floor + 1, accepted.Floor + 2 * skew);
  }

  lemma RealStep(a: int, b: int)
    requires a <= b
    ensures a as real <= b as real
  {
  }

  /** The signer draws a fresh nonce for each request, and signatures cannot be forged: whatever passes the check with
      this nonce carries the timestamp it was signed with. The header may be written in another order or spacing. */
  ghost predicate SignedWith(u: Setup, h: seq<Call>, n: string, t: int) {
    forall m | 0 <= m < |h| && CheckAt(u, h[m]).Passed? && CheckAt(u, h[m]).header.n == n :: CheckAt(u, h[m]).header.t == t
  }

  /** In every run a nonce that was accepted is accepted again exactly if it passes the check again more than 2 S later. */
  lemma {:induction false} AcceptedTwiceIff(u: Setup, h: seq<Call>, i: nat, n: string, t: int)
    requires i < |h| && Clock(h) && Accepted(u, h, i) && PassesWith(u, h[i], n, t) && SignedWith(u, h, n, t)
    ensures
      (exists j | i < j < |h| :: PassesWith(u, h[j], n, t) && Accepted(u, h, j))
      <==> (exists j | i < j < |h| :: PassesWith(u, h[j], n, t) && h[j].now - h[i].now > (2 * u.skew) as real)
  {
    hide CheckAt, Accepted;
    if j :| i < j < |h| && PassesWith(u, h[j], n, t) && Accepted(u, h, j) {
      var first := FirstAgain(u, h, i, j, n, t);
      AcceptedAgainIff(u, h, i, first, n, t);
    }
    if j :| i < j < |h| && PassesWith(u, h[j], n, t) && h[j].now - h[i].now > (2 * u.skew) as real {
      if QuietBetween(u, h, n, i, j) {
        AcceptedAgainIff(u, h, i, j, n, t);
      }
    }
  }

  /** The first acceptance of the nonce after i. */
  lemma {:induction false} FirstAgain(u: Setup, h: seq<Call>, i: nat, j: nat, n: string, t: int) returns (first: nat)
    requires i < j < |h| && PassesWith(u, h[j], n, t) && Accepted(u, h, j) && SignedWith(u, h, n, t)
    ensures i < first <= j && PassesWith(u, h[first], n, t) && Accepted(u, h, first) && QuietBetween(u, h, n, i, first)
    decreases j
  {
    hide CheckAt, Accepted;
    if m :| i < m < j && CheckAt(u, h[m]).Passed? && CheckAt(u, h[m]).header.n == n && Accepted(u, h, m) {
      first := FirstAgain(u, h, i, m, n, t);
    } else {
      first := j;
    }
  }

  /** In every run a signed nonce is accepted at most once if the signer's clock was at most S - 1 seconds ahead. */
  lemma {:induction false} AcceptedOnce(u: Setup, h: seq<Call>, i: nat, j: nat, n: string, t: int)
    requires i < j < |h| && Clock(h) && Accepted(u, h, i) && PassesWith(u, h[i], n, t) && SignedWith(u, h, n, t)
    requires t <= h[i].now.Floor + u.skew - 1
    requires CheckAt(u, h[j]).Passed? && CheckAt(u, h[j]).header.n == n
    ensures !Accepted(u, h, j)
  {
    hide Accepted, Signature, Parse;
    forall m | i < m < |h| && PassesWith(u, h[m], n, t) ensures h[m].now - h[i].now < (2 * u.skew) as real {
      assert InSkew(h[m].now, t, u.skew);
      TimestampExpiresFirst(h[i].now, h[m].now, t, u.skew);
    }
    AcceptedTwiceIff(u, h, i, n, t);
    assert PassesWith(u, h[j], n, t);
  }

  /** A time at which a request that was signed a full S ahead is accepted again. */
  function SecondChance(accepted: real, skew: nat): real {
    accepted + (2 * skew) as real + (accepted.Floor as real + 1.0 - accepted) / 2.0
  }

  /** Right after an acceptance, the same request can be accepted at some later time exactly if its timestamp was a full
      S seconds ahead. */
  lemma ReplayableIff(u: Setup, h: seq<Call>, i: nat, n: string, t: int)
    requires i < |h| && |h| == i + 1 && Clock(h) && Accepted(u, h, i) && PassesWith(u, h[i], n, t)
    ensures
      (exists later: real :: later >= h[i].now && Accepted(u, h + [Call(h[i].request, h[i].header, later)], i + 1))
      <==> t == h[i].now.Floor + u.skew
  {
    hide Parse, Signature, Verify;
    assert InSkew(h[i].now, t, u.skew);
    forall later: real | later >= h[i].now
      ensures Accepted(u, h + [Call(h[i].request, h[i].header, later)], i + 1)
              <==> InSkew(later, t, u.skew) && later - h[i].now > (2 * u.skew) as real
    {
      Extended(u, h, i, Call(h[i].request, h[i].header, later), n, t);
      if t <= h[i].now.Floor + u.skew - 1 && InSkew(later, t, u.skew) {
        TimestampExpiresFirst(h[i].now, later, t, u.skew);
      }
    }
    if t == h[i].now.Floor + u.skew {
      var later := SecondChance(h[i].now, u.skew);
      SecondChanceWorks(h[i].now, u.skew);
      assert Accepted(u, h + [Call(h[i].request, h[i].header, later)], i + 1);
    }
  }

  lemma Extended(u: Setup, h: seq<Call>, i: nat, c: Call, n: string, t: int)
    requires i < |h| && |h| == i + 1 && Clock(h) && Accepted(u, h, i) && PassesWith(u, h[i], n, t)
    requires c.request == h[i].request && c.header == h[i].header && c.now >= h[i].now
    ensures Accepted(u, h + [c], i + 1) <==> InSkew(c.now, t, u.skew) && c.now - h[i].now > (2 * u.skew) as real
  {
    hide Parse, Signature, State;
    var g := h + [c];
    assert g[..i] == h[..i] && g[i] == h[i] && g[i + 1] == c;
    forall a, b | 0 <= a < b < |g| ensures g[a].now <= g[b].now {
      if b == i + 1 {
        assert a == i || h[a].now <= h[i].now;
      }
    }
    assert PassesWith(u, c, n, t) <==> InSkew(c.now, t, u.skew);
    if PassesWith(u, c, n, t) {
      AcceptedAgainIff(u, g, i, i + 1, n, t);
    }
  }

  lemma SecondChanceWorks(accepted: real, skew: nat)
    requires accepted >= 0.0
    ensures
      var later := SecondChance(accepted, skew);
      later >= accepted && later - accepted > (2 * skew) as real && InSkew(later, accepted.Floor + skew, skew)
  {
    var later := SecondChance(accepted, skew);
    assert later < accepted.Floor as real + 1.0 + (2 * skew) as real;
    assert later > accepted.Floor as real + (2 * skew) as real;
    assert accepted.Floor as real + (2 * skew) as real == (accepted.Floor + 2 * skew) as real;
    assert later.Floor == accepted.Floor + 2 * skew;
  }

  // -- Nonces in a store or in the Node cache --------------------------------------------------------

  /** With a shared store the claim of a nonce lasts 2 S, so a second request whose timestamp is still accepted is
      refused, as long as the store keeps its keys. */
  lemma {:induction false} StoreRefusesReplay(h: seq<MemoryStore.Claim>, i: nat, j: nat, maxKeys: nat, t: int,
                                              skew: nat)
    requires maxKeys > 0 && i < j < |h| && MemoryStore.ClaimClock(h)
    requires h[i].key == h[j].key && h[i].ttl == (2 * skew) as real && MemoryStore.Granted(h, i, maxKeys)
    requires MemoryStore.Undisturbed(h, h[i].key, i, j, maxKeys)
    requires t <= h[i].now.Floor + skew - 1 && InSkew(h[j].now, t, skew)
    ensures !MemoryStore.Granted(h, j, maxKeys)
  {
    TimestampExpiresFirst(h[i].now, h[j].now, t, skew);
    MemoryStore.GrantedOncePerTtl(h, i, j, maxKeys);
  }

  /** The same in Redis, whose clock counts milliseconds. The two verifiers' clocks are ahead of it by `offset1` and
      `offset2`; the first claims its nonce after reading its clock, the second at most `delay` after that. */
  lemma RedisRefusesReplay(h: seq<RedisStore.Claim>, i: nat, j: nat, t: int, skew: nat, first: real, offset1: real,
                           second: real, offset2: real, delay: real)
    requires i < j < |h| && RedisStore.ClaimClock(h) && h[j].key == h[i].key
    requires RedisStore.Granted(h, i) && h[i].ttl == RedisStore.Px((2 * skew) as real)
    requires h[i].at as real > 1000.0 * (first - offset1) - 1.0
    requires h[j].at as real <= 1000.0 * (second - offset2 + delay)
    requires InSkew(second, t, skew)
    requires (t - first.Floor) as real + offset1 - offset2 + delay <= skew as real - 1.001
    ensures !RedisStore.Granted(h, j)
  {
    RedisStore.ClaimIsExact(h, j);
    assert RedisStore.GrantedFor(h, j, h[j].key, i);
    assert h[i].ttl >= 2000 * skew;
    assert second < (t + skew + 1) as real;
    assert first >= first.Floor as real;
  }

  /** The Node verifier checks `Math.floor(now / 1000)` and keeps nonces for 2 S in its cache. */
  lemma NodeCacheRefusesReplay(h: seq<NonceCache.Event>, i: nat, j: nat, t: int, skew: nat)
    requires i < j < |h| && h[i].Use? && h[j].Use? && h[j].nonce == h[i].nonce
    requires forall a, b | 0 <= a < b < |h| :: h[a].now <= h[b].now
    requires NonceCache.Fresh(h, i, 2000 * skew)
    requires t <= h[i].now / 1000 + skew - 1 && h[j].now / 1000 - t <= skew
    ensures !NonceCache.Fresh(h, j, 2000 * skew)
  {
    forall m | i < m < j && h[m].Clean? ensures h[m].now - 2000 * skew <= h[i].now {
      assert h[m].now <= h[j].now;
    }
    NonceCache.FreshOnce(h, i, j, 2000 * skew);
  }

  // -- The class -----------------------------------------------------------------------------------

  class Verifier {
    const setup: Setup
    var nonces: Nonces

    constructor (setup: Setup)
      ensures this.setup == setup && nonces == State(setup, [])
    {
      this.setup := setup;
      nonces := [];
    }

    method VerifyRequest(r: Request, header: string, now: real) returns (outcome: Outcome)
      modifies this
      ensures Result(nonces, outcome)
              == Verify(old(nonces), Check(setup.mac, r, header, now, setup.skew), now, setup.skew, setup.maxNonces)
    {
      hide Recent, Find, Parse, Signature;
      if header == "" {
        return Missing;
      }
      var parsed := ParseHeader(header);
      if parsed.None? {
        return Malformed;
      }
      var h := parsed.value;
      if !InSkew(now, h.t, setup.skew) {
        return Expired;
      }
      if Signature(setup.mac, r, h.t, h.n) != h.s {
        return BadSignature;
      }
      var horizon := now - (2 * setup.skew) as real;
      if |nonces| > setup.maxNonces || (nonces != [] && nonces[0].value < horizon) {
        nonces := Recent(nonces, horizon);
      }
      if Find(nonces, h.n).Some? {
        return Replay;
      }
      nonces := nonces + [Entry(h.n, now)];
      return Valid;
    }
  }
}
