/**
 Proof-of-work challenges verified by a fleet of Python and Node servers that share one set-if-absent store.
 */
module PowProtocol {
  // Each server has its own clock; it reads that clock, rejects an expired challenge, claims the id in the store some
  // time later, and only then evaluates scrypt. Real time is in seconds since 1970. The store's clock counts whole
  // milliseconds, and a claim expires by that clock. HMAC is taken as unforgeable: a server gets past the signature check
  // only with claims that were issued.

  datatype Claims = Claims(id: string, exp: int)

  datatype Kind = Python | Node

  /** A server: its language and how far its clock is ahead of real time. */
  datatype Server = Server(kind: Kind, offset: real)

  function Milliseconds(t: real): int {
    (t * 1000.0).Floor
  }

  /** The expiry check: `int(now) > exp`, and `Math.floor(now / 1000) > exp` on milliseconds. */
  predicate Expired(kind: Kind, reading: real, exp: int) {
    match kind
    case Python => reading.Floor > exp
    case Node => Milliseconds(reading) / 1000 > exp
  }

  /** The time to live a server asks for, in milliseconds: exp + 60 - now, rounded down (Python) or up (Node), and at
      least 1. */
  function TimeToLive(kind: Kind, reading: real, exp: int): (ms: int)
    ensures ms >= 1
  {
    var asked := match kind
      case Python => Milliseconds((exp + 60) as real - reading)
      case Node => (exp + 60) * 1000 - Milliseconds(reading);
    if asked < 1 then 1 else asked
  }

  // -- The state machine ---------------------------------------------------------------------------

  /** A verification between its clock check and its claim. */
  datatype Check = Check(server: nat, claims: Claims, at: real)

  datatype State = State(
    now: real,
    issued: set<Claims>,
    store: map<string, int>,       // id -> expiry by the store's clock
    pending: seq<Check>,
    evaluated: seq<Claims>)        // scrypt evaluations so far

  datatype Action =
    | Wait(until: real)
    | Issue(server: nat, claims: Claims)
    | Begin(server: nat, claims: Claims)
    | Claim(index: nat)

  /** Lifetime of a challenge, the largest time between a server's clock check and its claim, and the servers. */
  datatype Config = Config(servers: seq<Server>, ttl: nat, delay: real)

  function Reading(c: Config, server: nat, t: real): real
    requires server < |c.servers|
  {
    t + c.servers[server].offset
  }

  ghost predicate Enabled(c: Config, s: State, a: Action) {
    match a
    case Wait(until) => until >= s.now
    case Issue(server, claims) =>
      // ids are drawn at random and never repeat
      && server < |c.servers| && Reading(c, server, s.now) >= 0.0
      && claims.exp == Reading(c, server, s.now).Floor + c.ttl
      && forall other | other in s.issued :: other.id != claims.id
    case Begin(server, claims) =>
      && server < |c.servers| && Reading(c, server, s.now) >= 0.0
      && claims in s.issued
    case Claim(i) => i < |s.pending| && s.now <= s.pending[i].at + c.delay
  }

  /** A key is free in the millisecond in which it expires. */
  predicate Taken(s: State, id: string) {
    id in s.store && Milliseconds(s.now) < s.store[id]
  }

  function WithoutIndex(checks: seq<Check>, i: nat): seq<Check>
    requires i < |checks|
  {
    checks[..i] + checks[i + 1..]
  }

  ghost function Next(c: Config, s: State, a: Action): State
    requires Enabled(c, s, a)
  {
    match a
    case Wait(until) => s.(now := until)
    case Issue(_, claims) => s.(issued := s.issued + {claims})
    case Begin(server, claims) =>
      if Expired(c.servers[server].kind, Reading(c, server, s.now), claims.exp) then s
      else s.(pending := s.pending + [Check(server, claims, s.now)])
    case Claim(i) =>
      var check := s.pending[i];
      var rest := s.(pending := WithoutIndex(s.pending, i));
      if check.server >= |c.servers| || Taken(s, check.claims.id) then rest
      else
        var reading := Reading(c, check.server, check.at);
        var expires := Milliseconds(s.now) + TimeToLive(c.servers[check.server].kind, reading, check.claims.exp);
        rest.(store := s.store[check.claims.id := expires], evaluated := s.evaluated + [check.claims])
  }

  function Start(t: real): State {
    State(t, {}, map[], [], [])
  }

  ghost predicate Legal(c: Config, s: State, run: seq<Action>)
    decreases |run|
  {
    run == [] || (Enabled(c, s, run[0]) && Legal(c, Next(c, s, run[0]), run[1..]))
  }

  ghost function After(c: Config, s: State, run: seq<Action>): State
    requires Legal(c, s, run)
    decreases |run|
  {
    if run == [] then s else After(c, Next(c, s, run[0]), run[1..])
  }

  // -- Safety --------------------------------------------------------------------------------------

  /** Every challenge was evaluated at most once. */
  ghost predicate EvaluatedOnce(s: State) {
    forall i, j | 0 <= i < j < |s.evaluated| :: s.evaluated[i].id != s.evaluated[j].id
  }

  /** The earliest time by the store's clock at which a server's claim of a challenge that expires at `exp` can lapse. */
  function EarliestLapse(server: Server, exp: int): int {
    Milliseconds((exp + 60) as real - server.offset) - (if server.kind.Python? then 1 else 0)
  }

  /** No server can claim a challenge (of expiry 0, to fix the origin) once another server's claim can have lapsed. Up to
      2 ms of rounding, no clock is ahead of another by more than 59 s less the time between check and claim. */
  ghost predicate ClocksAgree(c: Config) {
    forall p, q | 0 <= p < |c.servers| && 0 <= q < |c.servers| ::
      1000.0 * (1.0 - c.servers[q].offset + c.delay) <= EarliestLapse(c.servers[p], 0) as real
  }

  ghost predicate CheckPassed(c: Config, s: State, k: Check) {
    && k.server < |c.servers| && k.claims in s.issued && k.at <= s.now
    && Reading(c, k.server, k.at) < (k.claims.exp + 1) as real
  }

  /** The claim outlives every check of the challenge that can still pass. */
  ghost predicate ClaimHolds(c: Config, s: State, k: Claims) {
    && k in s.issued && k.id in s.store
    && exists p | 0 <= p < |c.servers| :: s.store[k.id] >= EarliestLapse(c.servers[p], k.exp)
  }

  ghost predicate Invariant(c: Config, s: State) {
    && (forall x, y | x in s.issued && y in s.issued && x.id == y.id :: x == y)
    && (forall i | 0 <= i < |s.pending| :: CheckPassed(c, s, s.pending[i]))
    && (forall i | 0 <= i < |s.evaluated| :: ClaimHolds(c, s, s.evaluated[i]))
    && EvaluatedOnce(s)
  }

  lemma FloorFacts(t: real)
    ensures (Milliseconds(t) as real) <= 1000.0 * t < Milliseconds(t) as real + 1.0
  {
  }

  lemma NotExpired(kind: Kind, reading: real, exp: int)
    ensures Expired(kind, reading, exp) <==> reading >= (exp + 1) as real
  {
    FloorFacts(reading);
    var ms := Milliseconds(reading);
    if kind.Node? {
      if reading >= (exp + 1) as real {
        assert ms >= 1000 * (exp + 1);
      } else {
        assert ms < 1000 * (exp + 1);
      }
    }
  }

  /** A server that passed its own check asks for at least 59 s, so the minimum of a millisecond is never used. */
  lemma AsksForMost(kind: Kind, reading: real, exp: int)
    requires !Expired(kind, reading, exp)
    ensures TimeToLive(kind, reading, exp) >= 59_000
  {
    NotExpired(kind, reading, exp);
    FloorFacts(reading);
    FloorFacts((exp + 60) as real - reading);
  }

  lemma LapseShifts(server: Server, exp: int)
    ensures EarliestLapse(server, exp) == EarliestLapse(server, 0) + 1000 * exp
  {
    FloorFacts(60.0 - server.offset);
    FloorFacts((exp + 60) as real - server.offset);
  }

  lemma GrantOutlives(server: Server, now: real, at: real, exp: int)
    requires at <= now
    ensures Milliseconds(now) + TimeToLive(server.kind, at + server.offset, exp) >= EarliestLapse(server, exp)
  {
    FloorFacts(now);
    FloorFacts(at + server.offset);
    FloorFacts((exp + 60) as real - (at + server.offset));
    FloorFacts((exp + 60) as real - server.offset);
  }

  /** A check that passed cannot be claimed after an earlier claim of its challenge lapsed. */
  lemma LateCheckIsRefused(c: Config, s: State, k: Check)
    requires ClocksAgree(c) && CheckPassed(c, s, k) && s.now <= k.at + c.delay && ClaimHolds(c, s, k.claims)
    ensures Taken(s, k.claims.id)
  {
    var p :| 0 <= p < |c.servers| && s.store[k.claims.id] >= EarliestLapse(c.servers[p], k.claims.exp);
    LapseShifts(c.servers[p], k.claims.exp);
    FloorFacts(s.now);
    hide EarliestLapse, Milliseconds;
    assert 1000.0 * (1.0 - c.servers[k.server].offset + c.delay) <= EarliestLapse(c.servers[p], 0) as real;
  }

  lemma ClaimKeepsInvariant(c: Config, s: State, i: nat)
    requires Invariant(c, s) && ClocksAgree(c) && Enabled(c, s, Claim(i))
    ensures Invariant(c, Next(c, s, Claim(i)))
  {
    hide Milliseconds, TimeToLive, EarliestLapse, ClocksAgree;
    var k := s.pending[i];
    var s' := Next(c, s, Claim(i));
    assert CheckPassed(c, s, k);
    forall j | 0 <= j < |s'.pending| ensures CheckPassed(c, s', s'.pending[j]) {
      assert s'.pending[j] == s.pending[if j < i then j else j + 1];
    }
    if !Taken(s, k.claims.id) {
      forall j | 0 <= j < |s.evaluated| ensures s.evaluated[j].id != k.claims.id {
        if s.evaluated[j].id == k.claims.id {
          assert s.evaluated[j] == k.claims;
          LateCheckIsRefused(c, s, k);
        }
      }
      GrantOutlives(c.servers[k.server], s.now, k.at, k.claims.exp);
      assert ClaimHolds(c, s', k.claims);
      forall j | 0 <= j < |s'.evaluated| ensures ClaimHolds(c, s', s'.evaluated[j]) {
        if j < |s.evaluated| {
          assert ClaimHolds(c, s, s.evaluated[j]);
        }
      }
    }
  }

  lemma NextKeepsInvariant(c: Config, s: State, a: Action)
    requires Invariant(c, s) && ClocksAgree(c) && Enabled(c, s, a)
    ensures Invariant(c, Next(c, s, a))
  {
    match a
    case Claim(i) => ClaimKeepsInvariant(c, s, i);
    case Begin(server, claims) =>
      NotExpired(c.servers[server].kind, Reading(c, server, s.now), claims.exp);
      OthersKeep(c, s, a);
    case _ => OthersKeep(c, s, a);
  }

  lemma OthersKeep(c: Config, s: State, a: Action)
    requires Invariant(c, s) && Enabled(c, s, a) && !a.Claim?
    requires a.Begin? ==> (Expired(c.servers[a.server].kind, Reading(c, a.server, s.now), a.claims.exp)
                           <==> Reading(c, a.server, s.now) >= (a.claims.exp + 1) as real)
    ensures Invariant(c, Next(c, s, a))
  {
    hide Expired, TimeToLive, Milliseconds, EarliestLapse;
    var s' := Next(c, s, a);
    forall i | 0 <= i < |s'.evaluated| ensures ClaimHolds(c, s', s'.evaluated[i]) {
      assert ClaimHolds(c, s, s.evaluated[i]);
    }
    forall i | 0 <= i < |s'.pending| ensures CheckPassed(c, s', s'.pending[i]) {
      assert i < |s.pending| ==> CheckPassed(c, s, s.pending[i]);
    }
  }

  lemma {:induction false} RunKeepsInvariant(c: Config, s: State, run: seq<Action>)
    requires Invariant(c, s) && ClocksAgree(c) && Legal(c, s, run)
    ensures Invariant(c, After(c, s, run))
    decreases |run|
  {
    hide Invariant, ClocksAgree, Next, Enabled;
    if run != [] {
      NextKeepsInvariant(c, s, run[0]);
      RunKeepsInvariant(c, Next(c, s, run[0]), run[1..]);
    }
  }

  /** In every interleaving of any number of servers, each issued challenge costs at most one scrypt evaluation, and so
      verifies at most once, while the clocks agree. */
  lemma AtMostOneEvaluation(c: Config, t: real, run: seq<Action>)
    requires ClocksAgree(c) && Legal(c, Start(t), run)
    ensures EvaluatedOnce(After(c, Start(t), run))
  {
    RunKeepsInvariant(c, Start(t), run);
  }

  // -- The bound is needed -------------------------------------------------------------------------

  lemma FirstStep(c: Config, s: State, a: Action, rest: seq<Action>)
    requires Enabled(c, s, a) && Legal(c, Next(c, s, a), rest)
    ensures Legal(c, s, [a] + rest) && After(c, s, [a] + rest) == After(c, Next(c, s, a), rest)
  {
    assert ([a] + rest)[1..] == rest;
  }

  lemma CheckBehind(c: Config, s: State, k: Claims, q: nat, expires: real)
    requires q < |c.servers| && k in s.issued && s.pending == [] && s.now <= expires - c.delay
    requires 0.0 <= c.delay && Reading(c, q, expires - c.delay) >= 0.0
    requires Reading(c, q, expires - c.delay) < (k.exp + 1) as real
    ensures
      var s1 := Next(c, s, Wait(expires - c.delay));
      var s2 := Next(c, s1, Begin(q, k));
      && Enabled(c, s, Wait(expires - c.delay)) && Enabled(c, s1, Begin(q, k))
      && s2 == s.(now := expires - c.delay, pending := [Check(q, k, expires - c.delay)])
  {
    hide Milliseconds, TimeToLive, Expired;
    var s1 := Next(c, s, Wait(expires - c.delay));
    NotExpired(c.servers[q].kind, Reading(c, q, s1.now), k.exp);
    assert s1.pending + [Check(q, k, s1.now)] == [Check(q, k, s1.now)];
  }

  lemma ClaimBehind(c: Config, s: State, k: Claims, q: nat, expires: real)
    requires q < |c.servers| && 0.0 <= c.delay && s.now == expires - c.delay && s.evaluated == [k]
    requires s.pending == [Check(q, k, s.now)] && k.id in s.store && s.store[k.id] <= Milliseconds(expires)
    ensures
      var s3 := Next(c, s, Wait(expires));
      && Enabled(c, s, Wait(expires)) && Enabled(c, s3, Claim(0)) && Next(c, s3, Claim(0)).evaluated == [k, k]
  {
    hide Milliseconds, TimeToLive, Expired;
  }

  /** The server behind checks `delay` before the first claim expires and claims right after. */
  lemma SecondEvaluation(c: Config, s: State, k: Claims, q: nat, expires: real)
    requires q < |c.servers| && k in s.issued && s.pending == [] && s.evaluated == [k] && s.now <= expires - c.delay
    requires 0.0 <= c.delay && Reading(c, q, expires - c.delay) >= 0.0
    requires Reading(c, q, expires - c.delay) < (k.exp + 1) as real
    requires k.id in s.store && s.store[k.id] <= Milliseconds(expires)
    ensures
      var run := [Wait(expires - c.delay), Begin(q, k), Wait(expires), Claim(0)];
      Legal(c, s, run) && After(c, s, run).evaluated == [k, k]
  {
    hide Next, Enabled;
    CheckBehind(c, s, k, q, expires);
    var s1 := Next(c, s, Wait(expires - c.delay));
    var s2 := Next(c, s1, Begin(q, k));
    ClaimBehind(c, s2, k, q, expires);
    var s3 := Next(c, s2, Wait(expires));
    FirstStep(c, s3, Claim(0), []);
    FirstStep(c, s2, Wait(expires), [Claim(0)]);
    FirstStep(c, s1, Begin(q, k), [Wait(expires), Claim(0)]);
    FirstStep(c, s, Wait(expires - c.delay), [Begin(q, k), Wait(expires), Claim(0)]);
    assert [Wait(expires), Claim(0)] == [Wait(expires)] + [Claim(0)];
    assert [Claim(0)] + [] == [Claim(0)];
  }

  /** The clock reading at which a server's claim is the shortest: a fraction of the last millisecond in Python, where two
      roundings add up, and any whole second in Node. */
  function WorstReading(server: Server, exp: int): real {
    match server.kind
    case Python =>
      var lapse := 1000.0 * ((exp + 60) as real - server.offset);
      (exp + 1) as real - (lapse - lapse.Floor as real + 1.0) / 2000.0
    case Node => exp as real
  }

  lemma LapseIsReached(server: Server, exp: int)
    ensures
      var x := WorstReading(server, exp);
      && exp as real <= x < (exp + 1) as real
      && 59_000 <= TimeToLive(server.kind, x, exp)
      && Milliseconds(x - server.offset) + TimeToLive(server.kind, x, exp) == EarliestLapse(server, exp)
  {
    var x := WorstReading(server, exp);
    var lapse := 1000.0 * ((exp + 60) as real - server.offset);
    match server.kind
    case Python =>
      var rest := (lapse - lapse.Floor as real + 1.0) / 2.0;
      assert 1000.0 * ((exp + 60) as real - x) == 59_000.0 + rest;
      assert 1000.0 * (x - server.offset) == lapse - 59_000.0 - rest;
      assert (lapse - 59_000.0 - rest).Floor == lapse.Floor - 59_001;
    case Node =>
      FloorFacts(x);
      FloorFacts(x - server.offset);
      FloorFacts((exp + 60) as real - server.offset);
  }

  /** A server checks and claims at its worst reading. */
  lemma FirstEvaluation(c: Config, s: State, k: Claims, p: nat)
    requires p < |c.servers| && k in s.issued && s.pending == [] && s.evaluated == [] && k.id !in s.store
    requires c.delay >= 0.0 && k.exp >= 0 && Reading(c, p, s.now) == WorstReading(c.servers[p], k.exp)
    ensures Enabled(c, s, Begin(p, k)) && Enabled(c, Next(c, s, Begin(p, k)), Claim(0))
    ensures
      var s2 := Next(c, Next(c, s, Begin(p, k)), Claim(0));
      && s2.now == s.now && s2.issued == s.issued && s2.pending == [] && s2.evaluated == [k]
      && k.id in s2.store && s2.store[k.id] == EarliestLapse(c.servers[p], k.exp)
  {
    LapseIsReached(c.servers[p], k.exp);
    NotExpired(c.servers[p].kind, Reading(c, p, s.now), k.exp);
    hide Milliseconds, TimeToLive, Expired, EarliestLapse, WorstReading;
    var s1 := Next(c, s, Begin(p, k));
    assert s1.pending == [Check(p, k, s.now)];
    assert s1.now - 0.0 == Reading(c, p, s.now) - c.servers[p].offset;
  }

  /** The first server checks and claims; when the claim lapses, the second server, which checked `delay` seconds before,
      claims as well. */
  function BothClaim(c: Config, p: nat, q: nat, k: Claims): seq<Action>
    requires p < |c.servers|
  {
    var lapse := EarliestLapse(c.servers[p], k.exp) as real / 1000.0;
    [Begin(p, k)] + ([Claim(0)] + [Wait(lapse - c.delay), Begin(q, k), Wait(lapse), Claim(0)])
  }

  /** The run: issue, and both claim from the first server's worst reading on. */
  function DoubleRun(c: Config, p: nat, q: nat, start: real, id: string): seq<Action>
    requires p < |c.servers|
  {
    var k := Claims(id, Reading(c, p, start).Floor + c.ttl);
    [Issue(p, k)] + ([Wait(WorstReading(c.servers[p], k.exp) - c.servers[p].offset)] + BothClaim(c, p, q, k))
  }

  lemma MillisecondsOfLapse(ms: int)
    ensures Milliseconds(ms as real / 1000.0) == ms
  {
  }

  /** When the first claim lapses: late enough for the second server to begin after it, and early enough for its check. */
  lemma LapseInTime(c: Config, p: nat, q: nat, exp: int)
    requires p < |c.servers| && q < |c.servers| && 0.0 <= c.delay <= 58.0
    requires EarliestLapse(c.servers[p], 0) as real < 1000.0 * (1.0 - c.servers[q].offset + c.delay)
    ensures
      var lapse := EarliestLapse(c.servers[p], exp) as real / 1000.0;
      && WorstReading(c.servers[p], exp) - c.servers[p].offset <= lapse - c.delay
      && Reading(c, q, lapse - c.delay) < (exp + 1) as real
  {
    LapseShifts(c.servers[p], exp);
    LapseIsReached(c.servers[p], exp);
    FloorFacts(WorstReading(c.servers[p], exp) - c.servers[p].offset);
    hide Milliseconds, TimeToLive, EarliestLapse, WorstReading;
  }

  lemma BothEvaluate(c: Config, s: State, p: nat, q: nat, k: Claims)
    requires p < |c.servers| && q < |c.servers| && 0.0 <= c.delay <= 58.0
    requires EarliestLapse(c.servers[p], 0) as real < 1000.0 * (1.0 - c.servers[q].offset + c.delay)
    requires k in s.issued && s.pending == [] && s.evaluated == [] && k.id !in s.store && k.exp >= 0
    requires Reading(c, p, s.now) == WorstReading(c.servers[p], k.exp) && Reading(c, q, s.now) >= 0.0
    ensures Legal(c, s, BothClaim(c, p, q, k)) && After(c, s, BothClaim(c, p, q, k)).evaluated == [k, k]
  {
    LapseInTime(c, p, q, k.exp);
    MillisecondsOfLapse(EarliestLapse(c.servers[p], k.exp));
    FirstEvaluation(c, s, k, p);
    var lapse := EarliestLapse(c.servers[p], k.exp) as real / 1000.0;
    var s1 := Next(c, s, Begin(p, k));
    var s2 := Next(c, s1, Claim(0));
    var rest := [Wait(lapse - c.delay), Begin(q, k), Wait(lapse), Claim(0)];
    hide Milliseconds, TimeToLive, EarliestLapse, WorstReading, Next, Enabled, Legal, After;
    SecondEvaluation(c, s2, k, q, lapse);
    FirstStep(c, s1, Claim(0), rest);
    FirstStep(c, s, Begin(p, k), [Claim(0)] + rest);
  }

  /** If the clocks of two servers do not agree, some run evaluates a challenge twice. */
  lemma SkewBreaksSafety(c: Config, p: nat, q: nat, start: real, id: string)
    requires p < |c.servers| && q < |c.servers| && c.ttl >= 1 && 0.0 <= c.delay <= 58.0
    requires EarliestLapse(c.servers[p], 0) as real < 1000.0 * (1.0 - c.servers[q].offset + c.delay)
    requires start + c.servers[p].offset >= 0.0 && start + c.servers[q].offset >= 0.0
    ensures Legal(c, Start(start), DoubleRun(c, p, q, start, id))
    ensures !EvaluatedOnce(After(c, Start(start), DoubleRun(c, p, q, start, id)))
  {
    var k := Claims(id, Reading(c, p, start).Floor + c.ttl);
    LapseIsReached(c.servers[p], k.exp);
    hide Milliseconds, TimeToLive, Expired, EarliestLapse, WorstReading, BothClaim, Legal, After;
    var first := WorstReading(c.servers[p], k.exp) - c.servers[p].offset;
    var s0 := Start(start);
    var s1 := Next(c, s0, Issue(p, k));
    var s2 := Next(c, s1, Wait(first));
    BothEvaluate(c, s2, p, q, k);
    FirstStep(c, s1, Wait(first), BothClaim(c, p, q, k));
    FirstStep(c, s0, Issue(p, k), [Wait(first)] + BothClaim(c, p, q, k));
    var end := After(c, s0, DoubleRun(c, p, q, start, id));
    assert end.evaluated[0].id == end.evaluated[1].id;
  }

  ghost predicate SafeInEveryRun(c: Config) {
    forall t, run | Legal(c, Start(t), run) :: EvaluatedOnce(After(c, Start(t), run))
  }

  /** For servers of both languages, at most one evaluation in every run is guaranteed exactly by this agreement of their
      clocks. */
  lemma SafeExactlyWhen(c: Config)
    requires c.ttl >= 1 && 0.0 <= c.delay <= 58.0
    ensures SafeInEveryRun(c) <==> ClocksAgree(c)
  {
    hide EarliestLapse, Legal, After, EvaluatedOnce;
    if ClocksAgree(c) {
      forall t, run | Legal(c, Start(t), run) ensures EvaluatedOnce(After(c, Start(t), run)) {
        AtMostOneEvaluation(c, t, run);
      }
    } else {
      var p, q :| 0 <= p < |c.servers| && 0 <= q < |c.servers| &&
                  EarliestLapse(c.servers[p], 0) as real < 1000.0 * (1.0 - c.servers[q].offset + c.delay);
      var start := Later(-c.servers[p].offset, -c.servers[q].offset);
      SkewBreaksSafety(c, p, q, start, "a");
    }
  }

  function Later(a: real, b: real): real {
    if a < b then b else a
  }

  /** Clocks agree if no gap exceeds 58.998 s less the delay, and do not if one exceeds 59 s less the delay. */
  lemma AgreementInSeconds(c: Config)
    ensures (forall p, q | 0 <= p < |c.servers| && 0 <= q < |c.servers| ::
               c.servers[p].offset - c.servers[q].offset + c.delay <= 58.998) ==> ClocksAgree(c)
    ensures ClocksAgree(c) ==> forall p, q | 0 <= p < |c.servers| && 0 <= q < |c.servers| ::
               c.servers[p].offset - c.servers[q].offset + c.delay <= 59.0
  {
    forall p, q | 0 <= p < |c.servers| && 0 <= q < |c.servers|
      ensures c.servers[p].offset - c.servers[q].offset + c.delay <= 58.998 ==>
                1000.0 * (1.0 - c.servers[q].offset + c.delay) <= EarliestLapse(c.servers[p], 0) as real
      ensures 1000.0 * (1.0 - c.servers[q].offset + c.delay) <= EarliestLapse(c.servers[p], 0) as real ==>
                c.servers[p].offset - c.servers[q].offset + c.delay <= 59.0
    {
      FloorFacts(60.0 - c.servers[p].offset);
    }
  }
}
