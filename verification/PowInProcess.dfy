/**
 Challenge verification in one process, without a shared store. In Python a spent challenge can be evaluated again in its
 last second; in Node it cannot.
 */
module PowInProcess {
  // The Python verifier purges spent ids with `exp >= now` when it holds more than 10,000, but expires challenges with
  // `int(now) > exp`: a purge within the expiry second forgets ids that still verify. The Node verifier's cache keeps ids
  // for the lifetime plus a minute.

  import NonceCache
  import opened Words
  import opened LeadingZeros

  /** A genuine challenge comes with its difficulty and the scrypt digest of the submitted solution. */
  datatype Submission =
    | NotAChallenge
    | Forged
    | Genuine(id: string, exp: int, bits: nat, digest: seq<Byte>)

  datatype Outcome = Malformed | BadSignature | Expired | Replay | InsufficientWork | Valid

  datatype Result = Result(used: map<string, int>, outcome: Outcome)

  const PURGE_ABOVE := 10_000

  /** The verifier with clock reading `now` (seconds since 1970). */
  function Verify(used: map<string, int>, s: Submission, now: real): Result {
    match s
    case NotAChallenge => Result(used, Malformed)
    case Forged => Result(used, BadSignature)
    case Genuine(id, exp, bits, digest) =>
      if now.Floor > exp then Result(used, Expired)
      else if id in used then Result(used, Replay)
      else
        Result(Purged(used, now)[id := exp], if Zeros(digest) < bits then InsufficientWork else Valid)
  }

  /** More than 10,000 spent ids are purged of the expired ones. */
  function Purged(used: map<string, int>, now: real): map<string, int> {
    if |used| > PURGE_ABOVE then map k | k in used && used[k] as real >= now :: used[k] else used
  }

  /** scrypt was evaluated. */
  predicate Evaluated(o: Outcome) {
    o.InsufficientWork? || o.Valid?
  }

  // -- Runs ----------------------------------------------------------------------------------------

  datatype Call = Call(submission: Submission, now: real)

  ghost function State(h: seq<Call>): map<string, int> {
    if h == [] then map[] else Verify(State(h[..|h| - 1]), h[|h| - 1].submission, h[|h| - 1].now).used
  }

  ghost predicate EvaluatedAt(h: seq<Call>, i: nat)
    requires i < |h|
  {
    h[i].submission.Genuine? && Evaluated(Verify(State(h[..i]), h[i].submission, h[i].now).outcome)
  }

  ghost predicate Clock(h: seq<Call>) {
    forall i, j | 0 <= i < j < |h| :: h[i].now <= h[j].now
  }

  /** Genuine challenges with the same id are the same challenge: HMAC is unforgeable and ids are random. */
  ghost predicate IdsAreUnique(h: seq<Call>) {
    forall i, j | 0 <= i < |h| && 0 <= j < |h| && h[i].submission.Genuine? && h[j].submission.Genuine?
                  && h[i].submission.id == h[j].submission.id :: h[i].submission.exp == h[j].submission.exp
  }

  ghost predicate SubmitsAt(h: seq<Call>, i: nat, id: string) {
    i < |h| && h[i].submission.Genuine? && h[i].submission.id == id
  }

  // -- What is answered ------------------------------------------------------------------------------

  ghost function OutcomeAt(h: seq<Call>, i: nat): Outcome
    requires i < |h|
  {
    Verify(State(h[..i]), h[i].submission, h[i].now).outcome
  }

  /** The digest begins with as many zero bits as the difficulty asks for. */
  ghost predicate Solved(s: Submission)
    requires s.Genuine?
  {
    s.bits <= 8 * |s.digest| && forall j | 0 <= j < s.bits :: !BitsOf(s.digest)[j]
  }

  /** In every run a call is answered Valid exactly if its challenge is genuine, not expired and not spent, and is solved;
      a genuine challenge is refused as expired or as a replay for exactly these reasons. */
  lemma ValidExactlyWhen(h: seq<Call>, i: nat)
    requires i < |h|
    ensures
      var s := h[i].submission;
      && (OutcomeAt(h, i).Valid? <==>
            s.Genuine? && h[i].now < (s.exp + 1) as real && s.id !in State(h[..i]) && Solved(s))
      && (OutcomeAt(h, i).Expired? <==> s.Genuine? && h[i].now >= (s.exp + 1) as real)
      && (OutcomeAt(h, i).Replay? <==> s.Genuine? && h[i].now < (s.exp + 1) as real && s.id in State(h[..i]))
  {
    hide BitsOf, State, Purged, Zeros;
    var s := h[i].submission;
    if s.Genuine? {
      assert h[i].now.Floor <= s.exp <==> h[i].now < (s.exp + 1) as real;
      if s.bits <= 8 * |s.digest| {
        PassesIffZeroPrefix(s.digest, Zeros(s.digest), s.bits);
      }
    }
  }

  /** An id is spent only by an earlier call that evaluated its challenge. */
  lemma {:induction false} SpentWasEvaluated(h: seq<Call>, n: nat, id: string)
    requires n <= |h| && id in State(h[..n])
    ensures exists m :: 0 <= m < n && SubmitsAt(h, m, id) && EvaluatedAt(h, m)
  {
    hide Zeros;
    assert n > 0 && h[..n][..n - 1] == h[..n - 1];
    if SubmitsAt(h, n - 1, id) && EvaluatedAt(h, n - 1) {
    } else {
      SpentWasEvaluated(h, n - 1, id);
      var m :| 0 <= m < n - 1 && SubmitsAt(h, m, id) && EvaluatedAt(h, m);
    }
  }

  // -- When a spent id is forgotten -----------------------------------------------------------------

  /** The call gets as far as the purge with a full table: its challenge is genuine, not expired and not spent. */
  predicate Purges(used: map<string, int>, s: Submission, now: real) {
    |used| > PURGE_ABOVE && s.Genuine? && now.Floor <= s.exp && s.id !in used
  }

  /** Call m purges after the second `exp` has begun. */
  ghost predicate PurgesAfter(h: seq<Call>, m: nat, exp: int) {
    m < |h| && Purges(State(h[..m]), h[m].submission, h[m].now) && h[m].now > exp as real
  }

  /** A spent id is forgotten by exactly those calls on other ids that purge after its expiry second has begun. */
  lemma ForgottenIff(used: map<string, int>, id: string, s: Submission, now: real)
    requires id in used && (s.Genuine? ==> s.id != id)
    ensures
      var after := Verify(used, s, now).used;
      && (id !in after <==> Purges(used, s, now) && now > used[id] as real)
      && (id !in after ==> |used| > 10_000)
      && (id in after ==> after[id] == used[id])
  {
  }

  /** No call between i and j evaluated the challenge of call i again. */
  ghost predicate QuietBetween(h: seq<Call>, i: nat, j: nat)
    requires i < |h| && j <= |h| && h[i].submission.Genuine?
  {
    forall m | i < m < j && SubmitsAt(h, m, h[i].submission.id) :: !EvaluatedAt(h, m)
  }

  ghost predicate PurgedBetween(h: seq<Call>, i: nat, j: nat, exp: int) {
    exists m :: i < m < j && PurgesAfter(h, m, exp)
  }

  lemma OneMoreCall(used: map<string, int>, id: string, exp: int, gone: bool, s: Submission, now: real)
    requires (id !in used <==> gone) && (id in used ==> used[id] == exp)
    requires s.Genuine? && s.id == id ==> s.exp == exp && !Evaluated(Verify(used, s, now).outcome)
    ensures
      var after := Verify(used, s, now).used;
      && (id !in after <==> gone || (Purges(used, s, now) && now > exp as real))
      && (id in after ==> after[id] == exp)
  {
    hide Zeros, Purged;
    if id in used && !(s.Genuine? && s.id == id) {
      ForgottenIff(used, id, s, now);
    } else if id !in used && !(s.Genuine? && s.id == id) {
      NothingAdded(used, id, s, now);
    }
  }

  lemma NothingAdded(used: map<string, int>, id: string, s: Submission, now: real)
    requires id !in used && (s.Genuine? ==> s.id != id)
    ensures id !in Verify(used, s, now).used
  {
    hide Zeros;
  }

  lemma EvaluationSpends(used: map<string, int>, s: Submission, now: real)
    requires s.Genuine? && Evaluated(Verify(used, s, now).outcome)
    ensures s.id in Verify(used, s, now).used && Verify(used, s, now).used[s.id] == s.exp
  {
    hide Zeros, Purged;
  }

  /** The id of an evaluated challenge stays spent until the first purge after its expiry second has begun. */
  lemma {:induction false} SpentUntilPurged(h: seq<Call>, i: nat, j: nat)
    requires i < j <= |h| && EvaluatedAt(h, i) && Clock(h) && IdsAreUnique(h) && QuietBetween(h, i, j)
    ensures
      var id, exp := h[i].submission.id, h[i].submission.exp;
      && (id !in State(h[..j]) <==> PurgedBetween(h, i, j, exp))
      && (id in State(h[..j]) ==> State(h[..j])[id] == exp)
  {
    hide Verify, Purges, State, Clock, Evaluated;
    var last := j - 1;
    var id, exp := h[i].submission.id, h[i].submission.exp;
    StateNext(h, last);
    if last == i {
      EvaluationSpends(State(h[..i]), h[i].submission, h[i].now);
    } else {
      SpentUntilPurged(h, i, last);
      assert PurgedBetween(h, i, j, exp) <==> PurgedBetween(h, i, last, exp) || PurgesAfter(h, last, exp);
      assert SubmitsAt(h, last, id) ==> !EvaluatedAt(h, last);
      OneMoreCall(State(h[..last]), id, exp, PurgedBetween(h, i, last, exp), h[last].submission, h[last].now);
    }
  }

  /** A challenge that was evaluated at call i and is submitted again at call j is evaluated again exactly if it has not
      expired but a purge between the two came after its expiry second had begun. */
  lemma EvaluatedAgainIff(h: seq<Call>, i: nat, j: nat)
    requires i < j < |h| && EvaluatedAt(h, i) && Clock(h) && IdsAreUnique(h) && QuietBetween(h, i, j)
    requires SubmitsAt(h, j, h[i].submission.id)
    ensures
      var exp := h[i].submission.exp;
      EvaluatedAt(h, j) <==> h[j].now.Floor <= exp && PurgedBetween(h, i, j, exp)
  {
    hide Purged;
    SpentUntilPurged(h, i, j);
  }

  ghost predicate EvaluatedTwice(h: seq<Call>, i: nat, j: nat) {
    i < j < |h| && EvaluatedAt(h, i) && SubmitsAt(h, j, h[i].submission.id) && EvaluatedAt(h, j)
  }

  /** The challenge of call i is submitted again at call j in its expiry second, after a purge in that second. */
  ghost predicate PurgedTooEarly(h: seq<Call>, i: nat, j: nat) {
    && i < j < |h| && EvaluatedAt(h, i) && SubmitsAt(h, j, h[i].submission.id)
    && h[j].now.Floor <= h[i].submission.exp && PurgedBetween(h, i, j, h[i].submission.exp)
  }

  /** In every run some challenge is evaluated twice exactly if one is submitted again within its expiry second after a
      purge within that second. */
  lemma SingleUseExactlyWhen(h: seq<Call>)
    requires Clock(h) && IdsAreUnique(h)
    ensures (exists i: nat, j: nat :: EvaluatedTwice(h, i, j)) <==> (exists i: nat, j: nat :: PurgedTooEarly(h, i, j))
  {
    hide Verify, State, Clock, IdsAreUnique, PurgedBetween;
    if i: nat, j: nat :| EvaluatedTwice(h, i, j) {
      var first := FirstAgain(h, i, j);
      EvaluatedAgainIff(h, i, first);
      assert PurgedTooEarly(h, i, first);
    }
    if i: nat, j: nat :| PurgedTooEarly(h, i, j) {
      if QuietBetween(h, i, j) {
        EvaluatedAgainIff(h, i, j);
        assert EvaluatedTwice(h, i, j);
      } else {
        var m :| i < m < j && SubmitsAt(h, m, h[i].submission.id) && EvaluatedAt(h, m);
        assert EvaluatedTwice(h, i, m);
      }
    }
  }

  lemma {:induction false} FirstAgain(h: seq<Call>, i: nat, j: nat) returns (first: nat)
    requires EvaluatedTwice(h, i, j)
    ensures first <= j && EvaluatedTwice(h, i, first) && QuietBetween(h, i, first)
    decreases j
  {
    hide Verify, State;
    if m :| i < m < j && SubmitsAt(h, m, h[i].submission.id) && EvaluatedAt(h, m) {
      first := FirstAgain(h, i, m);
    } else {
      first := j;
    }
  }

  /** On a clock of whole seconds no run evaluates a challenge twice. */
  lemma SingleUseOnWholeSeconds(h: seq<Call>, i: nat, j: nat)
    requires Clock(h) && IdsAreUnique(h) && forall m | 0 <= m < |h| :: h[m].now == h[m].now.Floor as real
    ensures !EvaluatedTwice(h, i, j)
  {
    hide State, Verify, IdsAreUnique, Purges;
    SingleUseExactlyWhen(h);
    forall a: nat, b: nat ensures !PurgedTooEarly(h, a, b) {
    }
  }

  // -- A run that evaluates a challenge twice --------------------------------------------------------

  function Repeat(n: nat): (s: string)
    ensures |s| == n
  {
    seq(n, _ => 'a')
  }

  /** Challenge number k of those that expire at second 100. */
  function Numbered(k: nat, bits: nat, digest: seq<Byte>): Submission {
    Genuine(Repeat(k), 100, bits, digest)
  }

  /** n challenges are verified at time 0. */
  function Filling(n: nat, bits: nat, digest: seq<Byte>): (h: seq<Call>)
    ensures |h| == n && forall k | 0 <= k < n :: h[k] == Call(Numbered(k, bits, digest), 0.0)
  {
    seq(n, k requires 0 <= k => Call(Numbered(k, bits, digest), 0.0))
  }

  lemma FillOne(n: nat, bits: nat, digest: seq<Byte>)
    requires forall id | id in State(Filling(n, bits, digest)) :: |id| < n && State(Filling(n, bits, digest))[id] == 100
    ensures State(Filling(n + 1, bits, digest)) == State(Filling(n, bits, digest))[Repeat(n) := 100]
  {
    hide Repeat, Zeros;
    var h := Filling(n + 1, bits, digest);
    assert h[..n] == Filling(n, bits, digest);
    hide Filling;
    var used := State(h[..n]);
    assert Purged(used, 0.0) == used && Repeat(n) !in used;
  }

  lemma FillNone(bits: nat, digest: seq<Byte>)
    ensures State(Filling(0, bits, digest)) == map[]
  {
    assert Filling(0, bits, digest) == [];
  }

  lemma {:induction false} FillingSpends(n: nat, bits: nat, digest: seq<Byte>)
    ensures
      var used := State(Filling(n, bits, digest));
      && |used| == n && (forall id | id in used :: |id| < n && used[id] == 100)
      && forall k: nat | k < n :: Repeat(k) in used
  {
    hide State, Repeat, Filling;
    if n == 0 {
      FillNone(bits, digest);
    } else {
      FillingSpends(n - 1, bits, digest);
      FillOne(n - 1, bits, digest);
      var used := State(Filling(n - 1, bits, digest));
      assert Repeat(n - 1) !in used;
    }
  }

  /** After the filling, half a second into second 100: challenge 0 is refused, a fresh one is verified, and challenge 0 is
      verified again. */
  function ReplayRun(n: nat, bits: nat, digest: seq<Byte>): seq<Call> {
    Filling(n, bits, digest) + [Call(Numbered(0, bits, digest), 100.5), Call(Numbered(n, bits, digest), 100.5),
                               Call(Numbered(0, bits, digest), 100.5)]
  }

  lemma ReplayRunIsRun(n: nat, bits: nat, digest: seq<Byte>)
    ensures Clock(ReplayRun(n, bits, digest)) && IdsAreUnique(ReplayRun(n, bits, digest))
  {
    hide Repeat;
  }

  /** The last three calls, from a table that holds challenge 0. */
  lemma LastCalls(used: map<string, int>, n: nat, bits: nat, digest: seq<Byte>)
    requires |used| > PURGE_ABOVE && Repeat(0) in used && used[Repeat(0)] == 100 && Repeat(n) !in used
    ensures
      var zero, other := Numbered(0, bits, digest), Numbered(n, bits, digest);
      var refused := Verify(used, zero, 100.5);
      && refused == Result(used, Replay)
      && Evaluated(Verify(Verify(used, other, 100.5).used, zero, 100.5).outcome)
  {
    assert 100.5.Floor == 100;
    hide Repeat, Purged, Zeros;
    ForgottenIff(used, Repeat(0), Numbered(n, bits, digest), 100.5);
  }

  lemma FirstCall(h: seq<Call>, n: nat, bits: nat, digest: seq<Byte>)
    requires n > 0 && |h| > 0 && h[0] == Call(Numbered(0, bits, digest), 0.0)
    ensures EvaluatedAt(h, 0)
  {
    hide Zeros, Purged, Repeat;
    assert h[..0] == [] && 0.0.Floor == 0;
  }

  lemma StateNext(h: seq<Call>, m: nat)
    requires m < |h|
    ensures State(h[..m + 1]) == Verify(State(h[..m]), h[m].submission, h[m].now).used
  {
    hide Verify;
    assert h[..m + 1][..m] == h[..m];
  }

  /** With more than 10,000 spent ids this run evaluates challenge 0 twice. */
  lemma ReplayExample(n: nat, bits: nat, digest: seq<Byte>)
    requires n > 10_000
    ensures
      var h := ReplayRun(n, bits, digest);
      Clock(h) && IdsAreUnique(h) && !EvaluatedAt(h, n) && EvaluatedTwice(h, 0, n + 2)
  {
    ReplayRunIsRun(n, bits, digest);
    FillingSpends(n, bits, digest);
    hide Clock, IdsAreUnique, Repeat, Filling, Verify, State;
    var h := ReplayRun(n, bits, digest);
    assert h[..n] == Filling(n, bits, digest);
    FirstCall(h, n, bits, digest);
    LastCalls(State(h[..n]), n, bits, digest);
    StateNext(h, n);
    StateNext(h, n + 1);
  }

  // -- The Node verifier ---------------------------------------------------------------------------

  /** Node's clock check on milliseconds. */
  predicate NodeExpired(now: int, exp: int) {
    now / 1000 > exp
  }

  /** In one Node process a challenge is never evaluated twice: its id was first used no earlier than its issue, and the
      cache forgets it only after it expired. */
  lemma NodeSingleUse(h: seq<NonceCache.Event>, i: nat, j: nat, exp: int, ttl: nat)
    requires i < j < |h| && h[i].Use? && h[j].Use? && h[j].nonce == h[i].nonce
    requires forall a, b | 0 <= a < b < |h| :: h[a].now <= h[b].now
    requires h[i].now >= (exp - ttl) * 1000 && !NodeExpired(h[j].now, exp)
    requires NonceCache.Fresh(h, i, ttl * 1000 + 60_000)
    ensures !NonceCache.Fresh(h, j, ttl * 1000 + 60_000)
  {
    forall m | i < m < j && h[m].Clean? ensures h[m].now - (ttl * 1000 + 60_000) <= h[i].now {
      assert h[m].now <= h[j].now;
    }
    NonceCache.FreshOnce(h, i, j, ttl * 1000 + 60_000);
  }

  // -- The class -----------------------------------------------------------------------------------

  class Challenger {
    var used: map<string, int>

    constructor ()
      ensures used == State([])
    {
      used := map[];
    }

    method VerifyOnce(s: Submission, now: real) returns (outcome: Outcome)
      modifies this
      ensures Result(used, outcome) == Verify(old(used), s, now)
    {
      if s.NotAChallenge? {
        return Malformed;
      }
      if s.Forged? {
        return BadSignature;
      }
      if now.Floor > s.exp {
        return Expired;
      }
      if s.id in used {
        return Replay;
      }
      if |used| > PURGE_ABOVE {
        used := map k | k in used && used[k] as real >= now :: used[k];
      }
      used := used[s.id := s.exp];
      var zeros := LeadingZeroBits(s.digest);
      return if zeros < s.bits then InsufficientWork else Valid;
    }
  }
}
