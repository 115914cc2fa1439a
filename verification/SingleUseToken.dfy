/**
 Single-use tokens: the nonces a `TokenVerifier` with `single_use` remembers, and how long. Only authentic tokens reach
 this point; the clock does not go back.
 */
module SingleUseToken {
  import opened Wrappers

  datatype Token = Token(nonce: string, iat: int, exp: Option<int>)

  datatype State = State(used: map<string, real>, lastCleanup: real)

  datatype Event = Event(token: Token, now: real)

  predicate Alive(maxAge: int, e: Event) {
    && e.now.Floor - e.token.iat <= maxAge
    && (e.token.exp.Some? ==> e.now.Floor <= e.token.exp.value)
  }

  predicate Accepts(maxAge: int, s: State, e: Event) {
    Alive(maxAge, e) && e.token.nonce != "" && e.token.nonce !in s.used
  }

  function Cleaned(maxAge: int, s: State, now: real): State {
    if now - s.lastCleanup < 60.0 then s
    else State(map k | k in s.used && s.used[k] > now - (2 * maxAge) as real :: s.used[k], now)
  }

  function Step(maxAge: int, s: State, e: Event): State {
    if Accepts(maxAge, s, e) then Cleaned(maxAge, s.(used := s.used[e.token.nonce := e.now]), e.now) else s
  }

  function Run(maxAge: int, start: real, events: seq<Event>): State {
    if events == [] then State(map[], start)
    else Step(maxAge, Run(maxAge, start, events[..|events| - 1]), events[|events| - 1])
  }

  /** A nonce names one token. Tokens may come from another server, whose clock is at most `lead` whole seconds ahead when
      they are presented. */
  ghost predicate Honest(lead: int, events: seq<Event>) {
    && (forall i, j | 0 <= i < j < |events| :: events[i].now <= events[j].now)
    && (forall i, j | 0 <= i < |events| && 0 <= j < |events| && events[i].token.nonce == events[j].token.nonce ::
          events[i].token == events[j].token)
    && (forall i | 0 <= i < |events| :: events[i].token.iat <= events[i].now.Floor + lead)
  }

  /** At most once a minute the nonces of twice the lifetime and more go, and no others. */
  lemma CleanupLeaves(maxAge: int, s: State, now: real, k: string)
    ensures now < s.lastCleanup + 60.0 ==> Cleaned(maxAge, s, now) == s
    ensures now >= s.lastCleanup + 60.0 ==>
              var after := Cleaned(maxAge, s, now);
              && after.lastCleanup == now && (k in after.used <==> k in s.used && now < s.used[k] + (2 * maxAge) as real)
              && (k in after.used ==> after.used[k] == s.used[k])
  {
  }

  ghost predicate AcceptedAt(maxAge: int, start: real, events: seq<Event>, i: nat)
    requires i < |events|
  {
    Accepts(maxAge, Run(maxAge, start, events[..i]), events[i])
  }

  /** In every run a token is accepted exactly if it is no older than the lifetime, not past its own expiry if it has one,
      and carries a nonce that is not remembered. */
  lemma AcceptedExactlyWhen(maxAge: int, start: real, events: seq<Event>, i: nat)
    requires i < |events|
    ensures
      var t, now := events[i].token, events[i].now;
      AcceptedAt(maxAge, start, events, i) <==>
      && now < (t.iat + maxAge + 1) as real && (t.exp.Some? ==> now < (t.exp.value + 1) as real)
      && t.nonce != "" && t.nonce !in Run(maxAge, start, events[..i]).used
  {
    hide Run;
  }

  /** A remembered nonce was accepted before. */
  lemma {:induction false} UsedWasAccepted(maxAge: int, start: real, events: seq<Event>, n: nat, nonce: string)
    requires n <= |events| && nonce in Run(maxAge, start, events[..n]).used
    ensures exists m :: 0 <= m < n && events[m].token.nonce == nonce && AcceptedAt(maxAge, start, events, m)
  {
    assert n > 0 && events[..n][..n - 1] == events[..n - 1];
    if events[n - 1].token.nonce == nonce && AcceptedAt(maxAge, start, events, n - 1) {
    } else {
      UsedWasAccepted(maxAge, start, events, n - 1, nonce);
      var m :| 0 <= m < n - 1 && events[m].token.nonce == nonce && AcceptedAt(maxAge, start, events, m);
    }
  }

  /** No honest run accepts a nonce twice. */
  ghost predicate AcceptsOnce(maxAge: int, lead: int) {
    forall start: real, events: seq<Event>, i: nat, j: nat
      | Honest(lead, events) && i < j < |events| && events[i].token.nonce == events[j].token.nonce
        && AcceptedAt(maxAge, start, events, i) ::
      !AcceptedAt(maxAge, start, events, j)
  }

  /** An accepted nonce is remembered for twice the token lifetime. */
  lemma {:induction false} StaysUsed(maxAge: int, lead: int, start: real, events: seq<Event>, i: nat, j: nat)
    requires Honest(lead, events) && i < j <= |events| && AcceptedAt(maxAge, start, events, i) && maxAge > 0
    requires events[j - 1].now < events[i].now + (2 * maxAge) as real
    ensures
      var used := Run(maxAge, start, events[..j]).used;
      events[i].token.nonce in used && used[events[i].token.nonce] == events[i].now
  {
    assert events[..j][..j - 1] == events[..j - 1];
    if j - 1 > i {
      assert events[j - 2].now <= events[j - 1].now;
      StaysUsed(maxAge, lead, start, events, i, j - 1);
    }
  }

  lemma AcceptedOnce(maxAge: int, lead: int, start: real, events: seq<Event>, i: nat, j: nat)
    requires lead < Magnitude(maxAge)
    requires Honest(lead, events) && i < j < |events| && events[i].token.nonce == events[j].token.nonce
    requires AcceptedAt(maxAge, start, events, i)
    ensures !AcceptedAt(maxAge, start, events, j)
  {
    hide Run;
    assert events[j].token == events[i].token;
    if Alive(maxAge, events[j]) {
      assert events[j].now.Floor <= events[i].now.Floor + lead + maxAge;
      assert events[j].now < events[i].now + (2 * maxAge) as real;
      assert events[j - 1].now <= events[j].now;
      StaysUsed(maxAge, lead, start, events, i, j);
    }
  }

  function Magnitude(x: int): int {
    if x < 0 then -x else x
  }

  /** A nonce is used at second 60; another one is used when a cleanup can forget the first; then the first is back. */
  function ReplayRun(maxAge: int): seq<Event> {
    var iat := 60 + Magnitude(maxAge);
    var later := if maxAge < 0 then 60.0 else (60 + 2 * maxAge) as real;
    [Event(Token("n", iat, None), 60.0), Event(Token("o", iat, None), later), Event(Token("n", iat, None), later)]
  }

  function ReplayStart(maxAge: int): real {
    if maxAge < 0 then 0.0 else if maxAge < 30 then (2 * maxAge) as real else 60.0
  }

  lemma ReplayExample(maxAge: int, lead: int)
    requires lead >= Magnitude(maxAge)
    ensures
      var h, start := ReplayRun(maxAge), ReplayStart(maxAge);
      Honest(lead, h) && AcceptedAt(maxAge, start, h, 0) && AcceptedAt(maxAge, start, h, 2)
  {
    var h, start := ReplayRun(maxAge), ReplayStart(maxAge);
    assert h[..0] == [] && h[..1] == [h[0]] && h[..2] == [h[0], h[1]];
    assert h[..1][..0] == [] && h[..2][..1] == h[..1];
    assert Run(maxAge, start, h[..1]) == Step(maxAge, State(map[], start), h[0]);
    assert Run(maxAge, start, h[..2]) == Step(maxAge, Run(maxAge, start, h[..1]), h[1]);
  }

  /** Single use holds exactly if no issuer is a whole token lifetime ahead; never for a lifetime of zero, since a cleanup
      then forgets a nonce at once. */
  lemma SingleUseExactlyWhen(maxAge: int, lead: int)
    ensures AcceptsOnce(maxAge, lead) <==> lead < Magnitude(maxAge)
  {
    hide Run, Accepts;
    if lead >= Magnitude(maxAge) {
      ReplayExample(maxAge, lead);
      var h, start := ReplayRun(maxAge), ReplayStart(maxAge);
      assert h[0].token.nonce == h[2].token.nonce && AcceptedAt(maxAge, start, h, 0) && AcceptedAt(maxAge, start, h, 2);
    } else {
      forall start: real, events: seq<Event>, i: nat, j: nat
        | Honest(lead, events) && i < j < |events| && events[i].token.nonce == events[j].token.nonce
          && AcceptedAt(maxAge, start, events, i)
        ensures !AcceptedAt(maxAge, start, events, j)
      {
        AcceptedOnce(maxAge, lead, start, events, i, j);
      }
    }
  }

  /** A claim of the nonce in a shared store, kept for twice the lifetime, is still there when the token is presented. */
  ghost predicate ClaimOutlives(maxAge: int, lead: int, t: Token, claimed: real, now: real) {
    t.iat <= claimed.Floor + lead && Alive(maxAge, Event(t, now)) ==> now < claimed + (2 * maxAge) as real
  }

  /** With a store, single use holds under the same condition. */
  lemma ClaimOutlivesToken(maxAge: int, lead: int)
    requires maxAge > 0
    ensures (forall t, claimed, now :: ClaimOutlives(maxAge, lead, t, claimed, now)) <==> lead < maxAge
  {
    if lead < maxAge {
      forall t, claimed, now ensures ClaimOutlives(maxAge, lead, t, claimed, now) {
      }
    } else {
      assert !ClaimOutlives(maxAge, lead, Token("n", maxAge, None), 0.0, (2 * maxAge) as real);
    }
  }

  class TokenVerifier {
    const maxAge: int
    var usedNonces: map<string, real>
    var lastCleanup: real

    ghost function Contents(): State
      reads this
    {
      State(usedNonces, lastCleanup)
    }

    constructor (maxAge: int, now: real)
      ensures Contents() == Run(maxAge, now, []) && this.maxAge == maxAge
    {
      this.maxAge := maxAge;
      usedNonces := map[];
      lastCleanup := now;
    }

    method Verify(token: Token, now: real) returns (ok: bool)
      modifies this
      ensures Contents() == Step(maxAge, old(Contents()), Event(token, now))
      ensures ok == Accepts(maxAge, old(Contents()), Event(token, now))
    {
      if now.Floor - token.iat > maxAge {
        return false;
      }
      if token.exp.Some? && now.Floor > token.exp.value {
        return false;
      }
      if token.nonce == "" || token.nonce in usedNonces {
        return false;
      }
      usedNonces := usedNonces[token.nonce := now];
      MaybeCleanupNonces(now);
      return true;
    }

    method MaybeCleanupNonces(now: real)
      modifies this
      ensures Contents() == Cleaned(maxAge, old(Contents()), now)
    {
      if now - lastCleanup < 60.0 {
        return;
      }
      lastCleanup := now;
      var cutoff := now - (maxAge * 2) as real;
      usedNonces := map k | k in usedNonces && usedNonces[k] > cutoff :: usedNonces[k];
    }
  }
}
