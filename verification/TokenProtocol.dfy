/**
 The token protocol of the Python middleware: telemetry, solved challenges, and the decision on a request.
 */
module TokenProtocol {
  // One request is one atomic step at one clock reading. Token strings cannot be forged: verification succeeds only on a
  // string that was issued. What other parts contribute (request signals, rule signals, the model's probability, the
  // outcome of the proof of work, hashed user agents, random ids and token strings) is part of each step.

  import opened Basics
  import opened Wrappers
  import opened OrderedDict
  import opened Fusion
  import opened Sessions

  const ANONYMOUS: Key := "anonymous"
  const SESSION_ID_LENGTH := 24

  datatype Config = Config(
    thresholds: Thresholds, modelThreshold: real, ttl: int, limits: Limits, tokenPaths: seq<string>)

  datatype Claims = Claims(sid: Key, score: real, pow: bool, tel: bool, uah: string, iat: int, exp: int)

  /** What becomes of a telemetry body: over the rate limit, malformed, or scored. */
  datatype Outcome = Limited | Rejected | Scored(rules: seq<real>, probability: Option<real>)

  /** `freshId` and `token` are the random session id and token string the step would make; an empty cookie or an
      empty presented token is a missing one. */
  datatype Event =
    | GetChallenge(cookie: string, now: real, freshId: Key)
    | PostSolution(cookie: string, now: real, freshId: Key, uah: string, token: string, solved: bool)
    | PostTelemetry(cookie: string, now: real, freshId: Key, uah: string, token: string, outcome: Outcome)
    | Request(cookie: string, now: real, freshId: Key, uah: string, presented: string, path: string,
              signals: seq<real>)

  /** One accepted telemetry submission. */
  datatype Accepted = Accepted(sid: Key, score: real, at: real)

  /** The sessions and the tokens that verify; and the history: session ids drawn, and telemetry accepted. */
  datatype State = State(sessions: Table, issued: map<string, Claims>, drawn: set<Key>, accepted: seq<Accepted>)

  datatype Decision = Decision(action: Action, score: real, claims: Option<Claims>)

  function Visited(c: Config, s: State, e: Event): (r: Table)
    ensures |r| > 0
  {
    Visit(c.limits, s.sessions, e.cookie, e.now, e.freshId)
  }

  function SessionId(c: Config, s: State, e: Event): Key {
    Current(Visited(c, s, e)).key
  }

  // -- Tokens --------------------------------------------------------------------------------------

  function Verified(c: Config, issued: map<string, Claims>, token: string, now: real): Option<Claims> {
    if token in issued && now.Floor - issued[token].iat <= c.ttl && now.Floor <= issued[token].exp
    then Some(issued[token]) else None
  }

  datatype TokenCheck = TokenCheck(claims: Option<Claims>, signals: seq<real>)

  function CheckToken(c: Config, issued: map<string, Claims>, token: string, uah: string, sid: Key, now: real)
    : TokenCheck
  {
    if token == "" then TokenCheck(None, [])
    else
      match Verified(c, issued, token, now)
      case None => TokenCheck(None, [40.0])
      case Some(k) =>
        if k.uah != uah || k.sid !in {ANONYMOUS, sid} then TokenCheck(None, [60.0]) else TokenCheck(Some(k), [k.score])
  }

  function MlScores(c: Config, probability: Option<real>): seq<real> {
    match probability
    case None => []
    case Some(p) => [Rescale(p, ModelThreshold(c.modelThreshold), c.thresholds.challenge as real)]
  }

  function ScoreOf(c: Config, o: Outcome): real
    requires o.Scored?
  {
    TelemetryScore(o.rules, MlScores(c, o.probability))
  }

  function Grant(c: Config, sid: Key, score: real, pow: bool, tel: bool, uah: string, now: real): Claims {
    Claims(sid, score, pow, tel, uah, now.Floor, now.Floor + c.ttl)
  }

  // -- Decisions -----------------------------------------------------------------------------------

  predicate RequiresToken(c: Config, path: string) {
    exists p | p in c.tokenPaths :: p <= path
  }

  predicate HasTelemetry(claims: Option<Claims>) {
    claims.Some? && (claims.value.pow ==> claims.value.tel)
  }

  function Settle(c: Config, path: string, claims: Option<Claims>, score: real): Action {
    var verdict := Decide(score, c.thresholds);
    var lifted := if verdict.Challenge? && claims.Some? && claims.value.pow then Allow else verdict;
    if RequiresToken(c, path) && !HasTelemetry(claims) && lifted.Allow?
    then (if c.thresholds.mode.Monitor? then MonitorOnly else Challenge)
    else lifted
  }

  function Evaluate(c: Config, s: State, e: Event): Decision
    requires e.Request?
  {
    var check := CheckToken(c, s.issued, e.presented, e.uah, SessionId(c, s, e), e.now);
    var score := Round1(NoisyOr(e.signals + check.signals));
    Decision(Settle(c, e.path, check.claims, score), score, check.claims)
  }

  /** A token is required exactly on the paths that begin with a configured one. */
  lemma RequiresTokenBelow(c: Config, path: string)
    ensures RequiresToken(c, path) <==> exists p, rest :: p in c.tokenPaths && path == p + rest
  {
    if RequiresToken(c, path) {
      var p :| p in c.tokenPaths && p <= path;
      assert path == p + path[|p|..];
    }
  }

  /** In enforce mode a request is allowed exactly if its score stays below the block threshold, and below the
      challenge threshold or with solved work, and it carries telemetry wherever its path begins with a configured one. */
  lemma AllowedExactlyWhen(c: Config, path: string, k: Option<Claims>, score: real)
    requires c.thresholds.mode.Enforce?
    ensures
      Settle(c, path, k, score) == Allow <==>
      && score < c.thresholds.block as real
      && (score < c.thresholds.challenge as real || (k.Some? && k.value.pow))
      && ((exists p, rest :: p in c.tokenPaths && path == p + rest) ==> k.Some? && (k.value.pow ==> k.value.tel))
  {
    RequiresTokenBelow(c, path);
    hide RequiresToken;
  }

  /** On all other paths the score decides, in both modes, and solved work lifts a challenge. */
  lemma OtherPathsGoByScore(c: Config, path: string, k: Option<Claims>, score: real)
    requires forall p, rest | p in c.tokenPaths :: path != p + rest
    ensures
      var verdict := Decide(score, c.thresholds);
      Settle(c, path, k, score) == if verdict.Challenge? && k.Some? && k.value.pow then Allow else verdict
  {
    RequiresTokenBelow(c, path);
    hide RequiresToken;
  }

  /** Solved work lifts a challenge, with or without telemetry, except where telemetry is required and missing; it never
      lifts a block. */
  lemma WorkLiftsOnlyChallenges(c: Config, path: string, k: Claims, score: real)
    requires k.pow
    ensures
      var without, with_ := Decide(score, c.thresholds), Settle(c, path, Some(k), score);
      && (with_.Block? <==> without.Block?)
      && (without.Challenge? ==> with_ == if RequiresToken(c, path) && !k.tel then Challenge else Allow)
      && (!without.Challenge? && (RequiresToken(c, path) ==> k.tel) ==> with_ == without)
  {
    hide RequiresToken;
  }

  /** Monitor mode denies nothing. */
  lemma MonitorDeniesNothing(c: Config, path: string, k: Option<Claims>, score: real)
    requires c.thresholds.mode.Monitor?
    ensures Settle(c, path, k, score) in {Allow, MonitorOnly}
  {
    hide RequiresToken;
  }

  // -- Runs ----------------------------------------------------------------------------------------

  function Step(c: Config, s: State, e: Event): State {
    var d := Visited(c, s, e);
    var id, session := Current(d).key, Current(d).value;
    var t := s.(drawn := s.drawn + {e.freshId});
    match e
    case GetChallenge(_, _, _) => t.(sessions := d)
    case PostSolution(_, now, _, uah, token, solved) =>
      if !solved then t.(sessions := d)
      else
        var score := if session.telemetry.Some? then session.telemetry.value else 0.0;
        t.(sessions := d, issued := s.issued[token := Grant(c, id, score, true, session.telemetry.Some?, uah, now)])
    case PostTelemetry(_, now, _, uah, token, outcome) =>
      if !outcome.Scored? then t.(sessions := Put(d, session.(lastSeen := now)))
      else
        var score := ScoreOf(c, outcome);
        t.(sessions := Put(d, Session(now, Some(score))),
           issued := s.issued[token := Grant(c, id, score, false, false, uah, now)],
           accepted := s.accepted + [Accepted(id, score, now)])
    case Request(_, now, _, _, _, _, _) => t.(sessions := Put(d, session.(lastSeen := now)))
  }

  /** Session ids are drawn without repetition, and are longer than the reserved word. */
  ghost predicate Enabled(s: State, e: Event) {
    |e.freshId| == SESSION_ID_LENGTH && e.freshId !in s.drawn
  }

  function Start(): State {
    State([], map[], {}, [])
  }

  /** A run, with the states between its events. */
  ghost predicate IsRun(c: Config, states: seq<State>, events: seq<Event>) {
    && |states| == |events| + 1 && states[0] == Start()
    && forall i | 0 <= i < |events| :: Enabled(states[i], events[i]) && states[i + 1] == Step(c, states[i], events[i])
  }

  // -- What sessions and tokens say --------------------------------------------------------------------

  /** The score of the latest telemetry accepted in a session. */
  function LatestScore(accepted: seq<Accepted>, sid: Key): Option<real> {
    if accepted == [] then None
    else if accepted[|accepted| - 1].sid == sid then Some(accepted[|accepted| - 1].score)
    else LatestScore(accepted[..|accepted| - 1], sid)
  }

  /** The claims tell the truth about the first m submissions: telemetry tokens about the last of them, tokens for
      solved work about the latest of their session, if there was one. */
  ghost predicate Evidence(s: State, k: Claims, m: nat) {
    && m <= |s.accepted|
    && if k.pow then LatestScore(s.accepted[..m], k.sid) == (if k.tel then Some(k.score) else None)
       else m > 0 && s.accepted[m - 1].sid == k.sid && s.accepted[m - 1].score == k.score
            && s.accepted[m - 1].at.Floor == k.iat
  }

  ghost predicate TokenTells(c: Config, s: State, k: Claims) {
    && |k.sid| == SESSION_ID_LENGTH && 0.0 <= k.score <= 100.0 && IsTenth(k.score) && k.exp == k.iat + c.ttl
    && exists m :: Evidence(s, k, m)
  }

  ghost predicate SessionTells(s: State, en: Entry<Session>) {
    en.key in s.drawn && en.value.telemetry == LatestScore(s.accepted, en.key)
  }

  ghost predicate IsScore(x: real) {
    0.0 <= x <= 100.0 && IsTenth(x)
  }

  ghost predicate Invariant(c: Config, s: State) {
    && (forall id | id in s.drawn :: |id| == SESSION_ID_LENGTH)
    && (forall en | en in s.sessions :: SessionTells(s, en))
    && (forall i | 0 <= i < |s.accepted| :: s.accepted[i].sid in s.drawn && IsScore(s.accepted[i].score))
    && (forall t | t in s.issued :: TokenTells(c, s, s.issued[t]))
  }

  lemma {:induction false} LatestIsAccepted(accepted: seq<Accepted>, sid: Key)
    requires LatestScore(accepted, sid).Some?
    ensures exists i :: 0 <= i < |accepted| && accepted[i].sid == sid && Some(accepted[i].score) == LatestScore(accepted, sid)
  {
    if accepted[|accepted| - 1].sid != sid {
      LatestIsAccepted(accepted[..|accepted| - 1], sid);
      var i :| 0 <= i < |accepted| - 1 && accepted[i].sid == sid
               && Some(accepted[i].score) == LatestScore(accepted[..|accepted| - 1], sid);
      assert accepted[i].sid == sid;
    }
  }

  lemma LatestAppend(accepted: seq<Accepted>, a: Accepted, sid: Key)
    ensures LatestScore(accepted + [a], sid) == if a.sid == sid then Some(a.score) else LatestScore(accepted, sid)
  {
    assert (accepted + [a])[..|accepted|] == accepted;
  }

  /** The session of a step tells the truth before the step changes it. */
  lemma VisitTells(c: Config, s: State, e: Event)
    requires Invariant(c, s) && Enabled(s, e)
    ensures
      var d := Visited(c, s, e);
      && |Current(d).key| == SESSION_ID_LENGTH && Current(d).key in s.drawn + {e.freshId}
      && Current(d).value.telemetry == LatestScore(s.accepted, Current(d).key)
      && (Current(d).value.telemetry.Some? ==> IsScore(Current(d).value.telemetry.value))
      && (forall en | en in d[..|d| - 1] :: en in s.sessions && en.key != Current(d).key)
  {
    hide Visit, LatestScore, TokenTells, IsScore;
    VisitedKeys(c.limits, s.sessions, e.cookie, e.now, e.freshId);
    var id := Current(Visited(c, s, e)).key;
    if LatestScore(s.accepted, id).Some? {
      LatestIsAccepted(s.accepted, id);
    }
    if LatestScore(s.accepted, e.freshId).Some? {
      LatestIsAccepted(s.accepted, e.freshId);
    }
    assert NoKey(s.sessions, e.freshId);
  }

  /** What a step does to the sessions and the history, next to the visited table. */
  lemma StepShape(c: Config, s: State, e: Event)
    ensures
      var d, t := Visited(c, s, e), Step(c, s, e);
      var id, telemetry := Current(d).key, Current(d).value.telemetry;
      && |t.sessions| == |d| && t.sessions[..|d| - 1] == d[..|d| - 1] && Current(t.sessions).key == id
      && t.drawn == s.drawn + {e.freshId}
      && if e.PostTelemetry? && e.outcome.Scored? then
           var score := ScoreOf(c, e.outcome);
           Current(t.sessions).value.telemetry == Some(score) && t.accepted == s.accepted + [Accepted(id, score, e.now)]
         else
           Current(t.sessions).value.telemetry == telemetry && t.accepted == s.accepted
  {
    hide Visit, ScoreOf, Grant;
  }

  /** What a step is to the session table. */
  function RequestOf(c: Config, s: State, e: Event): Op {
    var session := Current(Visited(c, s, e)).value;
    Op(e.cookie, e.now, e.freshId,
       match e
       case GetChallenge(_, _, _) => None
       case PostSolution(_, _, _, _, _, _) => None
       case PostTelemetry(_, now, _, _, _, outcome) =>
         Some(if outcome.Scored? then Session(now, Some(ScoreOf(c, outcome))) else session.(lastSeen := now))
       case Request(_, now, _, _, _, _, _) => Some(session.(lastSeen := now)))
  }

  /** To the session table every step is one request, so sessions are remembered as the table promises. */
  lemma StepIsRequest(c: Config, s: State, e: Event)
    ensures Step(c, s, e).sessions == Apply(c.limits, s.sessions, RequestOf(c, s, e))
  {
    hide Visit, ScoreOf, Grant;
  }

  /** Reports and requests keep their session alive; asking for a challenge or solving one does not. */
  lemma LastSeenAfter(c: Config, s: State, e: Event)
    ensures
      var seen := Current(Step(c, s, e).sessions).value.lastSeen;
      seen == if e.PostTelemetry? || e.Request? then e.now else Current(Visited(c, s, e)).value.lastSeen
  {
    hide Visit, ScoreOf, Grant;
  }

  lemma HeldTells(c: Config, s: State, en: Entry<Session>)
    requires Invariant(c, s) && en in s.sessions
    ensures SessionTells(s, en)
  {
  }

  lemma OthersTell(c: Config, s: State, e: Event, en: Entry<Session>)
    requires Invariant(c, s) && Enabled(s, e) && en in s.sessions && en.key != SessionId(c, s, e)
    ensures SessionTells(Step(c, s, e), en)
  {
    hide Visited, LatestScore, ScoreOf, Step, Invariant, Enabled;
    HeldTells(c, s, en);
    StepShape(c, s, e);
    if e.PostTelemetry? && e.outcome.Scored? {
      LatestAppend(s.accepted, Accepted(SessionId(c, s, e), ScoreOf(c, e.outcome), e.now), en.key);
    }
  }

  lemma CurrentTells(c: Config, s: State, e: Event)
    requires Invariant(c, s) && Enabled(s, e)
    ensures |Step(c, s, e).sessions| > 0 && SessionTells(Step(c, s, e), Current(Step(c, s, e).sessions))
  {
    hide Visited, LatestScore, ScoreOf, Step, Invariant, Enabled, IsScore;
    VisitTells(c, s, e);
    StepShape(c, s, e);
    if e.PostTelemetry? && e.outcome.Scored? {
      LatestAppend(s.accepted, Accepted(SessionId(c, s, e), ScoreOf(c, e.outcome), e.now), SessionId(c, s, e));
    }
  }

  lemma SessionsKeepTelling(c: Config, s: State, e: Event)
    requires Invariant(c, s) && Enabled(s, e)
    ensures
      var t := Step(c, s, e);
      forall en | en in t.sessions :: SessionTells(t, en)
  {
    hide Visited, ScoreOf, Step, Invariant, Enabled, IsScore, SessionTells;
    VisitTells(c, s, e);
    StepShape(c, s, e);
    CurrentTells(c, s, e);
    var d, t := Visited(c, s, e), Step(c, s, e);
    forall en | en in t.sessions && en != Current(t.sessions) ensures SessionTells(t, en) {
      assert en in t.sessions[..|d| - 1];
      OthersTell(c, s, e, en);
    }
  }

  lemma EvidenceStays(s: State, t: State, k: Claims, m: nat)
    requires Evidence(s, k, m) && s.accepted <= t.accepted
    ensures Evidence(t, k, m)
  {
    hide LatestScore;
    assert t.accepted[..m] == s.accepted[..m];
  }

  lemma TokenStays(c: Config, s: State, t: State, k: Claims)
    requires TokenTells(c, s, k) && s.accepted <= t.accepted
    ensures TokenTells(c, t, k)
  {
    hide Evidence, IsTenth;
    var m :| Evidence(s, k, m);
    EvidenceStays(s, t, k, m);
  }

  lemma ScoreIsScore(c: Config, o: Outcome)
    requires o.Scored?
    ensures IsScore(ScoreOf(c, o))
  {
    hide TelemetryScore, MlScores, IsTenth;
    TelemetryScoreFusesAll(o.rules, MlScores(c, o.probability));
  }

  lemma ZeroIsScore()
    ensures IsScore(0.0)
  {
    WholeIsTenth(0);
  }

  /** A telemetry token is issued for the submission just accepted. */
  lemma TelemetryTokenTells(c: Config, t: State, k: Claims)
    requires |k.sid| == SESSION_ID_LENGTH && IsScore(k.score) && k.exp == k.iat + c.ttl && !k.pow
    requires
      && t.accepted != [] && t.accepted[|t.accepted| - 1].sid == k.sid && t.accepted[|t.accepted| - 1].score == k.score
      && t.accepted[|t.accepted| - 1].at.Floor == k.iat
    ensures TokenTells(c, t, k)
  {
    hide IsTenth;
    assert Evidence(t, k, |t.accepted|);
  }

  /** A token for solved work carries the telemetry score of its session on. */
  lemma WorkTokenTells(c: Config, t: State, k: Claims)
    requires |k.sid| == SESSION_ID_LENGTH && IsScore(k.score) && k.exp == k.iat + c.ttl && k.pow
    requires LatestScore(t.accepted, k.sid) == if k.tel then Some(k.score) else None
    ensures TokenTells(c, t, k)
  {
    hide IsTenth, LatestScore;
    assert t.accepted[..|t.accepted|] == t.accepted;
    assert Evidence(t, k, |t.accepted|);
  }

  predicate Issues(e: Event) {
    (e.PostTelemetry? && e.outcome.Scored?) || (e.PostSolution? && e.solved)
  }

  /** What a step does to the tokens. */
  lemma StepIssues(c: Config, s: State, e: Event)
    ensures
      var session, t := Current(Visited(c, s, e)), Step(c, s, e);
      if !Issues(e) then t.issued == s.issued
      else
        var k := if e.PostTelemetry? then Grant(c, session.key, ScoreOf(c, e.outcome), false, false, e.uah, e.now)
                 else
                   var telemetry := session.value.telemetry;
                   var score := if telemetry.Some? then telemetry.value else 0.0;
                   Grant(c, session.key, score, true, telemetry.Some?, e.uah, e.now);
        t.issued == s.issued[e.token := k]
  {
    hide Visited, ScoreOf, Grant;
  }

  lemma NewTokenTells(c: Config, s: State, e: Event)
    requires Invariant(c, s) && Enabled(s, e) && Issues(e)
    ensures e.token in Step(c, s, e).issued && TokenTells(c, Step(c, s, e), Step(c, s, e).issued[e.token])
  {
    hide Visited, LatestScore, ScoreOf, IsScore, TokenTells, Invariant, Enabled, Step;
    VisitTells(c, s, e);
    StepShape(c, s, e);
    StepIssues(c, s, e);
    var t := Step(c, s, e);
    if e.PostTelemetry? {
      ScoreIsScore(c, e.outcome);
      TelemetryTokenTells(c, t, t.issued[e.token]);
    } else {
      ZeroIsScore();
      WorkTokenTells(c, t, t.issued[e.token]);
    }
  }

  lemma OldTokenTells(c: Config, s: State, t: State, token: string)
    requires Invariant(c, s) && s.accepted <= t.accepted && token in s.issued
    ensures TokenTells(c, t, s.issued[token])
  {
    hide TokenTells;
    TokenStays(c, s, t, s.issued[token]);
  }

  lemma TokensKeepTelling(c: Config, s: State, e: Event)
    requires Invariant(c, s) && Enabled(s, e)
    ensures
      var t := Step(c, s, e);
      forall token | token in t.issued :: TokenTells(c, t, t.issued[token])
  {
    hide Visited, ScoreOf, TokenTells, Invariant, Enabled, Step, Grant;
    StepShape(c, s, e);
    StepIssues(c, s, e);
    var t := Step(c, s, e);
    assert s.accepted <= t.accepted;
    forall token | token in t.issued ensures TokenTells(c, t, t.issued[token]) {
      if Issues(e) && token == e.token {
        NewTokenTells(c, s, e);
      } else {
        OldTokenTells(c, s, t, token);
      }
    }
  }

  lemma StepKeepsInvariant(c: Config, s: State, e: Event)
    requires Invariant(c, s) && Enabled(s, e)
    ensures Invariant(c, Step(c, s, e))
  {
    hide Visited, LatestScore, ScoreOf, IsScore, TokenTells, SessionTells, Step;
    VisitTells(c, s, e);
    StepShape(c, s, e);
    SessionsKeepTelling(c, s, e);
    TokensKeepTelling(c, s, e);
    if e.PostTelemetry? && e.outcome.Scored? {
      ScoreIsScore(c, e.outcome);
    }
  }

  /** In every run the sessions and tokens in use tell the truth about the telemetry that was accepted. */
  lemma {:induction false} RunKeepsInvariant(c: Config, states: seq<State>, events: seq<Event>, i: nat)
    requires IsRun(c, states, events) && i <= |events|
    ensures Invariant(c, states[i])
  {
    hide Step, Enabled;
    if i > 0 {
      RunKeepsInvariant(c, states, events, i - 1);
      assert Enabled(states[i - 1], events[i - 1]);
      StepKeepsInvariant(c, states[i - 1], events[i - 1]);
    }
  }

  // -- What an allowed request proves --------------------------------------------------------------

  /** Accepted claims belong to the session of the request and are not older than the lifetime of tokens; and their score
      went into the decision in full. */
  lemma AcceptedClaims(c: Config, s: State, e: Event)
    requires Invariant(c, s) && e.Request?
    ensures
      var d := Evaluate(c, s, e);
      d.claims.Some? ==>
        var k := d.claims.value;
        && TokenTells(c, s, k) && k.sid == SessionId(c, s, e) && k.uah == e.uah
        && e.now.Floor - k.iat <= c.ttl && d.score >= k.score
  {
    hide Round1, NoisyOr, Visited, IsTenth, SessionTells, Settle, Evidence;
    if Evaluate(c, s, e).claims.Some? {
      var k := Evaluate(c, s, e).claims.value;
      assert TokenTells(c, s, s.issued[e.presented]);
      var scores := e.signals + [k.score];
      assert scores[|e.signals|] == k.score;
      ScoreAtLeastMember(scores, |e.signals|);
    }
  }

  /** The token of a request allowed on a token-required path: it carries the telemetry score that its session had when
      the first m submissions were accepted, and the score meets the thresholds. */
  ghost predicate Backs(c: Config, s: State, id: Key, now: real, score: real, k: Claims, m: nat) {
    && k.sid == id && Evidence(s, k, m) && LatestScore(s.accepted[..m], id) == Some(k.score)
    && k.score <= score && k.score < c.thresholds.block as real
    && (!k.pow ==> && k.score < c.thresholds.challenge as real
                   && m > 0 && now.Floor - s.accepted[m - 1].at.Floor <= c.ttl)
  }

  lemma EvidenceIsLatest(s: State, k: Claims, m: nat)
    requires Evidence(s, k, m) && (k.pow ==> k.tel)
    ensures LatestScore(s.accepted[..m], k.sid) == Some(k.score)
  {
  }

  /** The main result. In every run in enforce mode, a request allowed on a token-required path comes from a session that
      had telemetry accepted before. Its token was issued to that session and carries the session's latest score of that
      time; the decision counts it in full, so it is below the block threshold. Without solved work it is below the
      challenge threshold too, and the telemetry was accepted within the lifetime of tokens. */
  lemma {:induction false} AllowedRequestsAreBacked(c: Config, states: seq<State>, events: seq<Event>, i: nat, e: Event,
                                                    p: string, rest: string)
    requires IsRun(c, states, events) && i <= |events| && e.Request? && c.thresholds.mode.Enforce?
    requires p in c.tokenPaths && e.path == p + rest
    ensures
      var s := states[i];
      var d := Evaluate(c, s, e);
      d.action == Allow ==>
        d.claims.Some? && exists m :: Backs(c, s, SessionId(c, s, e), e.now, d.score, d.claims.value, m)
  {
    RequiresTokenBelow(c, e.path);
    hide Evaluate, Backs, SessionId, RequiresToken;
    RunKeepsInvariant(c, states, events, i);
    AllowedIsBacked(c, states[i], e);
  }

  lemma AllowedIsBacked(c: Config, s: State, e: Event)
    requires Invariant(c, s) && e.Request? && c.thresholds.mode.Enforce? && RequiresToken(c, e.path)
    ensures
      var d := Evaluate(c, s, e);
      d.action == Allow ==>
        d.claims.Some? && exists m :: Backs(c, s, SessionId(c, s, e), e.now, d.score, d.claims.value, m)
  {
    hide RequiresToken, Round1, NoisyOr, Settle, CheckToken, Invariant, SessionId, LatestScore, IsTenth;
    var d := Evaluate(c, s, e);
    RequiresTokenBelow(c, e.path);
    AllowedExactlyWhen(c, e.path, d.claims, d.score);
    if d.action == Allow {
      AcceptedClaims(c, s, e);
      var k := d.claims.value;
      var m :| Evidence(s, k, m);
      EvidenceIsLatest(s, k, m);
      assert Backs(c, s, SessionId(c, s, e), e.now, d.score, k, m);
    }
  }

  // -- What a refused token costs ------------------------------------------------------------------

  /** A token that is forged or expired adds a signal of 40, one of another session or browser a signal of 60; without
      other signals that is the score. A request without a token is judged by its signals alone. */
  lemma RefusedTokensScore(c: Config, s: State, e: Event)
    requires e.Request?
    ensures
      var d, verified := Evaluate(c, s, e), Verified(c, s.issued, e.presented, e.now);
      && (e.presented == "" ==> d.claims == None && d.score == Round1(NoisyOr(e.signals)))
      && (e.presented != "" && verified.None? ==>
            d.claims == None && d.score >= 40.0 && (e.signals == [] ==> d.score == 40.0))
      && (e.presented != "" && verified.Some? ==>
            var k := verified.value;
            if k.uah == e.uah && (k.sid == SessionId(c, s, e) || k.sid == "anonymous") then d.claims == Some(k)
            else d.claims == None && d.score >= 60.0 && (e.signals == [] ==> d.score == 60.0))
  {
    hide Round1, NoisyOr, SessionId, Verified, IsTenth, Settle;
    RefusalScore(e.signals, 40);
    RefusalScore(e.signals, 60);
    assert e.signals + [] == e.signals;
  }

  lemma RefusalScore(signals: seq<real>, n: nat)
    requires n <= 100
    ensures
      var score := Round1(NoisyOr(signals + [n as real]));
      score >= n as real && (signals == [] ==> score == n as real)
  {
    hide Round1, NoisyOr, IsTenth;
    var all := signals + [n as real];
    assert all[|signals|] == n as real;
    WholeIsTenth(n);
    ScoreAtLeastMember(all, |signals|);
    if signals == [] {
      assert all == [n as real];
      OneScore(n as real);
    }
  }

  // -- What a telemetry report is answered -----------------------------------------------------------

  /** The telemetry score fuses the rule signals with the rescaled probability, if there is a model. */
  lemma ScoreFusesAll(c: Config, o: Outcome)
    requires o.Scored?
    ensures
      var challenge := c.thresholds.challenge as real;
      ScoreOf(c, o) == Round1(NoisyOr(
        if o.probability.None? then o.rules
        else o.rules + [Rescale(o.probability.value, ModelThreshold(c.modelThreshold), challenge)]))
  {
    hide Round1, NoisyOr, Rescale, ModelThreshold;
    TelemetryScoreFusesAll(o.rules, MlScores(c, o.probability));
    assert o.rules + [] == o.rules;
  }

  /** In enforce mode a report whose probability reaches the model's threshold is challenged or blocked, whatever the rules
      say, exactly if one of the two thresholds can be reached at all. */
  lemma ModelDecides(c: Config, o: Outcome)
    requires o.Scored? && c.thresholds.mode.Enforce?
    requires o.probability.Some? && ModelThreshold(c.modelThreshold) <= o.probability.value <= 1.0
    ensures Decide(ScoreOf(c, o), c.thresholds) in {Challenge, Block}
            <==> c.thresholds.challenge <= 100 || c.thresholds.block <= 100
  {
    hide Round1, NoisyOr, Rescale, Decide, TelemetryScore;
    ModelThresholdChallenges(o.rules, o.probability.value, c.modelThreshold, c.thresholds);
  }

  // -- What telemetry achieves ---------------------------------------------------------------------------

  lemma OneScore(x: real)
    requires IsScore(x)
    ensures Round1(NoisyOr([x])) == x
  {
    hide Round1, IsTenth;
    BenignOne(x);
    RoundIsNearest(x);
  }

  /** The sessions of the events of a run. */
  ghost function Ids(c: Config, states: seq<State>, events: seq<Event>): (ids: seq<Key>)
    requires |states| == |events| + 1
    ensures |ids| == |events|
  {
    seq(|events|, k requires 0 <= k < |events| => SessionId(c, states[k], events[k]))
  }

  lemma RunStep(c: Config, states: seq<State>, events: seq<Event>, k: nat)
    requires IsRun(c, states, events) && k < |events|
    ensures |states| == |events| + 1
    ensures Enabled(states[k], events[k]) && states[k + 1] == Step(c, states[k], events[k])
    ensures Ids(c, states, events)[k] == SessionId(c, states[k], events[k])
  {
    hide Step, Enabled, SessionId;
    assert Enabled(states[k], events[k]);
  }

  lemma FreshIsNoKey(c: Config, s: State, e: Event)
    requires Invariant(c, s) && Enabled(s, e)
    ensures NoKey(s.sessions, e.freshId)
  {
    hide LatestScore, TokenTells, IsScore;
  }

  /** In every run the sessions are in order of last use and no more than the table holds. */
  lemma {:induction false} SessionsStayOrdered(c: Config, states: seq<State>, events: seq<Event>, m: nat)
    requires IsRun(c, states, events) && m <= |events|
    ensures Ordered(c.limits, Tracked(states[m].sessions, Ids(c, states, events)[..m]))
  {
    if m > 0 {
      hide Step, Invariant, IsRun, Ids, Enabled, SessionId, Ordered;
      var last := m - 1;
      RunStep(c, states, events, last);
      SessionsStayOrdered(c, states, events, last);
      RunKeepsInvariant(c, states, events, last);
      var uses := Ids(c, states, events);
      StepKeepsOrder(c, states[last], events[last], uses, last);
    }
  }

  lemma StepKeepsOrder(c: Config, s: State, e: Event, uses: seq<Key>, k: nat)
    requires Invariant(c, s) && Enabled(s, e) && k < |uses| && uses[k] == SessionId(c, s, e)
    requires Ordered(c.limits, Tracked(s.sessions, uses[..k]))
    ensures Ordered(c.limits, Tracked(Step(c, s, e).sessions, uses[..k + 1]))
  {
    hide Visit, Ordered, ScoreOf, Step, Invariant, Enabled, NoKey;
    FreshIsNoKey(c, s, e);
    StepIsRequest(c, s, e);
    StepShape(c, s, e);
    NextStaysOrdered(c.limits, Tracked(s.sessions, uses[..k]), RequestOf(c, s, e));
    assert uses[..k + 1] == uses[..k] + [uses[k]];
  }

  ghost predicate HoldsSince(c: Config, s: State, id: Key, since: real) {
    exists session :: Holds(s.sessions, id, session) && session.lastSeen >= since
  }

  /** A request of the session itself, before it idles, keeps it. */
  lemma OwnStepKeeps(c: Config, s: State, e: Event, uses: seq<Key>, id: Key, since: real)
    requires Ordered(c.limits, Tracked(s.sessions, uses)) && HoldsSince(c, s, id, since)
    requires SessionId(c, s, e) == id && e.freshId != id && e.now >= since
    ensures HoldsSince(c, Step(c, s, e), id, since)
  {
    hide Visit, ScoreOf, Grant, InUseOrder;
    var session :| Holds(s.sessions, id, session) && session.lastSeen >= since;
    VisitedKeys(c.limits, s.sessions, e.cookie, e.now, e.freshId);
    OneEntry(s.sessions, id, session, Current(Visited(c, s, e)).value, uses);
    var after := Step(c, s, e).sessions;
    assert Holds(after, id, Current(after).value);
  }

  /** A request of another session, before it idles, keeps it as well while fewer others than the table holds are used. */
  lemma ElsewhereKeeps(c: Config, s: State, e: Event, uses: seq<Key>, id: Key, since: real)
    requires Ordered(c.limits, Tracked(s.sessions, uses)) && HoldsSince(c, s, id, since)
    requires SessionId(c, s, e) != id && NoKey(s.sessions, e.freshId) && e.now - since <= c.limits.maxAge
    requires |OthersSince(uses + [SessionId(c, s, e)], id)| < Cap(c.limits)
    ensures HoldsSince(c, Step(c, s, e), id, since)
  {
    hide Visit, InUseOrder, Step, NoKey, OthersSince, ScoreOf;
    var session :| Holds(s.sessions, id, session) && session.lastSeen >= since;
    StepIsRequest(c, s, e);
    StepShape(c, s, e);
    StepKeeps(c.limits, Tracked(s.sessions, uses), RequestOf(c, s, e), id, session);
  }

  lemma FreshIsNotDrawn(s: State, e: Event)
    requires Enabled(s, e)
    ensures e.freshId !in s.drawn
  {
  }

  lemma HeldIsDrawn(c: Config, s: State, id: Key, since: real)
    requires Invariant(c, s) && HoldsSince(c, s, id, since)
    ensures id in s.drawn
  {
    hide LatestScore, TokenTells, IsScore;
  }

  lemma TelemetryHolds(c: Config, s: State, e: Event)
    requires e.PostTelemetry? && e.outcome.Scored?
    ensures HoldsSince(c, Step(c, s, e), SessionId(c, s, e), e.now)
  {
    hide Visit, ScoreOf, Grant;
    var after := Step(c, s, e).sessions;
    assert Holds(after, SessionId(c, s, e), Current(after).value);
  }

  /** A session is held, with its last request no earlier than its telemetry, while it does not idle and fewer other
      sessions than the table holds are used. */
  lemma {:induction false} TelemetrySessionStays(c: Config, states: seq<State>, events: seq<Event>, i: nat, m: nat)
    requires IsRun(c, states, events) && i < m <= |events| && events[i].PostTelemetry? && events[i].outcome.Scored?
    requires forall k | i < k < m :: events[i].now <= events[k].now <= events[i].now + c.limits.maxAge
    requires |UsedBetween(Ids(c, states, events), i, m)| < Cap(c.limits)
    ensures HoldsSince(c, states[m], SessionId(c, states[i], events[i]), events[i].now)
  {
    hide IsRun, Step, Invariant, Ordered, SessionId, Enabled, Ids, UsedBetween, HoldsSince, OthersSince;
    var last := m - 1;
    RunStep(c, states, events, last);
    RunStep(c, states, events, i);
    var id, since := SessionId(c, states[i], events[i]), events[i].now;
    if last == i {
      TelemetryHolds(c, states[i], events[i]);
    } else {
      var s, e, ids := states[last], events[last], Ids(c, states, events);
      UsedBetweenGrows(ids, i, m);
      TelemetrySessionStays(c, states, events, i, last);
      SessionsStayOrdered(c, states, events, last);
      RunKeepsInvariant(c, states, events, last);
      HeldIsDrawn(c, s, id, since);
      FreshIsNoKey(c, s, e);
      if ids[last] == id {
        FreshIsNotDrawn(s, e);
        OwnStepKeeps(c, s, e, ids[..last], id, since);
      } else {
        OthersAreUsedBetween(ids, i, m);
        SubsetSize(OthersSince(ids[..m], id), UsedBetween(ids, i, m));
        assert ids[..m] == ids[..last] + [ids[last]];
        ElsewhereKeeps(c, s, e, ids[..last], id, since);
      }
    }
  }

  /** A request whose only signal is a token for telemetry. */
  lemma JudgedByToken(c: Config, s: State, e: Event, k: Claims)
    requires e.Request? && e.presented != "" && e.signals == [] && Verified(c, s.issued, e.presented, e.now) == Some(k)
    requires k.uah == e.uah && k.sid == SessionId(c, s, e) && !k.pow && Round1(NoisyOr([k.score])) == k.score
    ensures
      var d := Evaluate(c, s, e);
      d.score == k.score && d.action == Decide(k.score, c.thresholds)
  {
    hide SessionId, Verified, Round1, NoisyOr, RequiresToken;
    assert [] + [k.score] == [k.score];
  }

  /** Token strings are random: no later step up to m issues the token of step i again. */
  ghost predicate TokenIsUnique(events: seq<Event>, i: nat, m: nat) {
    i < |events| && m <= |events| && Issues(events[i]) &&
    forall k | i < k < m && Issues(events[k]) :: events[k].token != events[i].token
  }

  lemma {:induction false} TokenStaysIssued(c: Config, states: seq<State>, events: seq<Event>, i: nat, m: nat)
    requires IsRun(c, states, events) && i < m <= |events| && TokenIsUnique(events, i, m)
    requires events[i].PostTelemetry?
    ensures
      var t, issued := events[i], states[m].issued;
      t.token in issued && issued[t.token]
                           == Grant(c, SessionId(c, states[i], t), ScoreOf(c, t.outcome), false, false, t.uah, t.now)
  {
    hide Step, Visited, ScoreOf, Grant, Enabled, IsRun;
    RunStep(c, states, events, m - 1);
    StepIssues(c, states[m - 1], events[m - 1]);
    if m - 1 > i {
      TokenStaysIssued(c, states, events, i, m - 1);
    }
  }

  /** A request with the cookie of a held session is in that session. */
  lemma HeldIsCurrent(c: Config, s: State, e: Event, uses: seq<Key>, id: Key, since: real)
    requires Ordered(c.limits, Tracked(s.sessions, uses)) && HoldsSince(c, s, id, since)
    requires e.cookie == id && id != "" && e.now - since <= c.limits.maxAge
    ensures SessionId(c, s, e) == id
  {
    hide InUseOrder, MakeRoom, Remove;
    var session :| Holds(s.sessions, id, session) && session.lastSeen >= since;
    var found := Find(s.sessions, id);
    assert found.Some?;
    OneEntry(s.sessions, id, session, found.value, uses);
  }

  lemma TelemetryFacts(c: Config, s: State, t: Event)
    requires Invariant(c, s) && Enabled(s, t) && t.PostTelemetry? && t.outcome.Scored?
    ensures SessionId(c, s, t) != "" && Round1(NoisyOr([ScoreOf(c, t.outcome)])) == ScoreOf(c, t.outcome)
  {
    hide Round1, NoisyOr, ScoreOf, Invariant, Enabled, IsScore, LatestScore, Visit;
    VisitTells(c, s, t);
    ScoreIsScore(c, t.outcome);
    OneScore(ScoreOf(c, t.outcome));
  }

  /** Conversely, in every run a session that sends telemetry at step i and presents its token in time is judged by the
      telemetry score alone, on every path, if nothing else speaks against the request: whatever happens in between, unless
      as many other sessions are used as the table holds. */
  lemma {:induction false} TelemetryOpensTheWay(c: Config, states: seq<State>, events: seq<Event>, i: nat, m: nat, e: Event)
    requires IsRun(c, states, events) && i < m <= |events| && events[i].PostTelemetry? && events[i].outcome.Scored?
    requires forall k | i < k < m :: events[i].now <= events[k].now <= events[i].now + c.limits.maxAge
    requires |UsedBetween(Ids(c, states, events), i, m)| < Cap(c.limits)
    requires TokenIsUnique(events, i, m) && events[i].token != ""
    requires e.Request? && e.cookie == SessionId(c, states[i], events[i]) && e.presented == events[i].token
    requires e.uah == events[i].uah && e.signals == []
    requires e.now - events[i].now <= c.limits.maxAge && e.now.Floor - events[i].now.Floor <= c.ttl
    ensures
      var d := Evaluate(c, states[m], e);
      d.score == ScoreOf(c, events[i].outcome) && d.action == Decide(d.score, c.thresholds)
  {
    hide SessionId, UsedBetween, Ids, Ordered, HoldsSince, Round1, NoisyOr, ScoreOf, Evaluate, Enabled, Step, IsRun,
         Invariant, TokenIsUnique;
    RunStep(c, states, events, i);
    var t, id, score := events[i], SessionId(c, states[i], events[i]), ScoreOf(c, events[i].outcome);
    RunKeepsInvariant(c, states, events, i);
    TelemetryFacts(c, states[i], t);
    TelemetrySessionStays(c, states, events, i, m);
    SessionsStayOrdered(c, states, events, m);
    HeldIsCurrent(c, states[m], e, Ids(c, states, events)[..m], id, t.now);
    TokenStaysIssued(c, states, events, i, m);
    JudgedByToken(c, states[m], e, Grant(c, id, score, false, false, t.uah, t.now));
  }

  // -- The middleware --------------------------------------------------------------------------------

  class Middleware {
    const config: Config
    const tracker: SessionTracker
    var issued: map<string, Claims>
    ghost var drawn: set<Key>
    ghost var accepted: seq<Accepted>

    ghost predicate Valid()
      reads this
    {
      tracker.limits == config.limits
    }

    ghost function Contents(): State
      reads this, tracker
    {
      State(tracker.sessions, issued, drawn, accepted)
    }

    constructor (config: Config)
      ensures Valid() && fresh(tracker) && Contents() == Start() && this.config == config
    {
      this.config := config;
      tracker := new SessionTracker(config.limits);
      issued, drawn, accepted := map[], {}, [];
    }

    method HandleChallenge(isGet: bool, cookie: string, now: real, freshId: Key, uah: string, token: string, solved: bool)
      returns (granted: Option<string>)
      requires Valid()
      modifies this, tracker
      ensures Valid()
      ensures Contents() == Step(config, old(Contents()),
                                 if isGet then GetChallenge(cookie, now, freshId)
                                 else PostSolution(cookie, now, freshId, uah, token, solved))
      ensures granted == if !isGet && solved then Some(token) else None
    {
      hide Visit;
      var session := tracker.GetOrCreate(cookie, now, freshId);
      drawn := drawn + {freshId};
      if isGet || !solved {
        return None;
      }
      var telemetry := session.value.telemetry;
      var score := if telemetry.Some? then telemetry.value else 0.0;
      issued := issued[token := Claims(session.key, score, true, telemetry.Some?, uah, now.Floor, now.Floor + config.ttl)];
      return Some(token);
    }

    method HandleTelemetry(cookie: string, now: real, freshId: Key, uah: string, token: string, outcome: Outcome)
      returns (verdict: Option<Action>)
      requires Valid()
      modifies this, tracker
      ensures Valid()
      ensures Contents() == Step(config, old(Contents()), PostTelemetry(cookie, now, freshId, uah, token, outcome))
      ensures verdict == if outcome.Scored? then Some(Decide(ScoreOf(config, outcome), config.thresholds)) else None
    {
      hide Visit, Round1, NoisyOr;
      var session := tracker.GetOrCreate(cookie, now, freshId);
      drawn := drawn + {freshId};
      tracker.Update(session.value.(lastSeen := now));
      if !outcome.Scored? {
        return None;
      }
      var ruleScore := NoisyOrLoop(outcome.rules);
      var fused := NoisyOrLoop([ruleScore] + MlScores(config, outcome.probability));
      var score := Round1(fused);
      tracker.Update(Session(now, Some(score)));
      accepted := accepted + [Accepted(session.key, score, now)];
      issued := issued[token := Claims(session.key, score, false, false, uah, now.Floor, now.Floor + config.ttl)];
      return Some(Decide(score, config.thresholds));
    }

    method CheckHeader(presented: string, uah: string, sid: Key, now: real, others: seq<real>)
      returns (claims: Option<Claims>, signals: seq<real>)
      ensures
        var check := CheckToken(config, issued, presented, uah, sid, now);
        claims == check.claims && signals == others + check.signals
    {
      claims, signals := None, others;
      if presented != "" {
        claims := Verified(config, issued, presented, now);
        if claims.Some? && claims.value.uah != uah {
          claims := None;
          signals := signals + [60.0];
        } else if claims.Some? && claims.value.sid !in {ANONYMOUS, sid} {
          claims := None;
          signals := signals + [60.0];
        } else if claims.Some? {
          signals := signals + [claims.value.score];
        } else {
          signals := signals + [40.0];
        }
      }
    }

    method ActionFor(path: string, claims: Option<Claims>, score: real) returns (action: Action)
      ensures action == Settle(config, path, claims, score)
    {
      action := Decide(score, config.thresholds);
      if action == Challenge && claims.Some? && claims.value.pow {
        action := Allow;
      }
      var hasTelemetry := claims.Some? && (!claims.value.pow || claims.value.tel);
      if RequiresToken(config, path) && !hasTelemetry && action == Allow {
        action := if config.thresholds.mode.Monitor? then MonitorOnly else Challenge;
      }
    }

    method EvaluateRequest(cookie: string, now: real, freshId: Key, uah: string, presented: string, path: string,
                           others: seq<real>)
      returns (d: Decision)
      requires Valid()
      modifies this, tracker
      ensures Valid()
      ensures
        var e := Request(cookie, now, freshId, uah, presented, path, others);
        Contents() == Step(config, old(Contents()), e) && d == Evaluate(config, old(Contents()), e)
    {
      hide Visit, Round1, NoisyOr, Settle, CheckToken;
      var session := tracker.GetOrCreate(cookie, now, freshId);
      drawn := drawn + {freshId};
      tracker.Update(session.value.(lastSeen := now));
      var claims, signals := CheckHeader(presented, uah, session.key, now, others);
      var fused := NoisyOrLoop(signals);
      var score := Round1(fused);
      var action := ActionFor(path, claims, score);
      d := Decision(action, score, claims);
    }
  }
}
