/**
 The in-memory session table of the Python middleware: least recently used first, with an age limit and a cap. Of a
 session only what the token protocol needs is modelled: when it was last seen and its latest telemetry score.
 */
module Sessions {
  import opened Wrappers
  import opened OrderedDict

  datatype Session = Session(lastSeen: real, telemetry: Option<real>)

  type Table = seq<Entry<Session>>

  datatype Limits = Limits(maxAge: real, maxSessions: int)

  function Cap(c: Limits): nat {
    if c.maxSessions < 1 then 1 else c.maxSessions
  }

  function Idle(maxAge: real, now: real): Session -> bool {
    (s: Session) => now - s.lastSeen > maxAge
  }

  /** `get_or_create`: the session of the request ends up last. An empty cookie is a missing one; `freshId` is the random
      id of a session that has to be made. */
  function Visit(c: Limits, d: Table, cookie: string, now: real, freshId: Key): (r: Table)
    ensures |r| > 0
  {
    var found := if cookie == "" then None else Find(d, cookie);
    if found.Some? && now - found.value.lastSeen <= c.maxAge then
      Remove(d, cookie) + [Entry(cookie, found.value)]
    else
      var rest := if found.Some? then Remove(d, cookie) else d;
      MakeRoom(rest, Idle(c.maxAge, now), Cap(c)) + [Entry(freshId, Session(now, None))]
  }

  function Current(d: Table): Entry<Session>
    requires |d| > 0
  {
    d[|d| - 1]
  }

  /** The fields of the current session change in place. */
  function Put(d: Table, s: Session): (r: Table)
    requires |d| > 0
    ensures |r| == |d|
  {
    d[..|d| - 1] + [Entry(Current(d).key, s)]
  }

  ghost predicate NoKey(d: Table, k: Key) {
    forall en | en in d :: en.key != k
  }

  /** What a visit does: it only forgets sessions, and the current one is either held already or new. */
  lemma VisitedKeys(c: Limits, d: Table, cookie: string, now: real, freshId: Key)
    ensures
      var r := Visit(c, d, cookie, now, freshId);
      && (forall en | en in r[..|r| - 1] :: en in d)
      && (Current(r) in d || Current(r) == Entry(freshId, Session(now, None)))
      && (NoKey(d, freshId) ==> NoKey(r[..|r| - 1], Current(r).key))
  {
    hide MakeRoom, Idle;
  }

  lemma {:induction false} RemoveForgets(d: Table, k: Key)
    ensures NoKey(Remove(d, k), k)
  {
  }

  lemma {:induction false} FindHeld(d: Table, k: Key, s: Session)
    requires Distinct(d) && Holds(d, k, s)
    ensures Find(d, k) == Some(s)
  {
    var i :| 0 <= i < |d| && d[i] == Entry(k, s);
    var j :| Find(d, k).Some? && 0 <= j < |d| && d[j] == Entry(k, Find(d, k).value);
    assert i == j;
  }

  /** A session within its age is continued as it is. An older one is not: its id and its telemetry are gone after the
      visit, and the request gets a new session. */
  lemma IdleIsNotContinued(c: Limits, d: Table, cookie: string, s: Session, now: real, freshId: Key)
    requires Distinct(d) && cookie != "" && Holds(d, cookie, s) && freshId != cookie
    ensures
      var r := Visit(c, d, cookie, now, freshId);
      if now <= s.lastSeen + c.maxAge then Current(r) == Entry(cookie, s)
      else Current(r) == Entry(freshId, Session(now, None)) && NoKey(r, cookie)
  {
    hide MakeRoom, Find, Remove, Idle;
    FindHeld(d, cookie, s);
    RemoveForgets(d, cookie);
  }

  /** So does a request without a cookie, or with one that is not known. */
  lemma UnknownIsNew(c: Limits, d: Table, cookie: string, now: real, freshId: Key)
    requires cookie == "" || NoKey(d, cookie)
    ensures Current(Visit(c, d, cookie, now, freshId)) == Entry(freshId, Session(now, None))
  {
    hide MakeRoom, Find, Remove, Idle;
  }

  // -- The order of the table --------------------------------------------------------------------------

  lemma {:induction false} RemoveAbsent(d: Table, k: Key)
    requires NoKey(d, k)
    ensures Remove(d, k) == d
  {
    if d != [] {
      assert d[0] in d;
      RemoveAbsent(d[1..], k);
    }
  }

  lemma AppendKeepsOrder(d: Table, k: Key, s: Session, room: Table, uses: seq<Key>)
    requires InUseOrder(d, uses)
    requires
      var rest := Remove(d, k);
      |room| <= |rest| && room == rest[|rest| - |room|..]
    ensures
      var r := room + [Entry(k, s)];
      InUseOrder(r, uses + [Current(r).key])
  {
    hide InUseOrder, Remove;
    ReinsertKeepsOrder(d, k, s, room, uses);
  }

  lemma FreshKeepsOrder(c: Limits, d: Table, now: real, freshId: Key, uses: seq<Key>)
    requires InUseOrder(d, uses) && NoKey(d, freshId)
    ensures
      var r := MakeRoom(d, Idle(c.maxAge, now), Cap(c)) + [Entry(freshId, Session(now, None))];
      InUseOrder(r, uses + [Current(r).key])
  {
    hide InUseOrder, Remove, MakeRoom;
    RemoveAbsent(d, freshId);
    AppendKeepsOrder(d, freshId, Session(now, None), MakeRoom(d, Idle(c.maxAge, now), Cap(c)), uses);
  }

  lemma VisitKeepsOrder(c: Limits, d: Table, cookie: string, now: real, freshId: Key, uses: seq<Key>)
    requires InUseOrder(d, uses) && NoKey(d, freshId)
    ensures
      var r := Visit(c, d, cookie, now, freshId);
      InUseOrder(r, uses + [Current(r).key])
  {
    hide InUseOrder, MakeRoom, Idle, OthersSince, Remove;
    var found := if cookie == "" then None else Find(d, cookie);
    if found.Some? && now - found.value.lastSeen <= c.maxAge {
      AppendKeepsOrder(d, cookie, found.value, Remove(d, cookie), uses);
    } else if found.Some? {
      RemoveKeepsOrder(d, cookie, uses);
      FreshKeepsOrder(c, Remove(d, cookie), now, freshId, uses);
    } else {
      FreshKeepsOrder(c, d, now, freshId, uses);
    }
  }

  lemma PutKeepsOrder(d: Table, s: Session, uses: seq<Key>)
    requires |d| > 0 && InUseOrder(d, uses)
    ensures InUseOrder(Put(d, s), uses)
  {
  }

  lemma {:induction false} RemoveShrinks(d: Table, k: Key, s: Session)
    requires Holds(d, k, s)
    ensures |Remove(d, k)| < |d|
  {
    if d[0].key != k {
      assert Entry(k, s) in d[1..];
      RemoveShrinks(d[1..], k, s);
    }
  }

  lemma VisitSize(c: Limits, d: Table, cookie: string, now: real, freshId: Key)
    requires |d| <= Cap(c)
    ensures |Visit(c, d, cookie, now, freshId)| <= Cap(c)
    ensures Cap(c) == if c.maxSessions <= 0 then 1 else c.maxSessions
  {
    hide MakeRoom, Idle;
    if cookie != "" && Find(d, cookie).Some? {
      RemoveShrinks(d, cookie, Find(d, cookie).value);
    }
  }

  // -- How long a session is remembered ------------------------------------------------------------------

  /** One request: it visits a session and may update it. */
  datatype Op = Op(cookie: string, now: real, freshId: Key, update: Option<Session>)

  function Apply(c: Limits, d: Table, op: Op): (r: Table)
    ensures |r| > 0
  {
    var visited := Visit(c, d, op.cookie, op.now, op.freshId);
    if op.update.None? then visited else Put(visited, op.update.value)
  }

  /** The table with the ids of the sessions used so far, in order. */
  datatype Tracked = Tracked(table: Table, uses: seq<Key>)

  ghost predicate Ordered(c: Limits, s: Tracked) {
    InUseOrder(s.table, s.uses) && |s.table| <= Cap(c)
  }

  function Next(c: Limits, s: Tracked, op: Op): Tracked {
    var after := Apply(c, s.table, op);
    Tracked(after, s.uses + [Current(after).key])
  }

  lemma NextStaysOrdered(c: Limits, s: Tracked, op: Op)
    requires Ordered(c, s) && NoKey(s.table, op.freshId)
    ensures Ordered(c, Next(c, s, op))
  {
    hide Visit, InUseOrder, NoKey;
    var visited := Visit(c, s.table, op.cookie, op.now, op.freshId);
    VisitKeepsOrder(c, s.table, op.cookie, op.now, op.freshId, s.uses);
    VisitSize(c, s.table, op.cookie, op.now, op.freshId);
    if op.update.Some? {
      PutKeepsOrder(visited, op.update.value, s.uses + [Current(visited).key]);
    }
  }

  /** A request of another session keeps a session that is not idle, unless it completes as many other sessions used
      since as the table can hold. */
  lemma {:induction false} StepKeeps(c: Limits, s: Tracked, op: Op, id: Key, session: Session)
    requires Ordered(c, s) && Holds(s.table, id, session) && op.now - session.lastSeen <= c.maxAge
    requires NoKey(s.table, op.freshId) && Current(Apply(c, s.table, op)).key != id
    requires |OthersSince(Next(c, s, op).uses, id)| < Cap(c)
    ensures Holds(Apply(c, s.table, op), id, session)
  {
    hide Visit, InUseOrder, NoKey, OthersSince;
    var visited := Visit(c, s.table, op.cookie, op.now, op.freshId);
    assert Current(Apply(c, s.table, op)).key == Current(visited).key;
    VisitKeeps(c, s.table, op.cookie, op.now, op.freshId, s.uses, id, session);
    var front := visited[..|visited| - 1];
    var i :| 0 <= i < |front| && front[i] == Entry(id, session);
    assert Apply(c, s.table, op)[i] == Entry(id, session);
  }

  lemma OneEntry(d: Table, id: Key, s: Session, t: Session, uses: seq<Key>)
    requires InUseOrder(d, uses) && Holds(d, id, s) && Holds(d, id, t)
    ensures s == t
  {
    hide OthersSince;
    InUseOrderIsDistinct(d, uses);
    var i :| 0 <= i < |d| && d[i] == Entry(id, s);
    var j :| 0 <= j < |d| && d[j] == Entry(id, t);
    assert i == j;
  }

  lemma VisitKeeps(c: Limits, d: Table, cookie: string, now: real, freshId: Key, uses: seq<Key>, id: Key, s: Session)
    requires InUseOrder(d, uses) && Holds(d, id, s) && now - s.lastSeen <= c.maxAge && NoKey(d, freshId)
    requires Current(Visit(c, d, cookie, now, freshId)).key != id
    requires |OthersSince(uses + [Current(Visit(c, d, cookie, now, freshId)).key], id)| < Cap(c)
    ensures Entry(id, s) in Visit(c, d, cookie, now, freshId)[..|Visit(c, d, cookie, now, freshId)| - 1]
  {
    hide InUseOrder, MakeRoom, OthersSince;
    var found := if cookie == "" then None else Find(d, cookie);
    if !(found.Some? && now - found.value.lastSeen <= c.maxAge) {
      var rest := if found.Some? then Remove(d, cookie) else d;
      if found.Some? {
        RemoveKeepsOrder(d, cookie, uses);
        if cookie == id {
          OneEntry(d, id, s, found.value, uses);
        }
      }
      RemoveAbsent(rest, freshId);
      SurvivesRoom(rest, id, s, freshId, Idle(c.maxAge, now), Cap(c), uses);
    }
  }

  /** A run of requests of other sessions, all before the session goes idle and fewer sessions than the table holds. */
  ghost predicate Elsewhere(c: Limits, s: Tracked, run: seq<Op>, id: Key, session: Session)
    decreases |run|
  {
    run != [] ==>
      var after := Next(c, s, run[0]);
      && NoKey(s.table, run[0].freshId) && run[0].now - session.lastSeen <= c.maxAge
      && Current(after.table).key != id && |OthersSince(after.uses, id)| < Cap(c)
      && Elsewhere(c, after, run[1..], id, session)
  }

  function AfterAll(c: Limits, s: Tracked, run: seq<Op>): Tracked
    decreases |run|
  {
    if run == [] then s else AfterAll(c, Next(c, s, run[0]), run[1..])
  }

  /** A session is remembered, telemetry and all, as long as it does not idle and fewer other sessions than the table
      holds were used since its own last request. */
  lemma {:induction false} SessionsAreRemembered(c: Limits, s: Tracked, run: seq<Op>, id: Key, session: Session)
    requires Ordered(c, s) && Holds(s.table, id, session) && Elsewhere(c, s, run, id, session)
    ensures Holds(AfterAll(c, s, run).table, id, session) && Ordered(c, AfterAll(c, s, run))
    decreases |run|
  {
    hide Apply, Ordered, OthersSince, NoKey;
    if run != [] {
      StepKeeps(c, s, run[0], id, session);
      NextStaysOrdered(c, s, run[0]);
      SessionsAreRemembered(c, Next(c, s, run[0]), run[1..], id, session);
    }
  }

  class SessionTracker {
    const limits: Limits
    var sessions: Table

    constructor (limits: Limits)
      ensures this.limits == limits && sessions == []
    {
      this.limits := limits;
      sessions := [];
    }

    method GetOrCreate(cookie: string, now: real, freshId: Key) returns (current: Entry<Session>)
      modifies this
      ensures sessions == Visit(limits, old(sessions), cookie, now, freshId)
      ensures current == Current(sessions)
    {
      hide MakeRoom, DropExpired, DropOldest, Remove;
      var session := if cookie == "" then None else Find(sessions, cookie);
      if session.Some? && now - session.value.lastSeen <= limits.maxAge {
        current := Entry(cookie, session.value);
        sessions := Remove(sessions, cookie) + [current];
        return;
      }
      if session.Some? {
        sessions := Remove(sessions, cookie);
      }
      sessions := MakeRoomFor(sessions, Idle(limits.maxAge, now), Cap(limits));
      current := Entry(freshId, Session(now, None));
      sessions := sessions + [current];
    }

    method Update(session: Session)
      requires |sessions| > 0
      modifies this
      ensures sessions == Put(old(sessions), session)
    {
      sessions := sessions[..|sessions| - 1] + [Entry(sessions[|sessions| - 1].key, session)];
    }
  }
}
