/**
 The study's database: its tables as sequences of rows in order of their row ids, the creation of sessions, and the
 withdrawal of a participant. Columns that no rule reads are one text, `rest`.
 */
module StudyDatabase {
  import opened Tables
  import opened Wrappers

  datatype Code = Code(code: Key, kind: string, botTool: Option<string>, rest: string)

  datatype Session = Session(id: Key, code: Key, sessionNo: nat, started: real, rest: string)

  datatype Survey = Survey(sessionId: Key, phase: string, answers: string)

  datatype TaskEvent = TaskEvent(sessionId: Key, task: string, event: string, at: real, detail: string)

  datatype Telemetry = Telemetry(id: nat, sessionId: Option<Key>, stream: Option<string>, received: real, rest: string)

  datatype Request = Request(sessionId: Option<Key>, at: real, rest: string)

  datatype RawBatch = RawBatch(sessionId: Key, pageView: string, seqNo: int, received: real, events: seq<string>)

  datatype Db = Db(codes: seq<Code>, sessions: seq<Session>, survey: seq<Survey>, tasks: seq<TaskEvent>,
                   telemetry: seq<Telemetry>, requests: seq<Request>, raw: seq<RawBatch>)

  // -- Keys ----------------------------------------------------------------------------------------

  predicate HasCode(db: Db, code: Key) {
    exists c | c in db.codes :: c.code == code
  }

  /** Primary keys are unique, session ids are not empty, and references lead somewhere; telemetry and requests hold no
      enforced reference. */
  ghost predicate Valid(db: Db) {
    && (forall i, j | 0 <= i < j < |db.sessions| :: db.sessions[i].id != db.sessions[j].id)
    && (forall s | s in db.sessions :: s.id != "")
    && References(db)
  }

  ghost predicate References(db: Db) {
    && (forall s | s in db.sessions :: HasCode(db, s.code))
    && (forall x | x in db.survey :: HasSession(db, x.sessionId))
    && (forall x | x in db.tasks :: HasSession(db, x.sessionId))
    && (forall x | x in db.raw :: HasSession(db, x.sessionId))
  }

  predicate HasSession(db: Db, id: Key) {
    exists s | s in db.sessions :: s.id == id
  }

  function IdsOf(sessions: seq<Session>, code: Key): set<Key> {
    set s | s in sessions && s.code == code :: s.id
  }

  function IdIfOf(code: Key): Session -> seq<Key> {
    (s: Session) => if s.code == code then [s.id] else []
  }

  function IdList(sessions: seq<Session>, code: Key): seq<Key> {
    FlatMap(sessions, IdIfOf(code))
  }

  function Outside<T>(ids: set<Key>, sid: T -> Option<Key>): T -> bool {
    (x: T) => sid(x).None? || sid(x).value !in ids
  }

  function SurveySid(x: Survey): Option<Key> { Some(x.sessionId) }

  function TaskSid(x: TaskEvent): Option<Key> { Some(x.sessionId) }

  function TelemetrySid(x: Telemetry): Option<Key> { x.sessionId }

  function RequestSid(x: Request): Option<Key> { x.sessionId }

  function RawSid(x: RawBatch): Option<Key> { Some(x.sessionId) }

  function OtherSessions(code: Key): Session -> bool {
    (s: Session) => s.code != code
  }

  function OtherCodes(code: Key): Code -> bool {
    (c: Code) => c.code != code
  }

  // -- Withdrawal ----------------------------------------------------------------------------------

  /** The database without a code, its sessions, and everything recorded in them. */
  function Withdrawn(db: Db, code: Key): Db {
    var ids := IdsOf(db.sessions, code);
    Db(Filter(db.codes, OtherCodes(code)), Filter(db.sessions, OtherSessions(code)),
       Filter(db.survey, Outside(ids, SurveySid)), Filter(db.tasks, Outside(ids, TaskSid)),
       Filter(db.telemetry, Outside(ids, TelemetrySid)), Filter(db.requests, Outside(ids, RequestSid)),
       Filter(db.raw, Outside(ids, RawSid)))
  }

  function RecordedRows(db: Db): nat {
    |db.raw| + |db.telemetry| + |db.requests| + |db.tasks| + |db.survey|
  }

  lemma {:induction false} FilterKeepsDistinct(sessions: seq<Session>, p: Session -> bool)
    requires forall i, j | 0 <= i < j < |sessions| :: sessions[i].id != sessions[j].id
    ensures
      var r := Filter(sessions, p);
      forall i, j | 0 <= i < j < |r| :: r[i].id != r[j].id
  {
    if sessions != [] {
      var front, last := sessions[..|sessions| - 1], sessions[|sessions| - 1];
      FilterKeepsDistinct(front, p);
      FilterLast(front, last, p);
      assert sessions == front + [last];
      var r := Filter(front, p);
      FilterElements(front, p);
      forall i | 0 <= i < |r| ensures r[i].id != last.id {
        assert r[i] in front;
        var k :| 0 <= k < |front| && front[k] == r[i];
        assert sessions[k].id != sessions[|sessions| - 1].id;
      }
    }
  }

  /** A session belongs to the code exactly if its id is one of the code's ids. */
  lemma SessionOfCode(db: Db, code: Key, s: Session)
    requires Valid(db) && s in db.sessions
    ensures s.code == code <==> s.id in IdsOf(db.sessions, code)
  {
    if s.id in IdsOf(db.sessions, code) {
      var t :| t in db.sessions && t.code == code && t.id == s.id;
      var i :| 0 <= i < |db.sessions| && db.sessions[i] == s;
      var j :| 0 <= j < |db.sessions| && db.sessions[j] == t;
      assert i == j;
    }
  }

  lemma KeptHasSession(db: Db, code: Key, id: Key)
    requires Valid(db) && HasSession(db, id) && id !in IdsOf(db.sessions, code)
    ensures HasSession(Withdrawn(db, code), id)
  {
    var s :| s in db.sessions && s.id == id;
    FilterElements(db.sessions, OtherSessions(code));
    assert s in Filter(db.sessions, OtherSessions(code));
  }

  lemma RowsKeepSession<T>(db: Db, code: Key, rows: seq<T>, sid: T -> Option<Key>)
    requires Valid(db) && forall x | x in rows :: sid(x).Some? && HasSession(db, sid(x).value)
    ensures
      var kept := Filter(rows, Outside(IdsOf(db.sessions, code), sid));
      forall x | x in kept :: sid(x).Some? && HasSession(Withdrawn(db, code), sid(x).value)
  {
    var ids := IdsOf(db.sessions, code);
    FilterElements(rows, Outside(ids, sid));
    forall x | x in Filter(rows, Outside(ids, sid))
      ensures sid(x).Some? && HasSession(Withdrawn(db, code), sid(x).value)
    {
      KeptHasSession(db, code, sid(x).value);
    }
  }

  /** Withdrawal leaves a valid database: no reference dangles. */
  lemma WithdrawKeepsValid(db: Db, code: Key)
    requires Valid(db)
    ensures Valid(Withdrawn(db, code))
  {
    hide Filter, Outside, IdsOf;
    var after := Withdrawn(db, code);
    FilterKeepsDistinct(db.sessions, OtherSessions(code));
    FilterElements(db.sessions, OtherSessions(code));
    FilterElements(db.codes, OtherCodes(code));
    FilterElements(db.survey, Outside(IdsOf(db.sessions, code), SurveySid));
    FilterElements(db.tasks, Outside(IdsOf(db.sessions, code), TaskSid));
    FilterElements(db.raw, Outside(IdsOf(db.sessions, code), RawSid));
    RowsKeepSession(db, code, db.survey, SurveySid);
    RowsKeepSession(db, code, db.tasks, TaskSid);
    RowsKeepSession(db, code, db.raw, RawSid);
    forall s | s in after.sessions ensures HasCode(after, s.code) {
      var c :| c in db.codes && c.code == s.code;
      assert c in after.codes;
    }
    assert forall x | x in after.survey :: HasSession(after, SurveySid(x).value);
    assert forall x | x in after.tasks :: HasSession(after, TaskSid(x).value);
    assert forall x | x in after.raw :: HasSession(after, RawSid(x).value);
  }

  ghost predicate NoneOf<T>(rows: seq<T>, ids: set<Key>, sid: T -> Option<Key>) {
    forall x | x in rows :: sid(x).None? || sid(x).value !in ids
  }

  lemma {:induction false} OutsideIsNoneOf<T>(rows: seq<T>, ids: set<Key>, sid: T -> Option<Key>)
    ensures NoneOf(Filter(rows, Outside(ids, sid)), ids, sid)
  {
    FilterElements(rows, Outside(ids, sid));
  }

  /** After withdrawal nothing of the participant is left in any table. */
  lemma NothingIsLeft(db: Db, code: Key)
    ensures
      var after := Withdrawn(db, code);
      var ids := IdsOf(db.sessions, code);
      && (forall c | c in after.codes :: c.code != code) && (forall s | s in after.sessions :: s.code != code)
      && NoneOf(after.survey, ids, SurveySid) && NoneOf(after.tasks, ids, TaskSid)
      && NoneOf(after.telemetry, ids, TelemetrySid) && NoneOf(after.requests, ids, RequestSid)
      && NoneOf(after.raw, ids, RawSid)
  {
    hide Filter, IdsOf, NoneOf;
    var ids := IdsOf(db.sessions, code);
    FilterElements(db.codes, OtherCodes(code));
    FilterElements(db.sessions, OtherSessions(code));
    OutsideIsNoneOf(db.survey, ids, SurveySid);
    OutsideIsNoneOf(db.tasks, ids, TaskSid);
    OutsideIsNoneOf(db.telemetry, ids, TelemetrySid);
    OutsideIsNoneOf(db.requests, ids, RequestSid);
    OutsideIsNoneOf(db.raw, ids, RawSid);
  }

  // -- Numbering of sessions -------------------------------------------------------------------------

  function OfCode(code: Key): Session -> bool {
    (s: Session) => s.code == code
  }

  function Created(db: Db, id: Key, code: Key, now: real, rest: string): Db {
    db.(sessions := db.sessions + [Session(id, code, |Filter(db.sessions, OfCode(code))| + 1, now, rest)])
  }

  /** A new session has the given id and code, starts now, and is one more of its code. */
  lemma CreatedTells(db: Db, id: Key, code: Key, now: real, rest: string)
    ensures
      var after := Created(db, id, code, now, rest);
      && after == db.(sessions := after.sessions) && |after.sessions| == |db.sessions| + 1
      && after.sessions[..|db.sessions|] == db.sessions
      && var s := after.sessions[|db.sessions|];
         && s.id == id && s.code == code && s.started == now && s.rest == rest
         && s.sessionNo == |Filter(after.sessions, OfCode(code))|
  {
    hide Filter;
    FilterLast(db.sessions, Session(id, code, |Filter(db.sessions, OfCode(code))| + 1, now, rest), OfCode(code));
  }

  /** The sessions of a code are numbered 1, 2, 3 and so on in the order they were made. */
  ghost predicate Numbered(sessions: seq<Session>) {
    forall code: Key, i | 0 <= i < |Filter(sessions, OfCode(code))| :: Filter(sessions, OfCode(code))[i].sessionNo == i + 1
  }

  lemma CreateKeepsNumbering(db: Db, id: Key, code: Key, now: real, rest: string)
    requires Numbered(db.sessions)
    ensures Numbered(Created(db, id, code, now, rest).sessions)
  {
    hide Filter;
    var s := Session(id, code, |Filter(db.sessions, OfCode(code))| + 1, now, rest);
    var after := Created(db, id, code, now, rest).sessions;
    forall other: Key, i | 0 <= i < |Filter(after, OfCode(other))|
      ensures Filter(after, OfCode(other))[i].sessionNo == i + 1
    {
      FilterLast(db.sessions, s, OfCode(other));
    }
  }

  lemma WithdrawKeepsNumbering(db: Db, code: Key)
    requires Numbered(db.sessions)
    ensures Numbered(Withdrawn(db, code).sessions)
  {
    hide Filter;
    var after := Withdrawn(db, code).sessions;
    forall other: Key, i | 0 <= i < |Filter(after, OfCode(other))|
      ensures Filter(after, OfCode(other))[i].sessionNo == i + 1
    {
      FilterElements(after, OfCode(other));
      FilterElements(db.sessions, OtherSessions(code));
      if other == code {
        FilterNothing(after, OfCode(other));
      } else {
        FilterTwice(db.sessions, OtherSessions(code), OfCode(other), OfCode(other));
      }
    }
  }

  lemma CreateKeepsValid(db: Db, id: Key, code: Key, now: real, rest: string)
    requires Valid(db) && id != "" && !HasSession(db, id) && HasCode(db, code)
    ensures Valid(Created(db, id, code, now, rest))
  {
    var after := Created(db, id, code, now, rest);
    forall s | s in after.sessions ensures s in db.sessions || s == after.sessions[|db.sessions|] {
    }
    forall k: Key | HasSession(db, k) ensures HasSession(after, k) {
      var s :| s in db.sessions && s.id == k;
      assert s in after.sessions;
    }
    forall i | 0 <= i < |db.sessions| ensures db.sessions[i].id != id {
      assert db.sessions[i] in db.sessions;
    }
  }

  // -- The database object -----------------------------------------------------------------------------

  /** `DELETE ... WHERE session_id = ?` for one id after the other, with the running count. */
  method DeleteSessions<T>(rows: seq<T>, sid: T -> Option<Key>, ids: seq<Key>) returns (kept: seq<T>, deleted: nat)
    ensures kept == Filter(rows, Outside((set k | k in ids), sid))
    ensures deleted == |rows| - |kept|
  {
    kept, deleted := rows, 0;
    ghost var done: set<Key> := {};
    FilterEverything(rows, Outside(done, sid));
    for i := 0 to |ids|
      invariant done == set k | k in ids[..i]
      invariant kept == Filter(rows, Outside(done, sid))
      invariant deleted == |rows| - |kept|
    {
      var rest := Filter(kept, Outside({ids[i]}, sid));
      FilterElements(kept, Outside({ids[i]}, sid));
      FilterTwice(rows, Outside(done, sid), Outside({ids[i]}, sid), Outside(done + {ids[i]}, sid));
      deleted := deleted + (|kept| - |rest|);
      kept := rest;
      done := done + {ids[i]};
    }
    assert ids[..|ids|] == ids;
  }

  lemma {:induction false} IdListIsIds(sessions: seq<Session>, code: Key)
    ensures (set k | k in IdList(sessions, code)) == IdsOf(sessions, code)
    ensures |IdList(sessions, code)| == |sessions| - |Filter(sessions, OtherSessions(code))|
  {
    hide Filter, IdList, IdsOf;
    NoIds(code);
    if sessions != [] {
      var front, last := sessions[..|sessions| - 1], sessions[|sessions| - 1];
      IdListIsIds(front, code);
      assert sessions == front + [last];
      IdsOfLast(front, last, code);
      IdListLast(front, last, code);
      FilterLast(front, last, OtherSessions(code));
    }
  }

  lemma NoIds(code: Key)
    ensures IdList([], code) == [] && IdsOf([], code) == {} && Filter([], OtherSessions(code)) == []
  {
  }

  lemma IdsOfLast(front: seq<Session>, last: Session, code: Key)
    ensures IdsOf(front + [last], code) == IdsOf(front, code) + if last.code == code then {last.id} else {}
  {
    var all := front + [last];
    forall id ensures id in IdsOf(all, code) <==> id in IdsOf(front, code) || (last.code == code && id == last.id) {
      if id in IdsOf(front, code) {
        var s :| s in front && s.code == code && s.id == id;
        assert s in all;
      }
      assert last in all;
    }
  }

  lemma IdListLast(front: seq<Session>, last: Session, code: Key)
    ensures IdList(front + [last], code) == IdList(front, code) + if last.code == code then [last.id] else []
  {
    assert (front + [last])[..|front|] == front;
  }

  class Database {
    var codes: seq<Code>
    var sessions: seq<Session>
    var survey: seq<Survey>
    var tasks: seq<TaskEvent>
    var telemetry: seq<Telemetry>
    var requests: seq<Request>
    var raw: seq<RawBatch>

    function Contents(): Db
      reads this
    {
      Db(codes, sessions, survey, tasks, telemetry, requests, raw)
    }

    constructor ()
      ensures Contents() == Db([], [], [], [], [], [], []) && Valid(Contents()) && Numbered(sessions)
    {
      codes, sessions, survey, tasks, telemetry, requests, raw := [], [], [], [], [], [], [];
    }

    /** The id is random. A missing code or a taken id is an integrity error, and nothing changes. */
    method CreateSession(id: Key, code: Key, now: real, rest: string) returns (ok: bool)
      requires Valid(Contents()) && Numbered(sessions) && id != ""
      modifies this`sessions
      ensures ok == (HasCode(old(Contents()), code) && !HasSession(old(Contents()), id))
      ensures Contents() == if ok then Created(old(Contents()), id, code, now, rest) else old(Contents())
      ensures Valid(Contents()) && Numbered(sessions)
    {
      ok := HasCode(Contents(), code) && !HasSession(Contents(), id);
      if ok {
        CreateKeepsNumbering(Contents(), id, code, now, rest);
        CreateKeepsValid(Contents(), id, code, now, rest);
        var count := |Filter(sessions, OfCode(code))|;
        sessions := sessions + [Session(id, code, count + 1, now, rest)];
      }
    }

    /** Everything of the code is gone, everything else is untouched, and the counts are what was deleted. */
    method Withdraw(code: Key) returns (deletedSessions: nat, deletedRows: nat)
      requires Valid(Contents()) && Numbered(sessions)
      modifies this
      ensures Contents() == Withdrawn(old(Contents()), code)
      ensures Valid(Contents()) && Numbered(sessions)
      ensures deletedSessions == |old(sessions)| - |sessions|
      ensures deletedRows == RecordedRows(old(Contents())) - RecordedRows(Contents())
    {
      WithdrawKeepsValid(Contents(), code);
      WithdrawKeepsNumbering(Contents(), code);
      hide Filter, Valid, Numbered, Outside, IdsOf;
      var ids := IdList(sessions, code);
      IdListIsIds(sessions, code);
      var n;
      deletedRows := 0;
      raw, n := DeleteSessions(raw, RawSid, ids);
      deletedRows := deletedRows + n;
      telemetry, n := DeleteSessions(telemetry, TelemetrySid, ids);
      deletedRows := deletedRows + n;
      requests, n := DeleteSessions(requests, RequestSid, ids);
      deletedRows := deletedRows + n;
      tasks, n := DeleteSessions(tasks, TaskSid, ids);
      deletedRows := deletedRows + n;
      survey, n := DeleteSessions(survey, SurveySid, ids);
      deletedRows := deletedRows + n;
      sessions := Filter(sessions, OtherSessions(code));
      codes := Filter(codes, OtherCodes(code));
      deletedSessions := |ids|;
    }
  }
}
