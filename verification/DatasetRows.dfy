/**
 What the rows of the exported dataset say, column by column: each row belongs to one stored row and to one session, and
 carries the kind and the participant of that session's own code and times since that session's own start.
 */
module DatasetRows {
  import opened Sorting
  import opened StudyDatabase
  import opened StudyDataset
  import opened Tables
  import opened Wrappers

  /** The session's id is looked up to what its own code and its own start say. */
  ghost predicate Describes(db: Db, pid: Key -> string, m: Meta, s: Session) {
    && m.participant == pid(s.code) && m.started == s.started
    && exists c | c in db.codes :: c.code == s.code && c.kind == m.kind && c.botTool == m.botTool
  }

  ghost predicate OfSession(db: Db, id: Option<Key>, s: Session) {
    s in db.sessions && id == Some(s.id)
  }

  // -- Lookups -------------------------------------------------------------------------------------

  lemma {:induction false} CodeMapTells(codes: seq<Code>, k: Key)
    ensures k in CodeMap(codes) <==> exists c | c in codes :: c.code == k
    ensures k in CodeMap(codes) ==> CodeMap(codes)[k] in codes && CodeMap(codes)[k].code == k
  {
    if codes != [] {
      CodeMapTells(codes[..|codes| - 1], k);
      assert codes == codes[..|codes| - 1] + [codes[|codes| - 1]];
    }
  }

  lemma MetaDescribes(db: Db, pid: Key -> string, s: Session)
    requires Valid(db) && s in db.sessions
    ensures Describes(db, pid, MetaOf(CodeMap(db.codes), pid, s), s)
  {
    hide CodeMap;
    CodeMapTells(db.codes, s.code);
    assert HasCode(db, s.code);
  }

  lemma {:induction false} MetasTell(codes: map<Key, Code>, pid: Key -> string, sessions: seq<Session>, id: Key)
    ensures id in Metas(codes, pid, sessions) <==> exists s | s in sessions :: s.id == id
    ensures id in Metas(codes, pid, sessions) ==>
              exists s | s in sessions :: s.id == id && Metas(codes, pid, sessions)[id] == MetaOf(codes, pid, s)
  {
    hide MetaOf;
    if sessions != [] {
      var front, last := sessions[..|sessions| - 1], sessions[|sessions| - 1];
      MetasTell(codes, pid, front, id);
      assert sessions == front + [last];
    }
  }

  /** The lookup that the export uses. */
  ghost function ExportMetas(db: Db, pid: Key -> string): map<Key, Meta> {
    Metas(CodeMap(db.codes), pid, SortBy(db.sessions, ByStarted))
  }

  lemma ExportMetasTell(db: Db, pid: Key -> string, id: Key)
    requires Valid(db)
    ensures id in ExportMetas(db, pid) <==> HasSession(db, id)
    ensures id in ExportMetas(db, pid) ==>
              exists s :: OfSession(db, Some(id), s) && Describes(db, pid, ExportMetas(db, pid)[id], s)
  {
    hide Metas, CodeMap, SortBy, Describes, IsOrder;
    var codes, sessions := CodeMap(db.codes), SortBy(db.sessions, ByStarted);
    OrdersAreOrders();
    SortProperties(db.sessions, ByStarted);
    forall s ensures s in sessions <==> s in db.sessions {
      assert s in sessions <==> s in multiset(sessions);
    }
    MetasTell(codes, pid, sessions, id);
    if id in ExportMetas(db, pid) {
      var s :| s in sessions && s.id == id && ExportMetas(db, pid)[id] == MetaOf(codes, pid, s);
      MetaDescribes(db, pid, s);
      assert OfSession(db, Some(id), s);
    }
  }

  ghost function ExportSessionRows(db: Db, pid: Key -> string): Session -> seq<SessionOut> {
    SessionRows(CodeMap(db.codes), pid, Answers(db.survey), Group(db.tasks, TaskKey))
  }

  ghost function ExportTaskRows(db: Db, pid: Key -> string): Session -> seq<TaskOut> {
    TaskRows(CodeMap(db.codes), pid, Group(db.tasks, TaskKey))
  }

  /** How the columns of the dataset are made. */
  lemma ExportIs(db: Db, pid: Key -> string)
    ensures
      var d, metas := Export(db, pid), ExportMetas(db, pid);
      && d.sessions == FlatMap(SortBy(db.sessions, ByStarted), ExportSessionRows(db, pid))
      && d.tasks == FlatMap(SortBy(db.sessions, ByStarted), ExportTaskRows(db, pid))
      && d.telemetry == MarkFinal(FlatMap(db.telemetry, TelemetryRows(metas)))
      && d.labelled == FlatMap(db.requests, LabelledRows(metas))
      && d.unlabelled == FlatMap(db.requests, UnlabelledRows(metas))
      && d.raw == RawFiles(metas, Group(SortBy(db.raw, ByPage), RawKey))
  {
    hide Metas, CodeMap, SortBy, FlatMap, MarkFinal, RawFiles, Group, SessionRows, TaskRows, Answers;
  }

  predicate Known(db: Db, id: Option<Key>) {
    id.Some? && HasSession(db, id.value)
  }

  // -- Telemetry -----------------------------------------------------------------------------------

  function KnownTelemetry(db: Db): Telemetry -> bool {
    (x: Telemetry) => Known(db, x.sessionId)
  }

  ghost predicate TelemetryFits(db: Db, pid: Key -> string, x: Telemetry, r: TelemetryOut) {
    && r.id == x.id && r.stream == x.stream && r.rest == x.rest && x.sessionId == Some(r.sessionId)
    && exists s :: OfSession(db, x.sessionId, s) && Describes(db, pid, r.meta, s) && r.t == x.received - s.started
  }

  lemma OneTelemetryFits(db: Db, pid: Key -> string, x: Telemetry)
    requires Valid(db)
    ensures
      var rows := TelemetryRows(ExportMetas(db, pid))(x);
      if Known(db, x.sessionId) then |rows| == 1 && TelemetryFits(db, pid, x, rows[0]) else rows == []
  {
    hide ExportMetas, OfSession, Valid;
    if x.sessionId.Some? {
      ExportMetasTell(db, pid, x.sessionId.value);
    }
  }

  lemma TelemetryAligns(db: Db, pid: Key -> string, plain: seq<TelemetryOut>)
    requires Valid(db) && plain == FlatMap(db.telemetry, TelemetryRows(ExportMetas(db, pid)))
    ensures
      var stored := Filter(db.telemetry, KnownTelemetry(db));
      |plain| == |stored| && forall i | 0 <= i < |plain| :: TelemetryFits(db, pid, stored[i], plain[i])
  {
    hide ExportMetas, Filter, FlatMap, Valid, TelemetryRows, TelemetryFits;
    var f, p := TelemetryRows(ExportMetas(db, pid)), KnownTelemetry(db);
    forall x | x in db.telemetry ensures |f(x)| == if p(x) then 1 else 0 {
      OneTelemetryFits(db, pid, x);
    }
    FlatMapAligns(db.telemetry, f, p);
    var stored := Filter(db.telemetry, p);
    FilterElements(db.telemetry, p);
    forall i | 0 <= i < |stored| ensures TelemetryFits(db, pid, stored[i], plain[i]) {
      OneTelemetryFits(db, pid, stored[i]);
      assert stored[i] in stored;
    }
  }

  lemma MarkingFits(db: Db, pid: Key -> string, x: Telemetry, r: TelemetryOut, mark: bool)
    requires TelemetryFits(db, pid, x, r)
    ensures TelemetryFits(db, pid, x, r.(isFinal := mark))
  {
    hide Describes, OfSession;
  }

  /** The telemetry rows are, in order, those of the stored reports that belong to a session, each with its own columns. */
  lemma TelemetryTells(db: Db, pid: Key -> string)
    requires Valid(db)
    ensures
      var rows, stored := Export(db, pid).telemetry, Filter(db.telemetry, KnownTelemetry(db));
      |rows| == |stored| && forall i | 0 <= i < |rows| :: TelemetryFits(db, pid, stored[i], rows[i])
  {
    ExportIs(db, pid);
    hide *;
    var plain := FlatMap(db.telemetry, TelemetryRows(ExportMetas(db, pid)));
    TelemetryAligns(db, pid, plain);
    var stored := Filter(db.telemetry, KnownTelemetry(db));
    forall i | 0 <= i < |stored| ensures TelemetryFits(db, pid, stored[i], MarkFinal(plain)[i]) {
      MarkFinalAt(plain, i);
      MarkingFits(db, pid, stored[i], plain[i], MarkFinal(plain)[i].isFinal);
    }
  }

  // -- Requests ------------------------------------------------------------------------------------

  function KnownRequest(db: Db): Request -> bool {
    (x: Request) => Known(db, x.sessionId)
  }

  function UnknownRequest(db: Db): Request -> bool {
    (x: Request) => !Known(db, x.sessionId)
  }

  ghost predicate RequestFits(db: Db, pid: Key -> string, x: Request, r: LabelledOut) {
    && r.rest == x.rest && x.sessionId == Some(r.sessionId)
    && exists s, m :: OfSession(db, x.sessionId, s) && Describes(db, pid, m, s)
                      && r.participant == m.participant && r.kind == m.kind && r.t == x.at - s.started
  }

  lemma OneRequestFits(db: Db, pid: Key -> string, x: Request)
    requires Valid(db)
    ensures
      var rows, others := LabelledRows(ExportMetas(db, pid))(x), UnlabelledRows(ExportMetas(db, pid))(x);
      if Known(db, x.sessionId) then |rows| == 1 && RequestFits(db, pid, x, rows[0]) && others == []
      else rows == [] && others == [UnlabelledOut(x.at, x.rest)]
  {
    hide ExportMetas, OfSession;
    if x.sessionId.Some? {
      ExportMetasTell(db, pid, x.sessionId.value);
      if HasSession(db, x.sessionId.value) {
        var s :| s in db.sessions && s.id == x.sessionId.value;
        assert s.id != "";
      }
    }
  }

  lemma LabelledAligns(db: Db, pid: Key -> string, rows: seq<LabelledOut>)
    requires Valid(db) && rows == FlatMap(db.requests, LabelledRows(ExportMetas(db, pid)))
    ensures
      var stored := Filter(db.requests, KnownRequest(db));
      |rows| == |stored| && forall i | 0 <= i < |rows| :: RequestFits(db, pid, stored[i], rows[i])
  {
    hide ExportMetas, Filter, FlatMap, Valid, LabelledRows, UnlabelledRows, RequestFits;
    var f, p := LabelledRows(ExportMetas(db, pid)), KnownRequest(db);
    forall x | x in db.requests ensures |f(x)| == if p(x) then 1 else 0 {
      OneRequestFits(db, pid, x);
    }
    FlatMapAligns(db.requests, f, p);
    var stored := Filter(db.requests, p);
    FilterElements(db.requests, p);
    forall i | 0 <= i < |stored| ensures RequestFits(db, pid, stored[i], rows[i]) {
      OneRequestFits(db, pid, stored[i]);
      assert stored[i] in stored;
    }
  }

  lemma UnlabelledAligns(db: Db, pid: Key -> string, rows: seq<UnlabelledOut>)
    requires Valid(db) && rows == FlatMap(db.requests, UnlabelledRows(ExportMetas(db, pid)))
    ensures
      var stored := Filter(db.requests, UnknownRequest(db));
      |rows| == |stored| && forall i | 0 <= i < |rows| :: rows[i] == UnlabelledOut(stored[i].at, stored[i].rest)
  {
    hide ExportMetas, Filter, FlatMap, Valid, LabelledRows, UnlabelledRows, RequestFits;
    var f, p := UnlabelledRows(ExportMetas(db, pid)), UnknownRequest(db);
    forall x | x in db.requests ensures |f(x)| == if p(x) then 1 else 0 {
      OneRequestFits(db, pid, x);
    }
    FlatMapAligns(db.requests, f, p);
    var stored := Filter(db.requests, p);
    FilterElements(db.requests, p);
    forall i | 0 <= i < |stored| ensures rows[i] == UnlabelledOut(stored[i].at, stored[i].rest) {
      OneRequestFits(db, pid, stored[i]);
      assert stored[i] in stored;
    }
  }

  /** A request is labelled exactly if it belongs to a session, and the labelled and the unlabelled ones keep their order. */
  lemma RequestsTell(db: Db, pid: Key -> string)
    requires Valid(db)
    ensures
      var rows, stored := Export(db, pid).labelled, Filter(db.requests, KnownRequest(db));
      |rows| == |stored| && forall i | 0 <= i < |rows| :: RequestFits(db, pid, stored[i], rows[i])
    ensures
      var rows, stored := Export(db, pid).unlabelled, Filter(db.requests, UnknownRequest(db));
      |rows| == |stored| && forall i | 0 <= i < |rows| :: rows[i] == UnlabelledOut(stored[i].at, stored[i].rest)
  {
    ExportIs(db, pid);
    hide *;
    LabelledAligns(db, pid, Export(db, pid).labelled);
    UnlabelledAligns(db, pid, Export(db, pid).unlabelled);
  }

  // -- Sessions ------------------------------------------------------------------------------------

  /** The text is the last one stored for this session and phase. */
  ghost predicate LastAnswer(survey: seq<Survey>, sid: Key, phase: string, text: string) {
    exists i | 0 <= i < |survey| :: survey[i] == Survey(sid, phase, text)
                                    && forall j | i < j < |survey| :: survey[j].sessionId != sid || survey[j].phase != phase
  }

  ghost predicate AnswersFit(survey: seq<Survey>, sid: Key, answers: map<string, string>) {
    forall phase, text :: phase in answers && answers[phase] == text <==> LastAnswer(survey, sid, phase, text)
  }

  lemma {:induction false} AnswersTell(survey: seq<Survey>, sid: Key)
    ensures AnswersFit(survey, sid, GetOr(Answers(survey), sid, map[]))
  {
    hide LastAnswer, Answers;
    if survey == [] {
      NoAnswers(sid);
    } else {
      var front, last := survey[..|survey| - 1], survey[|survey| - 1];
      AnswersTell(front, sid);
      assert survey == front + [last];
      AnswersLast(front, last, sid);
      forall phase, text {
        LastAnswerNext(front, last, sid, phase, text);
      }
    }
  }

  lemma NoAnswers(sid: Key)
    ensures AnswersFit([], sid, GetOr(Answers([]), sid, map[]))
  {
  }

  lemma LastAnswerNext(front: seq<Survey>, last: Survey, sid: Key, phase: string, text: string)
    ensures LastAnswer(front + [last], sid, phase, text) <==>
            if last.sessionId == sid && last.phase == phase then last.answers == text
            else LastAnswer(front, sid, phase, text)
  {
    var all := front + [last];
    assert all[|front|] == last;
    if LastAnswer(front, sid, phase, text) {
      var i :| 0 <= i < |front| && front[i] == Survey(sid, phase, text)
               && forall j | i < j < |front| :: front[j].sessionId != sid || front[j].phase != phase;
      assert all[i] == front[i];
    }
    if LastAnswer(all, sid, phase, text) {
      var i :| 0 <= i < |all| && all[i] == Survey(sid, phase, text)
               && forall j | i < j < |all| :: all[j].sessionId != sid || all[j].phase != phase;
      if i < |front| {
        assert front[i] == all[i];
        assert forall j | i < j < |front| :: front[j] == all[j];
      }
    }
  }

  ghost predicate SessionFits(db: Db, pid: Key -> string, s: Session, r: SessionOut) {
    && r.session == s && Describes(db, pid, r.meta, s)
    && r.code.Some? && r.code.value in db.codes && r.code.value.code == s.code
    && AnswersFit(db.survey, s.id, r.answers) && r.events == Filter(db.tasks, WithKey(TaskKey, s.id))
  }

  lemma OneSessionFits(db: Db, pid: Key -> string, s: Session)
    requires Valid(db) && s in db.sessions
    ensures
      var rows := ExportSessionRows(db, pid)(s);
      |rows| == 1 && SessionFits(db, pid, s, rows[0])
  {
    hide CodeMap, Answers, Group, Filter, AnswersFit, Describes;
    MetaDescribes(db, pid, s);
    CodeMapTells(db.codes, s.code);
    assert HasCode(db, s.code);
    AnswersTell(db.survey, s.id);
    GroupIsFilter(db.tasks, TaskKey, s.id);
  }

  ghost predicate InOrderOfStart(sessions: seq<Session>) {
    forall i, j | 0 <= i < j < |sessions| :: sessions[i].started <= sessions[j].started
  }

  lemma SortedSessions(db: Db)
    ensures
      var sorted := SortBy(db.sessions, ByStarted);
      multiset(sorted) == multiset(db.sessions) && InOrderOfStart(sorted) && forall s | s in sorted :: s in db.sessions
  {
    hide SortBy, IsOrder, ByPage;
    OrdersAreOrders();
    SortProperties(db.sessions, ByStarted);
    var sorted := SortBy(db.sessions, ByStarted);
    forall s | s in sorted ensures s in db.sessions {
      assert s in multiset(sorted);
    }
  }

  /** Each stored session has one row, in order of their starts, with its own code, answers and task events. */
  lemma SessionsTell(db: Db, pid: Key -> string)
    requires Valid(db)
    ensures
      var rows, sorted := Export(db, pid).sessions, SortBy(db.sessions, ByStarted);
      && multiset(sorted) == multiset(db.sessions) && InOrderOfStart(sorted)
      && |rows| == |sorted| && forall i | 0 <= i < |rows| :: SessionFits(db, pid, sorted[i], rows[i])
  {
    ExportIs(db, pid);
    SortedSessions(db);
    hide *;
    var sorted, f := SortBy(db.sessions, ByStarted), ExportSessionRows(db, pid);
    forall s | s in sorted ensures |f(s)| == if Always<Session>()(s) then 1 else 0 {
      OneSessionFits(db, pid, s);
      IsAlways(s);
    }
    FlatMapAligns(sorted, f, Always());
    EverySession(sorted);
    forall i | 0 <= i < |sorted| ensures SessionFits(db, pid, sorted[i], FlatMap(sorted, f)[i]) {
      assert sorted[i] in sorted;
      OneSessionFits(db, pid, sorted[i]);
    }
  }

  lemma IsAlways<T>(x: T)
    ensures Always()(x)
  {
  }

  lemma EverySession(sorted: seq<Session>)
    ensures Filter(sorted, Always()) == sorted
  {
    FilterEverything(sorted, Always());
  }

  // -- Task events ---------------------------------------------------------------------------------

  function RowOf(sid: Key): TaskOut -> bool {
    (r: TaskOut) => r.sessionId == sid
  }

  ghost predicate TaskFits(db: Db, pid: Key -> string, s: Session, e: TaskEvent, r: TaskOut) {
    && r.sessionId == s.id == e.sessionId && r.task == e.task && r.event == e.event && r.detail == e.detail
    && r.t == e.at - s.started
    && exists m :: Describes(db, pid, m, s) && r.participant == m.participant && r.kind == m.kind
  }

  lemma OneTaskFits(db: Db, pid: Key -> string, s: Session, e: TaskEvent)
    requires Valid(db) && s in db.sessions && e.sessionId == s.id
    ensures
      var rows := TaskRow(s, MetaOf(CodeMap(db.codes), pid, s))(e);
      |rows| == 1 && TaskFits(db, pid, s, e, rows[0])
  {
    hide CodeMap, Describes, MetaOf;
    MetaDescribes(db, pid, s);
  }

  lemma TasksOfSession(db: Db, pid: Key -> string, s: Session)
    requires Valid(db) && s in db.sessions
    ensures
      var rows, stored := ExportTaskRows(db, pid)(s), Filter(db.tasks, WithKey(TaskKey, s.id));
      |rows| == |stored| && forall i | 0 <= i < |rows| :: TaskFits(db, pid, s, stored[i], rows[i])
    ensures forall r | r in ExportTaskRows(db, pid)(s) :: r.sessionId == s.id
  {
    hide Filter, FlatMap, Group, CodeMap, Valid, MetaOf, TaskRow, TaskFits;
    var stored, f := Filter(db.tasks, WithKey(TaskKey, s.id)), TaskRow(s, MetaOf(CodeMap(db.codes), pid, s));
    GroupIsFilter(db.tasks, TaskKey, s.id);
    FilterElements(db.tasks, WithKey(TaskKey, s.id));
    TaskRowsOfSession(CodeMap(db.codes), pid, Group(db.tasks, TaskKey), s);
    var key := TaskKey;
    forall e | e in stored ensures e.sessionId == s.id && |f(e)| == if Always<TaskEvent>()(e) then 1 else 0 {
      assert key(e) == e.sessionId;
      OneTaskFits(db, pid, s, e);
    }
    FlatMapAligns(stored, f, Always());
    FilterEverything(stored, Always());
    forall i | 0 <= i < |stored| ensures TaskFits(db, pid, s, stored[i], FlatMap(stored, f)[i]) {
      assert stored[i] in stored;
      OneTaskFits(db, pid, s, stored[i]);
    }
  }

  /** The task rows of a session are its stored task events, in order, each with its own columns. */
  lemma TasksTell(db: Db, pid: Key -> string, s: Session)
    requires Valid(db) && s in db.sessions
    ensures
      var rows, stored := Filter(Export(db, pid).tasks, RowOf(s.id)), Filter(db.tasks, WithKey(TaskKey, s.id));
      |rows| == |stored| && forall i | 0 <= i < |rows| :: TaskFits(db, pid, s, stored[i], rows[i])
  {
    ExportIs(db, pid);
    SortedSessions(db);
    hide Export, SortBy, ExportTaskRows, Filter, FlatMap, InOrderOfStart, References, TaskFits;
    var sorted, f := SortBy(db.sessions, ByStarted), ExportTaskRows(db, pid);
    assert s in multiset(sorted);
    var k :| 0 <= k < |sorted| && sorted[k] == s;
    DistinctAfterSorting(db.sessions, sorted);
    forall i | 0 <= i < |sorted| ensures forall r | r in f(sorted[i]) :: r.sessionId == sorted[i].id {
      assert sorted[i] in sorted;
      TasksOfSession(db, pid, sorted[i]);
    }
    FilterFindsOne(sorted, f, RowOf(s.id), k);
    TasksOfSession(db, pid, s);
  }

  lemma DistinctAfterSorting(sessions: seq<Session>, sorted: seq<Session>)
    requires multiset(sorted) == multiset(sessions)
    requires forall i, j | 0 <= i < j < |sessions| :: sessions[i].id != sessions[j].id
    ensures forall i, j | 0 <= i < j < |sorted| :: sorted[i].id != sorted[j].id
  {
    forall i, j | 0 <= i < j < |sorted| ensures sorted[i].id != sorted[j].id {
      var a, b := sorted[i], sorted[j];
      if a.id == b.id {
        assert a in multiset(sorted) && b in multiset(sorted);
        assert a in sessions && b in sessions;
        var m :| 0 <= m < |sessions| && sessions[m] == a;
        var n :| 0 <= n < |sessions| && sessions[n] == b;
        assert m == n && a == b;
        TwiceCounts(sorted, i, j);
        OnceCounts(sessions, m);
        assert false;
      }
    }
  }

  lemma TwiceCounts<T>(s: seq<T>, i: nat, j: nat)
    requires i < j < |s| && s[i] == s[j]
    ensures multiset(s)[s[i]] >= 2
  {
    assert s == s[..i] + [s[i]] + s[i + 1..j] + [s[j]] + s[j + 1..];
  }

  lemma OnceCounts<T>(s: seq<T>, m: nat)
    requires m < |s| && forall n | 0 <= n < |s| && n != m :: s[n] != s[m]
    ensures multiset(s)[s[m]] == 1
  {
    assert s == s[..m] + [s[m]] + s[m + 1..];
    assert s[m] !in s[..m] && s[m] !in s[m + 1..];
  }

  // -- Raw events ----------------------------------------------------------------------------------

  /** a and b first differ at k, where a has the smaller character. */
  ghost predicate DifferAt(a: string, b: string, k: nat) {
    k < |a| && k < |b| && a[..k] == b[..k] && a[k] < b[k]
  }

  lemma DifferInRest(a: string, b: string, k: nat)
    requires a != "" && b != "" && a[0] == b[0]
    ensures DifferAt(a, b, k + 1) <==> DifferAt(a[1..], b[1..], k)
    ensures !DifferAt(a, b, 0)
  {
    if k < |a| - 1 && k < |b| - 1 {
      assert a[..k + 1] == [a[0]] + a[1..][..k] && b[..k + 1] == [b[0]] + b[1..][..k];
      assert a[1..][..k] == a[..k + 1][1..] && b[1..][..k] == b[..k + 1][1..];
    }
  }

  lemma FirstNotGreater(a: string, b: string, k: nat)
    requires DifferAt(a, b, k)
    ensures a[0] <= b[0]
  {
    assert k > 0 ==> a[..k][0] == a[0] && b[..k][0] == b[0];
  }

  /** Texts are ordered by their first difference, and a text comes before its continuations. */
  lemma {:induction false} TextOrderIsLexicographic(a: string, b: string)
    ensures TextLe(a, b) <==> a <= b || exists k: nat :: DifferAt(a, b, k)
  {
    if a != "" && b != "" {
      forall k: nat | DifferAt(a, b, k) ensures a[0] <= b[0] {
        FirstNotGreater(a, b, k);
      }
      if a[0] == b[0] {
        var c, d := a[1..], b[1..];
        TextOrderIsLexicographic(c, d);
        assert a == [a[0]] + c && b == [b[0]] + d;
        if k: nat :| DifferAt(c, d, k) {
          DifferInRest(a, b, k);
        }
        if k: nat :| DifferAt(a, b, k) {
          DifferInRest(a, b, if k > 0 then k - 1 else 0);
        }
      } else if a[0] < b[0] {
        assert DifferAt(a, b, 0);
      }
    }
  }

  ghost predicate InOrderOfPages(rows: seq<RawOut>) {
    forall i, j | 0 <= i < j < |rows| ::
      TextLe(rows[i].pageView, rows[j].pageView) && (rows[i].pageView == rows[j].pageView ==> rows[i].seqNo <= rows[j].seqNo)
  }

  ghost predicate RawFits(b: RawBatch, s: Session, r: RawOut) {
    r == RawOut(b.pageView, b.seqNo, b.received - s.started, b.events)
  }

  /** The stored batches of a session, ordered by page view and number. */
  ghost function BatchesOf(db: Db, sid: Key): seq<RawBatch> {
    SortBy(Filter(db.raw, WithKey(RawKey, sid)), ByPage)
  }

  lemma BatchesAreSorted(db: Db, sid: Key)
    ensures
      var batches := BatchesOf(db, sid);
      && multiset(batches) == multiset(Filter(db.raw, WithKey(RawKey, sid)))
      && Filter(SortBy(db.raw, ByPage), WithKey(RawKey, sid)) == batches
      && (forall b | b in batches :: b.sessionId == sid)
      && forall i, j | 0 <= i < j < |batches| :: ByPage(batches[i], batches[j])
  {
    hide Filter, SortBy, IsOrder, ByPage;
    OrdersAreOrders();
    var kept := Filter(db.raw, WithKey(RawKey, sid));
    SortProperties(kept, ByPage);
    SortFilter(db.raw, ByPage, WithKey(RawKey, sid));
    FilterElements(db.raw, WithKey(RawKey, sid));
    var batches, key := BatchesOf(db, sid), RawKey;
    forall b | b in batches ensures b.sessionId == sid {
      assert b in multiset(batches) && b in multiset(kept);
      assert b in kept && key(b) == b.sessionId;
    }
  }

  /** A session has a file of raw events exactly if it has stored batches; the file holds them in order of page view and
      number, with times since the session's own start. */
  lemma RawTells(db: Db, pid: Key -> string, sid: Key)
    requires Valid(db)
    ensures sid in Export(db, pid).raw <==> exists b | b in db.raw :: b.sessionId == sid
    ensures sid in Export(db, pid).raw ==>
              var rows, batches := Export(db, pid).raw[sid], BatchesOf(db, sid);
              && multiset(batches) == multiset(Filter(db.raw, WithKey(RawKey, sid))) && InOrderOfPages(rows)
              && exists s :: s in db.sessions && s.id == sid && |rows| == |batches|
                             && forall i | 0 <= i < |rows| :: RawFits(batches[i], s, rows[i])
  {
    ExportIs(db, pid);
    ExportMetasTell(db, pid, sid);
    HasBatches(db, sid);
    hide Export, ExportMetas, SortBy, Filter, Group, FlatMap, Describes, ByPage, TextLe, RawFiles, Valid, BatchesOf,
         HasSession;
    var metas, groups := ExportMetas(db, pid), Group(SortBy(db.raw, ByPage), RawKey);
    GroupIsFilter(SortBy(db.raw, ByPage), RawKey, sid);
    BatchesAreSorted(db, sid);
    RawFileOf(metas, groups, sid);
    if sid in Export(db, pid).raw {
      var s :| OfSession(db, Some(sid), s) && Describes(db, pid, metas[sid], s);
      assert metas[sid].started == s.started by {
        DescribesStart(db, pid, metas[sid], s);
      }
      RawRowsFit(db, pid, groups[sid], metas[sid], s);
    }
  }

  lemma DescribesStart(db: Db, pid: Key -> string, m: Meta, s: Session)
    requires Describes(db, pid, m, s)
    ensures m.started == s.started
  {
  }

  lemma RawFileOf(metas: map<Key, Meta>, groups: map<Key, seq<RawBatch>>, sid: Key)
    ensures sid in RawFiles(metas, groups) <==> sid in metas && sid in groups
    ensures sid in metas && sid in groups ==> RawFiles(metas, groups)[sid] == FlatMap(groups[sid], RawRow(metas[sid]))
  {
    hide FlatMap;
  }

  lemma HasBatches(db: Db, sid: Key)
    requires Valid(db)
    ensures Filter(db.raw, WithKey(RawKey, sid)) != [] <==> exists b | b in db.raw :: b.sessionId == sid
    ensures BatchesOf(db, sid) != [] <==> Filter(db.raw, WithKey(RawKey, sid)) != []
    ensures (exists b | b in db.raw :: b.sessionId == sid) ==> HasSession(db, sid)
  {
    hide Filter, SortBy;
    var key, kept := RawKey, Filter(db.raw, WithKey(RawKey, sid));
    FilterElements(db.raw, WithKey(RawKey, sid));
    BatchesAreSorted(db, sid);
    assert |multiset(kept)| == |kept| && |multiset(BatchesOf(db, sid))| == |BatchesOf(db, sid)|;
    if kept != [] {
      assert kept[0] in kept && key(kept[0]) == kept[0].sessionId;
    }
    if b :| b in db.raw && b.sessionId == sid {
      assert key(b) == sid && b in kept;
    }
  }

  lemma RawRowsFit(db: Db, pid: Key -> string, batches: seq<RawBatch>, m: Meta, s: Session)
    requires m.started == s.started && forall b | b in batches :: b.sessionId == s.id
    requires forall i, j | 0 <= i < j < |batches| :: ByPage(batches[i], batches[j])
    ensures
      var rows := FlatMap(batches, RawRow(m));
      && |rows| == |batches| && InOrderOfPages(rows)
      && forall i | 0 <= i < |rows| :: RawFits(batches[i], s, rows[i])
  {
    hide FlatMap, Filter, TextLe;
    var f := RawRow(m);
    FlatMapAligns(batches, f, Always());
    FilterEverything(batches, Always());
    var rows := FlatMap(batches, f);
    forall i | 0 <= i < |rows| ensures RawFits(batches[i], s, rows[i]) {
      assert f(batches[i]) == [rows[i]];
    }
    forall i, j | 0 <= i < j < |rows|
      ensures TextLe(rows[i].pageView, rows[j].pageView)
      ensures rows[i].pageView == rows[j].pageView ==> rows[i].seqNo <= rows[j].seqNo
    {
      assert batches[i] in batches && batches[j] in batches && ByPage(batches[i], batches[j]);
      TextIsOrder(rows[i].pageView, rows[j].pageView, "");
    }
  }
}
