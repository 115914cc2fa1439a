/**
 The dataset exported from the study's database. Withdrawing a participant and then exporting gives the earlier export
 without exactly that participant's rows.

 An exported row is modelled by the stored rows it is computed from; rounding of times is not modelled.
 */
module StudyDataset {
  import opened Sorting
  import opened StudyDatabase
  import opened Tables
  import opened Wrappers

  datatype Meta = Meta(participant: string, kind: string, started: real, botTool: Option<string>)

  datatype SessionOut = SessionOut(session: Session, meta: Meta, code: Option<Code>, answers: map<string, string>,
                                   events: seq<TaskEvent>)

  datatype TaskOut = TaskOut(sessionId: Key, participant: string, kind: string, task: string, event: string, t: real,
                             detail: string)

  datatype TelemetryOut = TelemetryOut(id: nat, sessionId: Key, meta: Meta, stream: Option<string>, t: real,
                                       rest: string, isFinal: bool)

  datatype LabelledOut = LabelledOut(sessionId: Key, participant: string, kind: string, t: real, rest: string)

  datatype UnlabelledOut = UnlabelledOut(at: real, rest: string)

  datatype RawOut = RawOut(pageView: string, seqNo: int, t: real, events: seq<string>)

  datatype Dataset = Dataset(sessions: seq<SessionOut>, tasks: seq<TaskOut>, telemetry: seq<TelemetryOut>,
                             labelled: seq<LabelledOut>, unlabelled: seq<UnlabelledOut>, raw: map<Key, seq<RawOut>>)

  // -- Orders --------------------------------------------------------------------------------------

  predicate ByStarted(a: Session, b: Session) {
    a.started <= b.started
  }

  predicate TextLe(a: string, b: string) {
    a == "" || (b != "" && (a[0] < b[0] || (a[0] == b[0] && TextLe(a[1..], b[1..]))))
  }

  /** By session, page view and sequence number. */
  predicate ByPage(a: RawBatch, b: RawBatch) {
    if a.sessionId != b.sessionId then TextLe(a.sessionId, b.sessionId)
    else if a.pageView != b.pageView then TextLe(a.pageView, b.pageView)
    else a.seqNo <= b.seqNo
  }

  lemma {:induction false} TextIsOrder(a: string, b: string, c: string)
    ensures TextLe(a, b) || TextLe(b, a)
    ensures TextLe(a, b) && TextLe(b, a) ==> a == b
    ensures TextLe(a, b) && TextLe(b, c) ==> TextLe(a, c)
  {
    if a != "" && b != "" {
      TextIsOrder(a[1..], b[1..], if c != "" then c[1..] else "");
      assert a == [a[0]] + a[1..] && b == [b[0]] + b[1..];
    }
  }

  lemma OrdersAreOrders()
    ensures IsOrder(ByStarted) && IsOrder(ByPage)
  {
    hide TextLe;
    forall a: RawBatch, b: RawBatch ensures ByPage(a, b) || ByPage(b, a) {
      TextIsOrder(a.sessionId, b.sessionId, "");
      TextIsOrder(a.pageView, b.pageView, "");
    }
    forall a: RawBatch, b: RawBatch, c: RawBatch | ByPage(a, b) && ByPage(b, c) ensures ByPage(a, c) {
      TextIsOrder(a.sessionId, b.sessionId, c.sessionId);
      TextIsOrder(a.pageView, b.pageView, c.pageView);
      TextIsOrder(b.sessionId, a.sessionId, "");
      TextIsOrder(c.sessionId, b.sessionId, "");
      TextIsOrder(c.pageView, b.pageView, "");
      TextIsOrder(b.pageView, a.pageView, "");
    }
  }

  // -- What the export looks up ----------------------------------------------------------------------

  function CodeMap(codes: seq<Code>): map<Key, Code> {
    if codes == [] then map[] else CodeMap(codes[..|codes| - 1])[codes[|codes| - 1].code := codes[|codes| - 1]]
  }

  function Lookup<V>(m: map<Key, V>, k: Key): Option<V> {
    if k in m then Some(m[k]) else None
  }

  function MetaOf(codes: map<Key, Code>, pid: Key -> string, s: Session): Meta {
    var code := Lookup(codes, s.code);
    Meta(pid(s.code), if code.Some? then code.value.kind else "unknown", s.started,
         if code.Some? then code.value.botTool else None)
  }

  function Metas(codes: map<Key, Code>, pid: Key -> string, sessions: seq<Session>): map<Key, Meta> {
    if sessions == [] then map[]
    else
      var last := sessions[|sessions| - 1];
      Metas(codes, pid, sessions[..|sessions| - 1])[last.id := MetaOf(codes, pid, last)]
  }

  function Answers(survey: seq<Survey>): map<Key, map<string, string>> {
    if survey == [] then map[]
    else
      var before, last := Answers(survey[..|survey| - 1]), survey[|survey| - 1];
      before[last.sessionId := GetOr(before, last.sessionId, map[])[last.phase := last.answers]]
  }

  function TaskKey(e: TaskEvent): Key { e.sessionId }

  function RawKey(b: RawBatch): Key { b.sessionId }

  // -- Rows ----------------------------------------------------------------------------------------

  function SessionRows(codes: map<Key, Code>, pid: Key -> string, answers: map<Key, map<string, string>>,
                       events: map<Key, seq<TaskEvent>>): Session -> seq<SessionOut>
  {
    (s: Session) => [SessionOut(s, MetaOf(codes, pid, s), Lookup(codes, s.code), GetOr(answers, s.id, map[]),
                                GetOr(events, s.id, []))]
  }

  function TaskRow(s: Session, m: Meta): TaskEvent -> seq<TaskOut> {
    (e: TaskEvent) => [TaskOut(s.id, m.participant, m.kind, e.task, e.event, e.at - s.started, e.detail)]
  }

  function TaskRows(codes: map<Key, Code>, pid: Key -> string, events: map<Key, seq<TaskEvent>>)
    : Session -> seq<TaskOut>
  {
    (s: Session) => FlatMap(GetOr(events, s.id, []), TaskRow(s, MetaOf(codes, pid, s)))
  }

  /** Telemetry of a study session; not yet marked. */
  function TelemetryRows(metas: map<Key, Meta>): Telemetry -> seq<TelemetryOut> {
    (r: Telemetry) =>
      if r.sessionId.None? || r.sessionId.value !in metas then []
      else
        var m := metas[r.sessionId.value];
        [TelemetryOut(r.id, r.sessionId.value, m, r.stream, r.received - m.started, r.rest, false)]
  }

  function RequestMeta(metas: map<Key, Meta>, r: Request): Option<Meta> {
    if r.sessionId.None? || r.sessionId.value == "" then None else Lookup(metas, r.sessionId.value)
  }

  function LabelledRows(metas: map<Key, Meta>): Request -> seq<LabelledOut> {
    (r: Request) =>
      match RequestMeta(metas, r)
      case None => []
      case Some(m) =>
        [LabelledOut(if r.sessionId.Some? then r.sessionId.value else "", m.participant, m.kind, r.at - m.started,
                     r.rest)]
  }

  function UnlabelledRows(metas: map<Key, Meta>): Request -> seq<UnlabelledOut> {
    (r: Request) => if RequestMeta(metas, r).None? then [UnlabelledOut(r.at, r.rest)] else []
  }

  function RawRow(m: Meta): RawBatch -> seq<RawOut> {
    (b: RawBatch) => [RawOut(b.pageView, b.seqNo, b.received - m.started, b.events)]
  }

  function RawFiles(metas: map<Key, Meta>, groups: map<Key, seq<RawBatch>>): map<Key, seq<RawOut>> {
    map sid | sid in groups && sid in metas :: FlatMap(groups[sid], RawRow(metas[sid]))
  }

  // -- The final mark --------------------------------------------------------------------------------

  datatype StreamKey = StreamKey(sessionId: Key, stream: Option<string>)

  function StreamOf(r: TelemetryOut): StreamKey {
    StreamKey(r.sessionId, r.stream)
  }

  predicate Later(rows: seq<TelemetryOut>, k: StreamKey) {
    exists i | 0 <= i < |rows| :: StreamOf(rows[i]) == k
  }

  /** A report is final if no later one belongs to the same stream of the same session. */
  function MarkFinal(rows: seq<TelemetryOut>): (r: seq<TelemetryOut>)
    ensures |r| == |rows|
  {
    if rows == [] then []
    else [rows[0].(isFinal := !Later(rows[1..], StreamOf(rows[0])))] + MarkFinal(rows[1..])
  }

  lemma {:induction false} MarkFinalAt(rows: seq<TelemetryOut>, i: nat)
    requires i < |rows|
    ensures MarkFinal(rows)[i] == rows[i].(isFinal := !Later(rows[i + 1..], StreamOf(rows[i])))
  {
    hide Later;
    if i > 0 {
      MarkFinalAt(rows[1..], i - 1);
      assert rows[1..][i - 1] == rows[i] && rows[1..][i..] == rows[i + 1..];
    }
  }

  /** A stream is one page view of one session. Every stream that was reported has exactly one final report, the last. */
  lemma OneFinalPerStream(rows: seq<TelemetryOut>, n: nat) returns (i: nat)
    requires n < |rows|
    ensures n <= i < |rows| && rows[i].sessionId == rows[n].sessionId && rows[i].stream == rows[n].stream
    ensures MarkFinal(rows)[i] == rows[i].(isFinal := true)
    ensures forall j | 0 <= j < |rows| && rows[j].sessionId == rows[n].sessionId && rows[j].stream == rows[n].stream ::
              j <= i && (j != i ==> MarkFinal(rows)[j] == rows[j].(isFinal := false))
  {
    var k := StreamOf(rows[n]);
    i := LastOf(rows, k);
    MarkFinalAt(rows, i);
    assert !Later(rows[i + 1..], k) by {
      var tail := rows[i + 1..];
      forall j | 0 <= j < |tail| ensures StreamOf(tail[j]) != k {
        assert tail[j] == rows[i + 1 + j];
      }
    }
    forall j | 0 <= j < |rows| && j != i && StreamOf(rows[j]) == k
      ensures j < i && MarkFinal(rows)[j] == rows[j].(isFinal := false)
    {
      MarkFinalAt(rows, j);
      assert rows[j + 1..][i - j - 1] == rows[i];
    }
  }

  lemma {:induction false} LastOf(rows: seq<TelemetryOut>, k: StreamKey) returns (i: nat)
    requires Later(rows, k)
    ensures i < |rows| && StreamOf(rows[i]) == k
    ensures forall j | i < j < |rows| :: StreamOf(rows[j]) != k
  {
    if StreamOf(rows[|rows| - 1]) == k {
      i := |rows| - 1;
    } else {
      var n :| 0 <= n < |rows| && StreamOf(rows[n]) == k;
      assert StreamOf(rows[..|rows| - 1][n]) == k;
      i := LastOf(rows[..|rows| - 1], k);
    }
  }

  // -- The export ------------------------------------------------------------------------------------

  function Export(db: Db, pid: Key -> string): Dataset {
    var codes := CodeMap(db.codes);
    var sessions := SortBy(db.sessions, ByStarted);
    var answers := Answers(db.survey);
    var events := Group(db.tasks, TaskKey);
    var metas := Metas(codes, pid, sessions);
    Dataset(FlatMap(sessions, SessionRows(codes, pid, answers, events)),
            FlatMap(sessions, TaskRows(codes, pid, events)),
            MarkFinal(FlatMap(db.telemetry, TelemetryRows(metas))),
            FlatMap(db.requests, LabelledRows(metas)),
            FlatMap(db.requests, UnlabelledRows(metas)),
            RawFiles(metas, Group(SortBy(db.raw, ByPage), RawKey)))
  }

  function SessionElsewhere(ids: set<Key>): SessionOut -> bool { (r: SessionOut) => r.session.id !in ids }

  function TaskElsewhere(ids: set<Key>): TaskOut -> bool { (r: TaskOut) => r.sessionId !in ids }

  function TelemetryElsewhere(ids: set<Key>): TelemetryOut -> bool { (r: TelemetryOut) => r.sessionId !in ids }

  function LabelledElsewhere(ids: set<Key>): LabelledOut -> bool { (r: LabelledOut) => r.sessionId !in ids }

  function Anything<T>(): T -> bool { (r: T) => true }

  /** The dataset without the rows of some sessions; requests that were never labelled stay. */
  function Without(d: Dataset, ids: set<Key>): Dataset {
    Dataset(Filter(d.sessions, SessionElsewhere(ids)), Filter(d.tasks, TaskElsewhere(ids)),
            Filter(d.telemetry, TelemetryElsewhere(ids)), Filter(d.labelled, LabelledElsewhere(ids)),
            d.unlabelled, d.raw - ids)
  }

  // -- Lookups after a withdrawal ----------------------------------------------------------------------

  lemma {:induction false} CodeMapWithout(codes: seq<Code>, code: Key, k: Key)
    ensures Lookup(CodeMap(Filter(codes, OtherCodes(code))), k) == if k == code then None else Lookup(CodeMap(codes), k)
  {
    if codes != [] {
      var front, last := codes[..|codes| - 1], codes[|codes| - 1];
      CodeMapWithout(front, code, k);
      var kept := Filter(front, OtherCodes(code));
      assert (kept + [last])[..|kept|] == kept;
    }
  }

  lemma {:induction false} MetasWithout(codes: map<Key, Code>, after: map<Key, Code>, pid: Key -> string,
                                        sessions: seq<Session>, code: Key, ids: set<Key>, id: Key)
    requires forall s | s in sessions :: s.code == code <==> s.id in ids
    requires forall k | k != code :: Lookup(after, k) == Lookup(codes, k)
    ensures Lookup(Metas(after, pid, Filter(sessions, OtherSessions(code))), id)
         == if id in ids then None else Lookup(Metas(codes, pid, sessions), id)
  {
    if sessions != [] {
      var front, last := sessions[..|sessions| - 1], sessions[|sessions| - 1];
      assert last in sessions && forall s | s in front :: s in sessions;
      MetasWithout(codes, after, pid, front, code, ids, id);
      assert sessions == front + [last];
      FilterLast(front, last, OtherSessions(code));
      MetasLast(codes, pid, front, last, id);
      MetasLast(after, pid, Filter(front, OtherSessions(code)), last, id);
      assert last.code != code ==> Lookup(after, last.code) == Lookup(codes, last.code);
      hide Metas, Filter, Lookup;
    }
  }

  lemma MetasLast(codes: map<Key, Code>, pid: Key -> string, front: seq<Session>, last: Session, id: Key)
    ensures Lookup(Metas(codes, pid, front + [last]), id)
         == if id == last.id then Some(MetaOf(codes, pid, last)) else Lookup(Metas(codes, pid, front), id)
  {
    assert (front + [last])[..|front|] == front;
  }

  lemma AnswersLast(front: seq<Survey>, last: Survey, sid: Key)
    ensures
      var before := GetOr(Answers(front), sid, map[]);
      GetOr(Answers(front + [last]), sid, map[])
      == if last.sessionId == sid then before[last.phase := last.answers] else before
  {
    assert (front + [last])[..|front|] == front;
  }

  lemma {:induction false} AnswersWithout(survey: seq<Survey>, ids: set<Key>, sid: Key)
    requires sid !in ids
    ensures GetOr(Answers(Filter(survey, Outside(ids, SurveySid))), sid, map[]) == GetOr(Answers(survey), sid, map[])
  {
    hide Answers, GetOr;
    if survey != [] {
      var front, last := survey[..|survey| - 1], survey[|survey| - 1];
      AnswersWithout(front, ids, sid);
      assert survey == front + [last];
      FilterLast(front, last, Outside(ids, SurveySid));
      AnswersLast(front, last, sid);
      AnswersLast(Filter(front, Outside(ids, SurveySid)), last, sid);
      var sidOf := SurveySid;
      assert sidOf(last) == Some(last.sessionId);
    }
  }

  lemma EventsWithout(tasks: seq<TaskEvent>, ids: set<Key>, sid: Key)
    requires sid !in ids
    ensures GetOr(Group(Filter(tasks, Outside(ids, TaskSid)), TaskKey), sid, []) == GetOr(Group(tasks, TaskKey), sid, [])
  {
    GroupIsFilter(tasks, TaskKey, sid);
    GroupIsFilter(Filter(tasks, Outside(ids, TaskSid)), TaskKey, sid);
    GroupOutside(tasks, ids, TaskSid, TaskKey, sid);
  }

  /** Rows of a session that stays are found before and after. */
  lemma {:induction false} GroupOutside<T>(rows: seq<T>, ids: set<Key>, sidOf: T -> Option<Key>, key: T -> Key, sid: Key)
    requires sid !in ids && forall x | x in rows :: sidOf(x) == Some(key(x))
    ensures Filter(Filter(rows, Outside(ids, sidOf)), WithKey(key, sid)) == Filter(rows, WithKey(key, sid))
  {
    forall x | x in rows ensures WithKey(key, sid)(x) == (Outside(ids, sidOf)(x) && WithKey(key, sid)(x)) {
      assert sidOf(x) == Some(key(x));
    }
    FilterTwice(rows, Outside(ids, sidOf), WithKey(key, sid), WithKey(key, sid));
  }

  lemma {:induction false} SessionsInMetas(codes: map<Key, Code>, pid: Key -> string, sessions: seq<Session>, s: Session)
    requires s in sessions
    ensures s.id in Metas(codes, pid, sessions)
  {
    if s in sessions[..|sessions| - 1] {
      SessionsInMetas(codes, pid, sessions[..|sessions| - 1], s);
    }
  }

  // -- Withdrawal commutes with the export -------------------------------------------------------------

  /** The lookups after a withdrawal of some sessions, next to those before it. */
  ghost predicate Forgets(before: map<Key, Meta>, after: map<Key, Meta>, ids: set<Key>) {
    && (forall id :: Lookup(after, id) == if id in ids then None else Lookup(before, id))
    && (forall id | id in ids :: id in before && id != "")
  }

  lemma {:induction false} MarkFinalFilter(rows: seq<TelemetryOut>, ids: set<Key>)
    ensures MarkFinal(Filter(rows, TelemetryElsewhere(ids))) == Filter(MarkFinal(rows), TelemetryElsewhere(ids))
  {
    hide Later;
    var keep := TelemetryElsewhere(ids);
    if rows != [] {
      var first, rest := rows[0], rows[1..];
      MarkFinalFilter(rest, ids);
      assert rows == [first] + rest;
      FilterConcat([first], rest, keep);
      var marked := first.(isFinal := !Later(rest, StreamOf(first)));
      FilterConcat([marked], MarkFinal(rest), keep);
      FilterLast([], first, keep);
      FilterLast([], marked, keep);
      assert [] + [first] == [first] && [] + [marked] == [marked];
      if first.sessionId !in ids {
        LaterElsewhere(rest, ids, StreamOf(first));
        var kept := [first] + Filter(rest, keep);
        assert kept[1..] == Filter(rest, keep);
      } else {
        assert [] + Filter(rest, keep) == Filter(rest, keep);
        assert [] + Filter(MarkFinal(rest), keep) == Filter(MarkFinal(rest), keep);
      }
    }
  }

  lemma LaterElsewhere(rows: seq<TelemetryOut>, ids: set<Key>, k: StreamKey)
    requires k.sessionId !in ids
    ensures Later(Filter(rows, TelemetryElsewhere(ids)), k) <==> Later(rows, k)
  {
    hide Filter;
    var kept := Filter(rows, TelemetryElsewhere(ids));
    FilterElements(rows, TelemetryElsewhere(ids));
    if Later(rows, k) {
      var i :| 0 <= i < |rows| && StreamOf(rows[i]) == k;
      assert rows[i] in kept;
      var j :| 0 <= j < |kept| && kept[j] == rows[i];
    }
    if Later(kept, k) {
      var i :| 0 <= i < |kept| && StreamOf(kept[i]) == k;
      assert kept[i] in rows;
      var j :| 0 <= j < |rows| && rows[j] == kept[i];
    }
  }

  lemma {:induction false} TelemetryCommutes(telemetry: seq<Telemetry>, before: map<Key, Meta>,
                                             after: map<Key, Meta>, ids: set<Key>)
    requires Forgets(before, after, ids)
    ensures MarkFinal(FlatMap(Filter(telemetry, Outside(ids, TelemetrySid)), TelemetryRows(after)))
         == Filter(MarkFinal(FlatMap(telemetry, TelemetryRows(before))), TelemetryElsewhere(ids))
  {
    hide Filter, FlatMap, MarkFinal;
    var f, g, keep, keepRow := TelemetryRows(before), TelemetryRows(after), Outside(ids, TelemetrySid), TelemetryElsewhere(ids);
    forall x | x in telemetry ensures keep(x) ==> g(x) == f(x) && forall r | r in f(x) :: keepRow(r) {
      OneTelemetry(x, before, after, ids);
    }
    forall x | x in telemetry ensures !keep(x) ==> forall r | r in f(x) :: !keepRow(r) {
      OneTelemetry(x, before, after, ids);
    }
    FlatMapFilter(telemetry, f, g, keep, keepRow);
    MarkFinalFilter(FlatMap(telemetry, f), ids);
  }

  lemma OneTelemetry(x: Telemetry, before: map<Key, Meta>, after: map<Key, Meta>, ids: set<Key>)
    requires Forgets(before, after, ids)
    ensures
      var rows := TelemetryRows(before)(x);
      if Outside(ids, TelemetrySid)(x)
      then TelemetryRows(after)(x) == rows && forall r | r in rows :: TelemetryElsewhere(ids)(r)
      else forall r | r in rows :: !TelemetryElsewhere(ids)(r)
  {
    var sidOf := TelemetrySid;
    assert sidOf(x) == x.sessionId;
    if x.sessionId.Some? {
      assert Lookup(after, x.sessionId.value) == if x.sessionId.value in ids then None else Lookup(before, x.sessionId.value);
    }
  }

  lemma RequestsCommute(requests: seq<Request>, before: map<Key, Meta>, after: map<Key, Meta>, ids: set<Key>)
    requires Forgets(before, after, ids)
    ensures FlatMap(Filter(requests, Outside(ids, RequestSid)), LabelledRows(after))
         == Filter(FlatMap(requests, LabelledRows(before)), LabelledElsewhere(ids))
    ensures FlatMap(Filter(requests, Outside(ids, RequestSid)), UnlabelledRows(after))
         == FlatMap(requests, UnlabelledRows(before))
  {
    hide Filter, FlatMap;
    var keep := Outside(ids, RequestSid);
    var f, g, keepRow := LabelledRows(before), LabelledRows(after), LabelledElsewhere(ids);
    var u, v, all := UnlabelledRows(before), UnlabelledRows(after), Anything<UnlabelledOut>();
    forall x | x in requests
      ensures keep(x) ==> g(x) == f(x) && forall r | r in f(x) :: keepRow(r)
      ensures !keep(x) ==> forall r | r in f(x) :: !keepRow(r)
      ensures keep(x) ==> v(x) == u(x)
      ensures !keep(x) ==> u(x) == []
    {
      OneRequest(x, before, after, ids);
    }
    FlatMapFilter(requests, f, g, keep, keepRow);
    FlatMapFilter(requests, u, v, keep, all);
    FilterEverything(FlatMap(requests, u), all);
  }

  lemma OneRequest(x: Request, before: map<Key, Meta>, after: map<Key, Meta>, ids: set<Key>)
    requires Forgets(before, after, ids)
    ensures
      var rows := LabelledRows(before)(x);
      if Outside(ids, RequestSid)(x)
      then && LabelledRows(after)(x) == rows && (forall r | r in rows :: LabelledElsewhere(ids)(r))
           && UnlabelledRows(after)(x) == UnlabelledRows(before)(x)
      else (forall r | r in rows :: !LabelledElsewhere(ids)(r)) && UnlabelledRows(before)(x) == []
  {
    var sidOf := RequestSid;
    assert sidOf(x) == x.sessionId;
    if x.sessionId.Some? {
      assert Lookup(after, x.sessionId.value) == if x.sessionId.value in ids then None else Lookup(before, x.sessionId.value);
    }
  }

  lemma {:induction false} RawCommutes(raw: seq<RawBatch>, before: map<Key, Meta>, after: map<Key, Meta>, ids: set<Key>)
    requires Forgets(before, after, ids)
    ensures RawFiles(after, Group(SortBy(Filter(raw, Outside(ids, RawSid)), ByPage), RawKey))
         == RawFiles(before, Group(SortBy(raw, ByPage), RawKey)) - ids
  {
    hide Filter, FlatMap, SortBy, Group, IsOrder;
    OrdersAreOrders();
    SortFilter(raw, ByPage, Outside(ids, RawSid));
    var sorted := SortBy(raw, ByPage);
    var kept := Filter(sorted, Outside(ids, RawSid));
    var g, h := Group(sorted, RawKey), Group(kept, RawKey);
    forall sid: Key | sid !in ids ensures (sid in g <==> sid in h) && (sid in g ==> g[sid] == h[sid]) {
      GroupIsFilter(sorted, RawKey, sid);
      GroupIsFilter(kept, RawKey, sid);
      GroupOutside(sorted, ids, RawSid, RawKey, sid);
    }
    forall sid: Key
      ensures (sid in after <==> sid in before && sid !in ids) && (sid in after ==> after[sid] == before[sid])
    {
      assert Lookup(after, sid) == if sid in ids then None else Lookup(before, sid);
    }
  }

  lemma SessionsCommute(db: Db, code: Key, pid: Key -> string, sessions: seq<Session>, codes: map<Key, Code>,
                        after: map<Key, Code>)
    requires
      var ids := IdsOf(db.sessions, code);
      forall s | s in sessions :: s.code == code <==> s.id in ids
    requires forall k | k != code :: Lookup(after, k) == Lookup(codes, k)
    ensures
      var ids := IdsOf(db.sessions, code);
      var answers, events := Answers(db.survey), Group(db.tasks, TaskKey);
      var answersAfter := Answers(Filter(db.survey, Outside(ids, SurveySid)));
      var eventsAfter := Group(Filter(db.tasks, Outside(ids, TaskSid)), TaskKey);
      var kept := Filter(sessions, OtherSessions(code));
      && FlatMap(kept, SessionRows(after, pid, answersAfter, eventsAfter))
         == Filter(FlatMap(sessions, SessionRows(codes, pid, answers, events)), SessionElsewhere(ids))
      && FlatMap(kept, TaskRows(after, pid, eventsAfter))
         == Filter(FlatMap(sessions, TaskRows(codes, pid, events)), TaskElsewhere(ids))
  {
    hide Filter, FlatMap, Answers, Group, IdsOf;
    var ids := IdsOf(db.sessions, code);
    var answers, events := Answers(db.survey), Group(db.tasks, TaskKey);
    var answersAfter := Answers(Filter(db.survey, Outside(ids, SurveySid)));
    var eventsAfter := Group(Filter(db.tasks, Outside(ids, TaskSid)), TaskKey);
    var keep := OtherSessions(code);
    var f, g, keepRow := SessionRows(codes, pid, answers, events), SessionRows(after, pid, answersAfter, eventsAfter),
                         SessionElsewhere(ids);
    var t, u, keepTask := TaskRows(codes, pid, events), TaskRows(after, pid, eventsAfter), TaskElsewhere(ids);
    forall s | s in sessions
      ensures keep(s) ==> g(s) == f(s) && u(s) == t(s)
      ensures keep(s) ==> (forall r | r in f(s) :: keepRow(r)) && forall r | r in t(s) :: keepTask(r)
      ensures !keep(s) ==> (forall r | r in f(s) :: !keepRow(r)) && forall r | r in t(s) :: !keepTask(r)
    {
      TaskRowsOfSession(codes, pid, events, s);
      if keep(s) {
        AnswersWithout(db.survey, ids, s.id);
        EventsWithout(db.tasks, ids, s.id);
        assert Lookup(after, s.code) == Lookup(codes, s.code);
      }
    }
    FlatMapFilter(sessions, f, g, keep, keepRow);
    FlatMapFilter(sessions, t, u, keep, keepTask);
  }

  lemma TaskRowsOfSession(codes: map<Key, Code>, pid: Key -> string, events: map<Key, seq<TaskEvent>>, s: Session)
    ensures forall r | r in TaskRows(codes, pid, events)(s) :: r.sessionId == s.id
  {
    OneSessionRows(GetOr(events, s.id, []), s, MetaOf(codes, pid, s));
  }

  lemma {:induction false} OneSessionRows(events: seq<TaskEvent>, s: Session, m: Meta)
    ensures forall r | r in FlatMap(events, TaskRow(s, m)) :: r.sessionId == s.id
  {
    if events != [] {
      OneSessionRows(events[..|events| - 1], s, m);
    }
  }

  /** Exporting after a withdrawal gives the earlier export without exactly the participant's session, task, telemetry,
      request and raw rows; all other rows stay as they were, with their final marks, and so do the unlabelled
      requests. */
  lemma WithdrawCommutes(db: Db, code: Key, pid: Key -> string)
    requires Valid(db)
    ensures Export(Withdrawn(db, code), pid) == Without(Export(db, pid), IdsOf(db.sessions, code))
  {
    hide Filter, FlatMap, SortBy, Group, IsOrder, Sorted, Answers, Metas, CodeMap, MarkFinal, RawFiles, IdsOf, Lookup;
    var ids := IdsOf(db.sessions, code);
    var sessions := SortBy(db.sessions, ByStarted);
    var codes, after := CodeMap(db.codes), CodeMap(Filter(db.codes, OtherCodes(code)));
    OrdersAreOrders();
    SortFilter(db.sessions, ByStarted, OtherSessions(code));
    SortProperties(db.sessions, ByStarted);
    forall s | s in sessions ensures s in db.sessions && (s.code == code <==> s.id in ids) {
      assert s in multiset(sessions);
      SessionOfCode(db, code, s);
    }
    forall k: Key | k != code ensures Lookup(after, k) == Lookup(codes, k) {
      CodeMapWithout(db.codes, code, k);
    }
    var metas := Metas(codes, pid, sessions);
    var metasAfter := Metas(after, pid, Filter(sessions, OtherSessions(code)));
    ForgetsSessions(db, code, pid, sessions, codes, after);
    SessionsCommute(db, code, pid, sessions, codes, after);
    TelemetryCommutes(db.telemetry, metas, metasAfter, ids);
    RequestsCommute(db.requests, metas, metasAfter, ids);
    RawCommutes(db.raw, metas, metasAfter, ids);
  }

  lemma {:induction false} ForgetsSessions(db: Db, code: Key, pid: Key -> string, sessions: seq<Session>,
                                           codes: map<Key, Code>, after: map<Key, Code>)
    requires Valid(db) && multiset(sessions) == multiset(db.sessions)
    requires forall s | s in sessions :: s.code == code <==> s.id in IdsOf(db.sessions, code)
    requires forall k | k != code :: Lookup(after, k) == Lookup(codes, k)
    ensures Forgets(Metas(codes, pid, sessions), Metas(after, pid, Filter(sessions, OtherSessions(code))),
                    IdsOf(db.sessions, code))
  {
    hide Filter, Metas, Lookup, References;
    var ids := IdsOf(db.sessions, code);
    var metas := Metas(codes, pid, sessions);
    var metasAfter := Metas(after, pid, Filter(sessions, OtherSessions(code)));
    forall id: Key ensures Lookup(metasAfter, id) == if id in ids then None else Lookup(metas, id) {
      MetasWithout(codes, after, pid, sessions, code, ids, id);
    }
    forall id | id in ids ensures id in metas && id != "" {
      var s :| s in db.sessions && s.code == code && s.id == id;
      assert s in multiset(sessions);
      SessionsInMetas(codes, pid, sessions, s);
    }
  }

  // -- The loops of the export -------------------------------------------------------------------------

  method AnswersLoop(survey: seq<Survey>) returns (answers: map<Key, map<string, string>>)
    ensures answers == Answers(survey)
  {
    answers := map[];
    for i := 0 to |survey|
      invariant answers == Answers(survey[..i])
    {
      assert survey[..i + 1][..i] == survey[..i];
      var r := survey[i];
      answers := answers[r.sessionId := GetOr(answers, r.sessionId, map[])[r.phase := r.answers]];
    }
    assert survey[..|survey|] == survey;
  }

  lemma FlatMapStep<T, R>(s: seq<T>, i: nat, f: T -> seq<R>)
    requires i < |s|
    ensures FlatMap(s[..i + 1], f) == FlatMap(s[..i], f) + f(s[i])
  {
    assert s[..i + 1][..i] == s[..i];
  }

  lemma MetasStep(codes: map<Key, Code>, pid: Key -> string, sessions: seq<Session>, i: nat)
    requires i < |sessions|
    ensures Metas(codes, pid, sessions[..i + 1])
         == Metas(codes, pid, sessions[..i])[sessions[i].id := MetaOf(codes, pid, sessions[i])]
  {
    assert sessions[..i + 1][..i] == sessions[..i];
  }

  method SessionsLoop(sessions: seq<Session>, codes: map<Key, Code>, pid: Key -> string,
                      answers: map<Key, map<string, string>>, events: map<Key, seq<TaskEvent>>)
    returns (sessionRows: seq<SessionOut>, taskRows: seq<TaskOut>, metas: map<Key, Meta>)
    ensures sessionRows == FlatMap(sessions, SessionRows(codes, pid, answers, events))
    ensures taskRows == FlatMap(sessions, TaskRows(codes, pid, events))
    ensures metas == Metas(codes, pid, sessions)
  {
    hide FlatMap, Metas, MetaOf;
    sessionRows, taskRows, metas := [], [], map[];
    NoRows(codes, pid, SessionRows(codes, pid, answers, events), TaskRows(codes, pid, events));
    for i := 0 to |sessions|
      invariant sessionRows == FlatMap(sessions[..i], SessionRows(codes, pid, answers, events))
      invariant taskRows == FlatMap(sessions[..i], TaskRows(codes, pid, events))
      invariant metas == Metas(codes, pid, sessions[..i])
    {
      FlatMapStep(sessions, i, SessionRows(codes, pid, answers, events));
      FlatMapStep(sessions, i, TaskRows(codes, pid, events));
      MetasStep(codes, pid, sessions, i);
      var s := sessions[i];
      var m := MetaOf(codes, pid, s);
      metas := metas[s.id := m];
      var mine := GetOr(events, s.id, []);
      var rows := TasksLoop(mine, s, m);
      taskRows := taskRows + rows;
      sessionRows := sessionRows + [SessionOut(s, m, Lookup(codes, s.code), GetOr(answers, s.id, map[]), mine)];
    }
    assert sessions[..|sessions|] == sessions;
  }

  lemma NoRows<T, R>(codes: map<Key, Code>, pid: Key -> string, f: Session -> seq<T>, g: Session -> seq<R>)
    ensures FlatMap([], f) == [] && FlatMap([], g) == [] && Metas(codes, pid, []) == map[]
  {
  }

  method TasksLoop(events: seq<TaskEvent>, s: Session, m: Meta) returns (rows: seq<TaskOut>)
    ensures rows == FlatMap(events, TaskRow(s, m))
  {
    rows := [];
    for i := 0 to |events|
      invariant rows == FlatMap(events[..i], TaskRow(s, m))
    {
      FlatMapStep(events, i, TaskRow(s, m));
      var e := events[i];
      rows := rows + [TaskOut(s.id, m.participant, m.kind, e.task, e.event, e.at - s.started, e.detail)];
    }
    assert events[..|events|] == events;
  }

  method RequestsLoop(requests: seq<Request>, metas: map<Key, Meta>)
    returns (labelled: seq<LabelledOut>, unlabelled: seq<UnlabelledOut>)
    ensures labelled == FlatMap(requests, LabelledRows(metas))
    ensures unlabelled == FlatMap(requests, UnlabelledRows(metas))
  {
    labelled, unlabelled := [], [];
    for i := 0 to |requests|
      invariant labelled == FlatMap(requests[..i], LabelledRows(metas))
      invariant unlabelled == FlatMap(requests[..i], UnlabelledRows(metas))
    {
      FlatMapStep(requests, i, LabelledRows(metas));
      FlatMapStep(requests, i, UnlabelledRows(metas));
      var r := requests[i];
      var m := RequestMeta(metas, r);
      if m.None? {
        unlabelled := unlabelled + [UnlabelledOut(r.at, r.rest)];
      } else {
        labelled := labelled + [LabelledOut(r.sessionId.value, m.value.participant, m.value.kind,
                                            r.at - m.value.started, r.rest)];
      }
    }
    assert requests[..|requests|] == requests;
  }

  /** For each stream the index of its latest row. */
  ghost predicate TracksLast(rows: seq<TelemetryOut>, last: map<StreamKey, nat>) {
    && (forall k | k in last :: last[k] < |rows| && StreamOf(rows[last[k]]) == k)
    && (forall i | 0 <= i < |rows| :: StreamOf(rows[i]) in last && i <= last[StreamOf(rows[i])])
  }

  lemma LastDecides(rows: seq<TelemetryOut>, last: map<StreamKey, nat>, i: nat)
    requires TracksLast(rows, last) && i < |rows|
    ensures last[StreamOf(rows[i])] == i <==> !Later(rows[i + 1..], StreamOf(rows[i]))
  {
    var k, tail := StreamOf(rows[i]), rows[i + 1..];
    if last[k] > i {
      assert tail[last[k] - i - 1] == rows[last[k]];
    }
    if Later(tail, k) {
      var j :| 0 <= j < |tail| && StreamOf(tail[j]) == k;
      assert tail[j] == rows[i + 1 + j];
    }
  }

  /** Setting the mark at the recorded index of every stream marks exactly the final reports. */
  method MarkByIndex(rows: seq<TelemetryOut>, last: map<StreamKey, nat>) returns (marked: seq<TelemetryOut>)
    requires TracksLast(rows, last) && forall i | 0 <= i < |rows| :: !rows[i].isFinal
    ensures marked == MarkFinal(rows)
  {
    marked := rows;
    var todo := last.Keys;
    while todo != {}
      invariant todo <= last.Keys && |marked| == |rows|
      invariant forall i | 0 <= i < |rows| ::
        marked[i] == rows[i].(isFinal := last[StreamOf(rows[i])] == i && StreamOf(rows[i]) !in todo)
      decreases todo
    {
      var k :| k in todo;
      marked := marked[last[k] := marked[last[k]].(isFinal := true)];
      todo := todo - {k};
    }
    forall i | 0 <= i < |rows| ensures marked[i] == MarkFinal(rows)[i] {
      LastDecides(rows, last, i);
      MarkFinalAt(rows, i);
    }
  }

  method TelemetryLoop(telemetry: seq<Telemetry>, metas: map<Key, Meta>) returns (rows: seq<TelemetryOut>)
    ensures rows == MarkFinal(FlatMap(telemetry, TelemetryRows(metas)))
  {
    hide FlatMap, MarkFinal;
    rows := [];
    var last: map<StreamKey, nat> := map[];
    NoTelemetryRows(metas);
    for i := 0 to |telemetry|
      invariant rows == FlatMap(telemetry[..i], TelemetryRows(metas))
      invariant TracksLast(rows, last) && forall j | 0 <= j < |rows| :: !rows[j].isFinal
    {
      FlatMapStep(telemetry, i, TelemetryRows(metas));
      var r := telemetry[i];
      if r.sessionId.Some? && r.sessionId.value in metas {
        var m := metas[r.sessionId.value];
        last := last[StreamKey(r.sessionId.value, r.stream) := |rows|];
        rows := rows + [TelemetryOut(r.id, r.sessionId.value, m, r.stream, r.received - m.started, r.rest, false)];
      }
    }
    assert telemetry[..|telemetry|] == telemetry;
    rows := MarkByIndex(rows, last);
  }

  lemma NoTelemetryRows(metas: map<Key, Meta>)
    ensures FlatMap([], TelemetryRows(metas)) == []
  {
  }

  method ExportDatabase(db: Database, pid: Key -> string) returns (d: Dataset)
    ensures d == Export(db.Contents(), pid)
  {
    hide FlatMap, MarkFinal, Metas, Answers, Group, SortBy;
    var codes := CodeMap(db.codes);
    var sessions := SortBy(db.sessions, ByStarted);
    var answers := AnswersLoop(db.survey);
    var events := GroupLoop(db.tasks, TaskKey);
    var sessionRows, taskRows, metas := SessionsLoop(sessions, codes, pid, answers, events);
    var telemetry := TelemetryLoop(db.telemetry, metas);
    var labelled, unlabelled := RequestsLoop(db.requests, metas);
    var batches := GroupLoop(SortBy(db.raw, ByPage), RawKey);
    d := Dataset(sessionRows, taskRows, telemetry, labelled, unlabelled, RawFiles(metas, batches));
  }
}
