/** A student's attendance (controllers/attendanceController.js): per batch,
    the number of sessions, the count of each marked status, the
    percentage present and one detail line per session. */
module Attendance {
  import opened Common
  import opened Rounding
  import opened KeyedRows
  import O = Ordering
  import Text

  /** The `batches` columns joined to an enrollment. */
  datatype BatchInfo = BatchInfo(batchId: Id, batchName: string, status: string,
                                 startDate: Option<string>, endDate: Option<string>)

  /** An `enrollment` row: the student, the batch and whether it is active. */
  datatype Enrollment = Enrollment(student: Id, batch: Id, status: bool)

  /** An `attendance_sessions` row. */
  datatype Session = Session(id: Id, batchId: Id, sessionDate: string, notes: Option<string>)

  /** An `attendance_records` row: how a student was marked for a session. */
  datatype Record = Record(sessionId: Id, studentId: Id, status: string, markedAt: Option<string>)

  /** One line of the session list a student sees. */
  datatype Detail = Detail(sessionId: Id, sessionDate: string, status: string, markedAt: Option<string>,
                           notes: Option<string>)

  datatype Summary = Summary(totalSessions: nat, presentCount: nat, absentCount: nat, lateCount: nat,
                             excusedCount: nat, percentage: int)

  function BatchIdOf(b: BatchInfo): Id {
    b.batchId
  }

  function SessionId(s: Session): Id {
    s.id
  }

  function RecordSession(r: Record): Id {
    r.sessionId
  }

  /** The pair a student is marked at most once for. */
  function StudentSession(r: Record): (Id, Id) {
    (r.studentId, r.sessionId)
  }

  function HasStatus(status: string): Record -> bool {
    (r: Record) => r.status == status
  }

  function InBatch(batchId: Id): Session -> bool {
    (s: Session) => s.batchId == batchId
  }

  /** `.in('batch_id', batchIds)` */
  function InBatches(batchIds: set<Id>): Session -> bool {
    (s: Session) => s.batchId in batchIds
  }

  /** `batchSessions.some(s => s.id === r.session_id)` */
  function OfSessions(sessions: seq<Session>): Record -> bool {
    (r: Record) => r.sessionId in KeySet(sessions, SessionId)
  }

  /** `.eq('student_id', studentId).in('session_id', sessionIds)` */
  function StudentRecordOf(studentId: Id, sessions: seq<Session>): Record -> bool {
    (r: Record) => r.studentId == studentId && r.sessionId in KeySet(sessions, SessionId)
  }

  /** The batch row the inner join attaches to an enrollment. */
  function Joined(e: Enrollment, batches: seq<BatchInfo>): (b: Option<BatchInfo>)
    ensures b.Some? ==> b.value in batches && b.value.batchId == e.batch
    ensures b.None? ==> forall i :: 0 <= i < |batches| ==> batches[i].batchId != e.batch
  {
    match IndexOfKey(batches, BatchIdOf, e.batch)
    case None => None
    case Some(i) => Some(batches[i])
  }

  /** The student's enrollments with status true that join a batch, as
      their batch rows, in enrollment order. */
  function ActiveBatches(enrollments: seq<Enrollment>, batches: seq<BatchInfo>, studentId: Id): (r: seq<BatchInfo>)
    ensures |r| <= |enrollments|
    ensures forall b :: b in r <==>
              exists e :: e in enrollments && e.student == studentId && e.status && Joined(e, batches) == Some(b)
  {
    if enrollments == [] then []
    else
      var init := enrollments[..|enrollments| - 1];
      var e := enrollments[|enrollments| - 1];
      assert enrollments == init + [e];
      var rest := ActiveBatches(init, batches, studentId);
      var joined := Joined(e, batches);
      if e.student == studentId && e.status && joined.Some? then rest + [joined.value] else rest
  }

  /** `.order('session_date', { ascending: false })` */
  function SessionDateKey(s: Session): O.Key {
    [O.Txt(s.sessionDate)]
  }

  function NewestFirst(sessions: seq<Session>): (r: seq<Session>)
    ensures multiset(r) == multiset(sessions)
    ensures O.SortedBy(r, SessionDateKey, true)
  {
    O.SortBy(sessions, SessionDateKey, true)
  }

  /** The positions of the records marked with `status`. */
  function StatusPositions(records: seq<Record>, status: string): set<nat> {
    set i: nat | i < |records| && records[i].status == status
  }

  /** `records.filter(r => r.status === status).length` counts the records
      marked with `status`. */
  function CountStatus(records: seq<Record>, status: string): (n: nat)
    ensures n == |StatusPositions(records, status)|
    ensures n <= |records|
  {
    CountIsPositions(records, status);
    |Filter(records, HasStatus(status))|
  }

  lemma {:induction false} CountIsPositions(records: seq<Record>, status: string)
    ensures |Filter(records, HasStatus(status))| == |StatusPositions(records, status)|
  {
    if records == [] {
      assert StatusPositions(records, status) == {};
    } else {
      var init := records[..|records| - 1];
      var last := records[|records| - 1];
      assert records == init + [last];
      FilterConcat(init, [last], HasStatus(status));
      CountIsPositions(init, status);
      assert Filter([last], HasStatus(status)) == if last.status == status then [last] else [];
      PositionsSnoc(init, last, status);
    }
  }

  /** Appending a record adds its position exactly when it has the status. */
  lemma PositionsSnoc(init: seq<Record>, last: Record, status: string)
    ensures var added: set<nat> := if last.status == status then {|init|} else {};
            && StatusPositions(init + [last], status) == StatusPositions(init, status) + added
            && StatusPositions(init, status) !! added
  {
    var records := init + [last];
    var added: set<nat> := if last.status == status then {|init|} else {};
    forall i: nat ensures i in StatusPositions(records, status) <==> i in StatusPositions(init, status) + added {
      if i < |init| {
        assert records[i] == init[i];
      }
    }
  }

  /** `total > 0 ? Math.round(present / total * 100) : 0` */
  function Percentage(present: nat, total: nat): (p: int)
    ensures total == 0 ==> p == 0
    ensures total > 0 ==> 2 * total * p - total <= 2 * (present * 100) < 2 * total * p + total
  {
    if total > 0 then Scaled(present, total, 100) else 0
  }

  /** The summary of a batch's sessions and the student's records for them. */
  function Summarize(sessions: seq<Session>, records: seq<Record>): (s: Summary)
    ensures s.totalSessions == |sessions|
    ensures s.presentCount == CountStatus(records, "present") && s.absentCount == CountStatus(records, "absent")
    ensures s.lateCount == CountStatus(records, "late") && s.excusedCount == CountStatus(records, "excused")
    ensures s.percentage == Percentage(s.presentCount, s.totalSessions)
  {
    var present := CountStatus(records, "present");
    Summary(|sessions|, present, CountStatus(records, "absent"), CountStatus(records, "late"),
            CountStatus(records, "excused"), Percentage(present, |sessions|))
  }

  /** The detail line of a session: the status and time of its first record,
      or `not_marked` and no time when it has none. */
  function DetailOf(session: Session, records: seq<Record>): (d: Detail)
    ensures d.sessionId == session.id && d.sessionDate == session.sessionDate && d.notes == session.notes
    ensures (forall i :: 0 <= i < |records| ==> records[i].sessionId != session.id) ==>
              d.status == "not_marked" && d.markedAt.None?
    ensures forall j :: 0 <= j < |records| && records[j].sessionId == session.id
                        && (forall i :: 0 <= i < j ==> records[i].sessionId != session.id) ==>
              d.status == records[j].status && d.markedAt == records[j].markedAt
  {
    match IndexOfKey(records, RecordSession, session.id)
    case None => Detail(session.id, session.sessionDate, "not_marked", None, session.notes)
    case Some(j) => Detail(session.id, session.sessionDate, records[j].status, records[j].markedAt, session.notes)
  }

  function Details(sessions: seq<Session>, records: seq<Record>): (ds: seq<Detail>)
    ensures |ds| == |sessions|
    ensures forall i :: 0 <= i < |ds| ==> ds[i] == DetailOf(sessions[i], records)
  {
    seq(|sessions|, i requires 0 <= i < |sessions| => DetailOf(sessions[i], records))
  }

  // ---------------------------------------------------------------------
  // getStudentBatchAttendance
  // ---------------------------------------------------------------------

  /** Store errors of the three reads. */
  datatype AttendanceFaults = AttendanceFaults(enrollments: bool, sessions: bool, records: bool)

  datatype BatchOutcome =
    | BatchStudentMissing                 // 400
    | BatchIdMissing                      // 400
    | NotEnrolled                         // 404
    | BatchSessionsFailed                 // 500
    | BatchRecordsFailed                  // 500
    | BatchReport(batch: BatchInfo, summary: Summary, sessions: seq<Detail>)

  /** The active-enrollment read with `.single()` finds the batch. */
  predicate ActivelyEnrolled(enrollments: seq<Enrollment>, batches: seq<BatchInfo>, studentId: Id, batchId: Id,
                             lookupFails: bool) {
    !lookupFails && |Matching(ActiveBatches(enrollments, batches, studentId), BatchIdOf, batchId)| == 1
  }

  /** The batch's sessions, newest first. */
  function BatchSessions(sessions: seq<Session>, batchId: Id): seq<Session> {
    NewestFirst(Filter(sessions, InBatch(batchId)))
  }

  /** The student's records for the fetched sessions, in table order. */
  function StudentRecords(records: seq<Record>, studentId: Id, fetched: seq<Session>): seq<Record> {
    Filter(records, StudentRecordOf(studentId, fetched))
  }

  /** getStudentBatchAttendance: the `.single()` active enrollment in the
      batch, its sessions newest first, and the student's records for them. */
  function BatchAttendance(studentId: Option<Id>, batchId: Option<Id>, enrollments: seq<Enrollment>,
                           batches: seq<BatchInfo>, sessions: seq<Session>, records: seq<Record>,
                           faults: AttendanceFaults): (r: BatchOutcome)
    ensures r == BatchStudentMissing <==> !Present(studentId)
    ensures r == BatchIdMissing <==> Present(studentId) && !Present(batchId)
    ensures r == NotEnrolled <==>
              Present(studentId) && Present(batchId)
              && !ActivelyEnrolled(enrollments, batches, studentId.value, batchId.value, faults.enrollments)
    ensures r == BatchSessionsFailed <==>
              Present(studentId) && Present(batchId)
              && ActivelyEnrolled(enrollments, batches, studentId.value, batchId.value, faults.enrollments)
              && faults.sessions
    ensures r == BatchRecordsFailed <==>
              Present(studentId) && Present(batchId)
              && ActivelyEnrolled(enrollments, batches, studentId.value, batchId.value, faults.enrollments)
              && !faults.sessions && faults.records
    ensures r.BatchReport? <==>
              Present(studentId) && Present(batchId)
              && ActivelyEnrolled(enrollments, batches, studentId.value, batchId.value, faults.enrollments)
              && !faults.sessions && !faults.records
    ensures r.BatchReport? ==>
              && r.batch.batchId == batchId.value && r.batch in batches
              && (exists e :: e in enrollments && e.student == studentId.value && e.batch == batchId.value && e.status)
              && r.summary.totalSessions == |r.sessions| == |Filter(sessions, InBatch(batchId.value))|
    ensures r.BatchReport? ==>
              var fetched := BatchSessions(sessions, batchId.value);
              var recs := StudentRecords(records, studentId.value, fetched);
              && r.summary == Summarize(fetched, recs)
              && r.sessions == Details(fetched, recs)
  {
    if !Present(studentId) then BatchStudentMissing
    else if !Present(batchId) then BatchIdMissing
    else
      var enrolled := Single(Matching(ActiveBatches(enrollments, batches, studentId.value), BatchIdOf, batchId.value));
      if faults.enrollments || enrolled.None? then NotEnrolled
      else if faults.sessions then BatchSessionsFailed
      else
        var inBatch := Filter(sessions, InBatch(batchId.value));
        var fetched := BatchSessions(sessions, batchId.value);
        assert |fetched| == |inBatch| by {
          assert |multiset(fetched)| == |multiset(inBatch)|;
        }
        if faults.records then BatchRecordsFailed
        else
          var recs := StudentRecords(records, studentId.value, fetched);
          BatchReport(enrolled.value, Summarize(fetched, recs), Details(fetched, recs))
  }

  /** The sessions of the report are listed newest first. */
  lemma BatchSessionsNewestFirst(studentId: Option<Id>, batchId: Option<Id>, enrollments: seq<Enrollment>,
                                 batches: seq<BatchInfo>, sessions: seq<Session>, records: seq<Record>,
                                 faults: AttendanceFaults, i: int, j: int)
    requires var r := BatchAttendance(studentId, batchId, enrollments, batches, sessions, records, faults);
             r.BatchReport? && 0 <= i < j < |r.sessions|
    ensures var r := BatchAttendance(studentId, batchId, enrollments, batches, sessions, records, faults);
            !Text.StrLess(r.sessions[i].sessionDate, r.sessions[j].sessionDate)
  {
    var fetched := NewestFirst(Filter(sessions, InBatch(batchId.value)));
    assert !O.Before(SessionDateKey(fetched[j]), SessionDateKey(fetched[i]), true);
  }

  /** Each of a batch's sessions is counted against records of that session
      only, so with one record per student and session the student is
      present at most once per session. */
  lemma {:induction false} PresentWithinSessions(sessions: seq<Session>, records: seq<Record>)
    requires OnePerKey(records, RecordSession)
    requires forall r :: r in records ==> r.sessionId in KeySet(sessions, SessionId)
    ensures Summarize(sessions, records).presentCount <= |sessions|
    ensures 0 <= Summarize(sessions, records).percentage <= 100
  {
    var present := Filter(records, HasStatus("present"));
    FilterKeepsOnePerKey(records, HasStatus("present"), RecordSession);
    CountWithinKeys(present, RecordSession, sessions, SessionId);
    if |sessions| > 0 {
      ScaledBounds(|present|, |sessions|, 100);
    }
  }

  /** The student's records keep one record per session when the table keeps
      one per student and session. */
  lemma StudentRecordsOnePerSession(records: seq<Record>, studentId: Id, sessions: seq<Session>)
    requires OnePerKey(records, StudentSession)
    ensures OnePerKey(Filter(records, StudentRecordOf(studentId, sessions)), RecordSession)
  {
    var p := StudentRecordOf(studentId, sessions);
    var recs := Filter(records, p);
    FilterKeepsOnePerKey(records, p, StudentSession);
    forall i, j | 0 <= i < j < |recs| ensures RecordSession(recs[i]) != RecordSession(recs[j]) {
      assert recs[i] in recs && recs[j] in recs;
      assert StudentSession(recs[i]) != StudentSession(recs[j]);
    }
  }

  /** With one record per student and session, the batch percentage lies
      between 0 and 100 and present never exceeds the session count. */
  lemma BatchPercentageBounded(studentId: Option<Id>, batchId: Option<Id>, enrollments: seq<Enrollment>,
                               batches: seq<BatchInfo>, sessions: seq<Session>, records: seq<Record>,
                               faults: AttendanceFaults)
    requires OnePerKey(records, StudentSession)
    requires BatchAttendance(studentId, batchId, enrollments, batches, sessions, records, faults).BatchReport?
    ensures var r := BatchAttendance(studentId, batchId, enrollments, batches, sessions, records, faults);
            r.summary.presentCount <= r.summary.totalSessions && 0 <= r.summary.percentage <= 100
  {
    var fetched := NewestFirst(Filter(sessions, InBatch(batchId.value)));
    StudentRecordsOnePerSession(records, studentId.value, fetched);
    PresentWithinSessions(fetched, Filter(records, StudentRecordOf(studentId.value, fetched)));
  }

  /** A session the student has no record for shows as not marked. */
  lemma UnmarkedSessionShown(session: Session, records: seq<Record>)
    requires forall r :: r in records ==> r.status != "not_marked"
    ensures DetailOf(session, records).status == "not_marked" <==> forall r :: r in records ==> r.sessionId != session.id
    ensures DetailOf(session, records).status == "not_marked" ==> DetailOf(session, records).markedAt.None?
  {
    match IndexOfKey(records, RecordSession, session.id)
    case None =>
    case Some(j) =>
      assert records[j] in records;
  }

  /** The four counted statuses are distinct, so their counts add up to at
      most the number of records. */
  lemma {:induction false} StatusCountsDisjoint(records: seq<Record>)
    ensures CountStatus(records, "present") + CountStatus(records, "absent")
            + CountStatus(records, "late") + CountStatus(records, "excused") <= |records|
  {
    if records != [] {
      StatusCountsDisjoint(records[1..]);
    }
  }

  // ---------------------------------------------------------------------
  // getStudentAttendance
  // ---------------------------------------------------------------------

  datatype BatchAttendanceEntry = BatchAttendanceEntry(batch: BatchInfo, summary: Summary, sessions: seq<Detail>)

  datatype OverviewOutcome =
    | OverviewStudentMissing              // 400
    | EnrollmentsFailed                   // 500
    | NoEnrolledBatches                   // 200 with an empty list
    | OverviewSessionsFailed              // 500
    | OverviewRecordsFailed               // 500
    | Overview(entries: seq<BatchAttendanceEntry>)

  /** One entry: the batch's sessions among the fetched ones and the
      student's records for them. */
  function Entry(b: BatchInfo, fetched: seq<Session>, recs: seq<Record>): (e: BatchAttendanceEntry)
    ensures e.batch == b
    ensures e.summary.totalSessions == |e.sessions|
    ensures var batchSessions := Filter(fetched, InBatch(b.batchId));
            var batchRecords := Filter(recs, OfSessions(batchSessions));
            && e.summary == Summarize(batchSessions, batchRecords)
            && e.sessions == Details(batchSessions, batchRecords)
  {
    var batchSessions := Filter(fetched, InBatch(b.batchId));
    var batchRecords := Filter(recs, OfSessions(batchSessions));
    BatchAttendanceEntry(b, Summarize(batchSessions, batchRecords), Details(batchSessions, batchRecords))
  }

  /** The sessions fetched for a set of batches, newest first. */
  function FetchedSessions(sessions: seq<Session>, active: seq<BatchInfo>): seq<Session> {
    NewestFirst(Filter(sessions, InBatches(KeySet(active, BatchIdOf))))
  }

  /** One entry per active batch, in order. */
  function Entries(active: seq<BatchInfo>, fetched: seq<Session>, recs: seq<Record>): (es: seq<BatchAttendanceEntry>)
    ensures |es| == |active|
    ensures forall i :: 0 <= i < |es| ==> es[i] == Entry(active[i], fetched, recs) && es[i].batch == active[i]
  {
    seq(|active|, i requires 0 <= i < |active| => Entry(active[i], fetched, recs))
  }

  /** getStudentAttendance: one entry per active enrollment. */
  function StudentAttendance(studentId: Option<Id>, enrollments: seq<Enrollment>, batches: seq<BatchInfo>,
                             sessions: seq<Session>, records: seq<Record>, faults: AttendanceFaults)
    : (r: OverviewOutcome)
    ensures r == OverviewStudentMissing <==> !Present(studentId)
    ensures r == EnrollmentsFailed <==> Present(studentId) && faults.enrollments
    ensures r == NoEnrolledBatches <==>
              Present(studentId) && !faults.enrollments && ActiveBatches(enrollments, batches, studentId.value) == []
    ensures r == OverviewSessionsFailed <==>
              Present(studentId) && !faults.enrollments && ActiveBatches(enrollments, batches, studentId.value) != []
              && faults.sessions
    ensures r == OverviewRecordsFailed <==>
              Present(studentId) && !faults.enrollments && ActiveBatches(enrollments, batches, studentId.value) != []
              && !faults.sessions && faults.records
    ensures r.Overview? <==>
              Present(studentId) && !faults.enrollments && ActiveBatches(enrollments, batches, studentId.value) != []
              && !faults.sessions && !faults.records
    ensures r.Overview? ==>
              && |r.entries| == |ActiveBatches(enrollments, batches, studentId.value)|
              && forall i :: 0 <= i < |r.entries| ==> r.entries[i].batch == ActiveBatches(enrollments, batches, studentId.value)[i]
    ensures r.Overview? ==>
              var active := ActiveBatches(enrollments, batches, studentId.value);
              var fetched := FetchedSessions(sessions, active);
              var recs := StudentRecords(records, studentId.value, fetched);
              forall i :: 0 <= i < |r.entries| ==> r.entries[i] == Entry(active[i], fetched, recs)
  {
    if !Present(studentId) then OverviewStudentMissing
    else if faults.enrollments then EnrollmentsFailed
    else
      var active := ActiveBatches(enrollments, batches, studentId.value);
      if active == [] then NoEnrolledBatches
      else if faults.sessions then OverviewSessionsFailed
      else
        var fetched := FetchedSessions(sessions, active);
        if faults.records then OverviewRecordsFailed
        else
          var recs := StudentRecords(records, studentId.value, fetched);
          Overview(Entries(active, fetched, recs))
  }

  /** A session of an active batch is among that batch's fetched sessions. */
  lemma FetchedForBatch(b: BatchInfo, sessions: seq<Session>, active: seq<BatchInfo>, s: Session)
    requires b in active && s in sessions && s.batchId == b.batchId
    ensures s in Filter(FetchedSessions(sessions, active), InBatch(b.batchId))
  {
    assert b.batchId in KeySet(active, BatchIdOf);
    assert s in Filter(sessions, InBatches(KeySet(active, BatchIdOf)));
    assert s in multiset(FetchedSessions(sessions, active));
  }

  /** Every session of an active batch has a line in the batch's entry. */
  lemma EntryCoversBatchSessions(b: BatchInfo, sessions: seq<Session>, active: seq<BatchInfo>, recs: seq<Record>,
                                 s: Session)
    requires b in active && s in sessions && s.batchId == b.batchId
    ensures var e := Entry(b, FetchedSessions(sessions, active), recs);
            exists i :: 0 <= i < |e.sessions| && e.sessions[i].sessionId == s.id
  {
    var batchSessions := Filter(FetchedSessions(sessions, active), InBatch(b.batchId));
    FetchedForBatch(b, sessions, active, s);
    var i :| 0 <= i < |batchSessions| && batchSessions[i] == s;
    var e := Entry(b, FetchedSessions(sessions, active), recs);
    assert e.sessions == Details(batchSessions, Filter(recs, OfSessions(batchSessions)));
    assert e.sessions[i] == DetailOf(s, Filter(recs, OfSessions(batchSessions)));
  }

  /** Every line of a batch's entry is a session of that batch. */
  lemma EntryOnlyBatchSessions(b: BatchInfo, sessions: seq<Session>, active: seq<BatchInfo>, recs: seq<Record>,
                               i: int)
    requires 0 <= i < |Entry(b, FetchedSessions(sessions, active), recs).sessions|
    ensures var e := Entry(b, FetchedSessions(sessions, active), recs);
            exists s :: s in sessions && s.batchId == b.batchId && s.id == e.sessions[i].sessionId
  {
    var fetched := FetchedSessions(sessions, active);
    var batchSessions := Filter(fetched, InBatch(b.batchId));
    var s := batchSessions[i];
    assert s in batchSessions;
    assert s in multiset(Filter(sessions, InBatches(KeySet(active, BatchIdOf))));
  }

  /** A batch's entry lists its sessions newest first. */
  lemma EntryNewestFirst(b: BatchInfo, fetched: seq<Session>, recs: seq<Record>, i: int, j: int)
    requires O.SortedBy(fetched, SessionDateKey, true)
    requires 0 <= i < j < |Entry(b, fetched, recs).sessions|
    ensures var e := Entry(b, fetched, recs);
            !Text.StrLess(e.sessions[i].sessionDate, e.sessions[j].sessionDate)
  {
    var batchSessions := Filter(fetched, InBatch(b.batchId));
    O.FilterKeepsSorted(fetched, InBatch(b.batchId), SessionDateKey, true);
    assert !O.Before(SessionDateKey(batchSessions[j]), SessionDateKey(batchSessions[i]), true);
  }

  lemma EntryPercentageBounded(b: BatchInfo, fetched: seq<Session>, recs: seq<Record>)
    requires OnePerKey(recs, RecordSession)
    ensures var e := Entry(b, fetched, recs);
            e.summary.presentCount <= e.summary.totalSessions && 0 <= e.summary.percentage <= 100
  {
    var batchSessions := Filter(fetched, InBatch(b.batchId));
    FilterKeepsOnePerKey(recs, OfSessions(batchSessions), RecordSession);
    PresentWithinSessions(batchSessions, Filter(recs, OfSessions(batchSessions)));
  }

  /** With one record per student and session, every entry's percentage
      lies between 0 and 100. */
  lemma OverviewPercentageBounded(studentId: Option<Id>, enrollments: seq<Enrollment>, batches: seq<BatchInfo>,
                                  sessions: seq<Session>, records: seq<Record>, faults: AttendanceFaults, k: int)
    requires OnePerKey(records, StudentSession)
    requires var r := StudentAttendance(studentId, enrollments, batches, sessions, records, faults);
             r.Overview? && 0 <= k < |r.entries|
    ensures var e := StudentAttendance(studentId, enrollments, batches, sessions, records, faults).entries[k];
            e.summary.presentCount <= e.summary.totalSessions && 0 <= e.summary.percentage <= 100
  {
    var active := ActiveBatches(enrollments, batches, studentId.value);
    var fetched := FetchedSessions(sessions, active);
    StudentRecordsOnePerSession(records, studentId.value, fetched);
    EntryPercentageBounded(active[k], fetched, Filter(records, StudentRecordOf(studentId.value, fetched)));
  }
}
