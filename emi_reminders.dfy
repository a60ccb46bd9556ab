/** The daily EMI reminder job (cron/emiExpiryNotifications.js): for each
    approved EMI payment whose next instalment falls due in one to three
    days, and which is not the final instalment, it adds an unread
    notification for the student, at most once per student and message per
    UTC day. */
module EmiReminders {
  import opened Common
  import opened Notifications

  const MsPerDay: int := 86400000

  /** The enrollment a payment is attached to, with the batch and course
      names its joins bring, either of which may be missing. */
  datatype Enrollment = Enrollment(student: Id, batchName: Option<string>, courseName: Option<string>)

  /** A `student_course_payment` row; `dueDay` is `next_emi_due_date` as a
      day number (days since the epoch, at UTC midnight). */
  datatype EmiPayment = EmiPayment(paymentId: Id, paymentType: Option<string>, status: bool, dueDay: Option<int>,
                                   currentEmi: Option<int>, emiDuration: Option<int>,
                                   enrollment: Option<Enrollment>)

  /** The query: `payment_type = 'emi'`, a due date, and `status = true`. */
  predicate Fetched(p: EmiPayment) {
    p.paymentType == Some("emi") && p.dueDay.Some? && p.status
  }

  /** `current_emi >= emi_duration`, a missing value comparing as 0. */
  predicate IsFinalEmi(p: EmiPayment) {
    OrDefault(p.currentEmi, 0) >= OrDefault(p.emiDuration, 0)
  }

  /** A payment the loop reaches the reminder for: it has an enrollment,
      its instalment is due in 1, 2 or 3 days, and it is not the last. */
  predicate Due(p: EmiPayment, today: int) {
    && p.dueDay.Some? && p.enrollment.Some?
    && 1 <= p.dueDay.value - today <= 3
    && !IsFinalEmi(p)
  }

  /** `x || fallback` on a text. */
  function TextOr(x: Option<string>, fallback: string): (r: string)
    ensures Present(x) ==> r == x.value
    ensures !Present(x) ==> r == fallback
  {
    if Present(x) then x.value else fallback
  }

  /** The reminder text for `daysLeft` days. */
  function Message(daysLeft: int, course: string, batch: string, dueText: string): (m: string)
    requires 1 <= daysLeft <= 3
    ensures |m| > 0
    ensures daysLeft == 3 ==> m[0] == '\U{23F0}'
    ensures daysLeft == 2 ==> m[0] == '\U{26A0}'
    ensures daysLeft == 1 ==> m[0] == '\U{1F6A8}'
  {
    var body := "\n\nCourse: " + course + "\nBatch: " + batch + "\n\nDue Date: " + dueText;
    if daysLeft == 3 then
      "\U{23F0} EMI Payment Reminder - 3 Days Left" + body + "\n\nPlease make your payment on or before the due date."
    else if daysLeft == 2 then
      "\U{26A0}\U{FE0F} EMI Payment Reminder - 2 Days Left" + body + "\n\nPlease make your payment soon to avoid disruption."
    else
      "\U{1F6A8} Final Reminder - Payment Due Tomorrow!" + body + "\n\nPlease make your payment immediately."
  }

  /** Messages for different day counts differ, whatever the names and the
      date: the daily check therefore tells the three reminders apart. */
  lemma MessageTellsDaysApart(d1: int, d2: int, c1: string, b1: string, t1: string, c2: string, b2: string, t2: string)
    requires 1 <= d1 <= 3 && 1 <= d2 <= 3
    requires Message(d1, c1, b1, t1) == Message(d2, c2, b2, t2)
    ensures d1 == d2
  {
    assert Message(d1, c1, b1, t1)[0] == Message(d2, c2, b2, t2)[0];
  }

  /** The reminder for a due payment; `formatDate` renders the due day as
      the `en-US` short date. */
  function ReminderFor(p: EmiPayment, today: int, formatDate: int -> string): (m: string)
    requires Due(p, today)
    ensures |m| > 0
    ensures p.dueDay.value - today == 3 ==> m[0] == '\U{23F0}'
    ensures p.dueDay.value - today == 2 ==> m[0] == '\U{26A0}'
    ensures p.dueDay.value - today == 1 ==> m[0] == '\U{1F6A8}'
  {
    var e := p.enrollment.value;
    Message(p.dueDay.value - today, TextOr(e.courseName, "course"), TextOr(e.batchName, "your course"),
            formatDate(p.dueDay.value))
  }

  /** Whether a time lies in the UTC day `today`, from 00:00:00.000 to
      23:59:59.999. */
  predicate InDay(t: int, today: int) {
    today * MsPerDay <= t <= today * MsPerDay + MsPerDay - 1
  }

  /** The dedup query: the same student and message created today. */
  predicate SentToday(rows: seq<Notification>, student: Id, message: string, today: int) {
    exists n :: n in rows && n.student == student && n.message == message && InDay(n.createdAt, today)
  }

  /** Store errors for single payments: of the dedup query, of the insert,
      and of the initial query. */
  datatype ReminderFaults = ReminderFaults(fetch: bool, dedup: set<Id>, insert: set<Id>)

  /** The new row a reminder adds. */
  function Reminder(rows: seq<Notification>, student: Id, message: string, now: int): Notification {
    Notification(FreshId(rows), student, message, false, now)
  }

  /** One turn of the loop: the table afterwards and whether a row was
      added. */
  function Step(rows: seq<Notification>, p: EmiPayment, today: int, now: int, formatDate: int -> string,
                faults: ReminderFaults): (r: (seq<Notification>, bool))
    ensures r.1 <==>
              && Due(p, today)
              && p.paymentId !in faults.dedup
              && !SentToday(rows, p.enrollment.value.student, ReminderFor(p, today, formatDate), today)
              && p.paymentId !in faults.insert
    ensures !r.1 ==> r.0 == rows
    ensures r.1 ==> r.0 == rows + [Reminder(rows, p.enrollment.value.student, ReminderFor(p, today, formatDate), now)]
  {
    if !Due(p, today) || p.paymentId in faults.dedup then (rows, false)
    else
      var student := p.enrollment.value.student;
      var message := ReminderFor(p, today, formatDate);
      if SentToday(rows, student, message, today) || p.paymentId in faults.insert then (rows, false)
      else (rows + [Reminder(rows, student, message, now)], true)
  }

  /** The loop over the fetched payments, every one of them processed. */
  function Run(rows: seq<Notification>, ps: seq<EmiPayment>, today: int, now: int, formatDate: int -> string,
               faults: ReminderFaults): (r: seq<Notification>)
    ensures rows <= r && |r| <= |rows| + |ps|
  {
    if ps == [] then rows
    else Step(Run(rows, ps[..|ps| - 1], today, now, formatDate, faults), ps[|ps| - 1], today, now, formatDate, faults).0
  }

  /** The loop as the file has it: the success log after an insert names an
      undeclared variable, and the exception it raises ends the job. The
      second component tells whether the job has ended that way. */
  function RunAsWritten(rows: seq<Notification>, ps: seq<EmiPayment>, today: int, now: int,
                        formatDate: int -> string, faults: ReminderFaults): (r: (seq<Notification>, bool))
    ensures rows <= r.0 && |r.0| <= |rows| + |ps|
  {
    if ps == [] then (rows, false)
    else
      var before := RunAsWritten(rows, ps[..|ps| - 1], today, now, formatDate, faults);
      if before.1 then before
      else Step(before.0, ps[|ps| - 1], today, now, formatDate, faults)
  }

  /** The whole job: nothing happens when the payment query fails. */
  function Reminders(rows: seq<Notification>, payments: seq<EmiPayment>, today: int, now: int,
                     formatDate: int -> string, faults: ReminderFaults): (r: seq<Notification>)
    ensures faults.fetch ==> r == rows
    ensures rows <= r && |r| <= |rows| + |payments|
  {
    if faults.fetch then rows else Run(rows, Filter(payments, Fetched), today, now, formatDate, faults)
  }

  function RemindersAsWritten(rows: seq<Notification>, payments: seq<EmiPayment>, today: int, now: int,
                              formatDate: int -> string, faults: ReminderFaults): (r: seq<Notification>)
    ensures faults.fetch ==> r == rows
    ensures rows <= r && |r| <= |rows| + |payments|
  {
    if faults.fetch then rows else RunAsWritten(rows, Filter(payments, Fetched), today, now, formatDate, faults).0
  }

  // ---------------------------------------------------------------------
  // What the job adds
  // ---------------------------------------------------------------------

  /** A notification is the reminder of a due payment: the payment's
      student, its message, unread, created now. */
  predicate RemindsOf(n: Notification, p: EmiPayment, today: int, now: int, formatDate: int -> string) {
    && Due(p, today)
    && n.student == p.enrollment.value.student
    && n.message == ReminderFor(p, today, formatDate)
    && !n.isRead && n.createdAt == now
  }

  /** The job only appends, and every row it appends is the reminder of a
      due payment it went through; in particular the final instalment and
      payments due in more than three days are never reminded. */
  lemma {:induction false} RunOnlyRemindsDue(rows: seq<Notification>, ps: seq<EmiPayment>, today: int, now: int,
                                             formatDate: int -> string, faults: ReminderFaults)
    ensures var out := Run(rows, ps, today, now, formatDate, faults);
            && rows <= out
            && forall k :: |rows| <= k < |out| ==> exists p :: p in ps && RemindsOf(out[k], p, today, now, formatDate)
  {
    if ps != [] {
      var init := ps[..|ps| - 1];
      var last := ps[|ps| - 1];
      RunOnlyRemindsDue(rows, init, today, now, formatDate, faults);
      var mid := Run(rows, init, today, now, formatDate, faults);
      var out := Run(rows, ps, today, now, formatDate, faults);
      forall k | |rows| <= k < |out| ensures exists p :: p in ps && RemindsOf(out[k], p, today, now, formatDate) {
        if k < |mid| {
          assert out[k] == mid[k];
          var p :| p in init && RemindsOf(mid[k], p, today, now, formatDate);
          assert p in ps;
        } else {
          assert RemindsOf(out[k], last, today, now, formatDate);
          assert last in ps;
        }
      }
    }
  }

  /** No student holds two notifications with the same message created
      the same day. */
  predicate NoRepeatToday(rows: seq<Notification>, today: int) {
    forall i, j :: 0 <= i < j < |rows| && InDay(rows[i].createdAt, today) && InDay(rows[j].createdAt, today) ==>
      rows[i].student != rows[j].student || rows[i].message != rows[j].message
  }

  lemma StepKeepsNoRepeat(rows: seq<Notification>, p: EmiPayment, today: int, now: int, formatDate: int -> string,
                          faults: ReminderFaults)
    requires NoRepeatToday(rows, today)
    ensures NoRepeatToday(Step(rows, p, today, now, formatDate, faults).0, today)
  {
    var out := Step(rows, p, today, now, formatDate, faults).0;
    if out != rows {
      var n := out[|rows|];
      forall i, j | 0 <= i < j < |out| && InDay(out[i].createdAt, today) && InDay(out[j].createdAt, today)
        ensures out[i].student != out[j].student || out[i].message != out[j].message
      {
        if j == |rows| {
          assert out[i] == rows[i] && rows[i] in rows;
        } else {
          assert out[i] == rows[i] && out[j] == rows[j];
        }
      }
    }
  }

  /** The daily check keeps reminders from repeating within a day. */
  lemma {:induction false} RunKeepsNoRepeat(rows: seq<Notification>, ps: seq<EmiPayment>, today: int, now: int,
                                            formatDate: int -> string, faults: ReminderFaults)
    requires NoRepeatToday(rows, today)
    ensures NoRepeatToday(Run(rows, ps, today, now, formatDate, faults), today)
  {
    if ps != [] {
      RunKeepsNoRepeat(rows, ps[..|ps| - 1], today, now, formatDate, faults);
      StepKeepsNoRepeat(Run(rows, ps[..|ps| - 1], today, now, formatDate, faults), ps[|ps| - 1], today, now,
                        formatDate, faults);
    }
  }

  /** Once the job has gone through a due payment without a store error,
      its student holds that reminder for today, whether added now or
      earlier the same day. */
  lemma {:induction false} RunRemindsEveryDue(rows: seq<Notification>, ps: seq<EmiPayment>, today: int, now: int,
                                              formatDate: int -> string, faults: ReminderFaults, p: EmiPayment)
    requires InDay(now, today)
    requires p in ps && Due(p, today) && p.paymentId !in faults.dedup && p.paymentId !in faults.insert
    ensures SentToday(Run(rows, ps, today, now, formatDate, faults), p.enrollment.value.student,
                      ReminderFor(p, today, formatDate), today)
  {
    var init := ps[..|ps| - 1];
    var last := ps[|ps| - 1];
    var mid := Run(rows, init, today, now, formatDate, faults);
    var out := Run(rows, ps, today, now, formatDate, faults);
    var student := p.enrollment.value.student;
    var message := ReminderFor(p, today, formatDate);
    assert mid <= out;
    if p in init {
      RunRemindsEveryDue(rows, init, today, now, formatDate, faults, p);
      var n :| n in mid && n.student == student && n.message == message && InDay(n.createdAt, today);
      assert n in out;
    } else {
      assert p == last;
      if !SentToday(mid, student, message, today) {
        assert out[|mid|] in out;
      }
    }
  }

  // ---------------------------------------------------------------------
  // The job as written
  // ---------------------------------------------------------------------

  /** As written, one run adds at most one notification. */
  lemma {:induction false} AsWrittenAddsAtMostOne(rows: seq<Notification>, ps: seq<EmiPayment>, today: int, now: int,
                                                  formatDate: int -> string, faults: ReminderFaults)
    ensures var out := RunAsWritten(rows, ps, today, now, formatDate, faults);
            |out.0| <= |rows| + 1 && (!out.1 ==> out.0 == rows)
  {
    if ps != [] {
      AsWrittenAddsAtMostOne(rows, ps[..|ps| - 1], today, now, formatDate, faults);
    }
  }

  function NoDate(day: int): string {
    ""
  }

  /** Two students, each with an instalment due in two days. */
  function SecondStudentCase(): seq<EmiPayment> {
    [EmiPayment("p1", Some("emi"), true, Some(12), Some(1), Some(3), Some(Enrollment("s1", None, None))),
     EmiPayment("p2", Some("emi"), true, Some(12), Some(1), Some(3), Some(Enrollment("s2", None, None)))]
  }

  /** Both payments of the case reach the insert on an empty table. */
  lemma SecondStudentCaseSteps()
    ensures var ps := SecondStudentCase();
            var faults := ReminderFaults(false, {}, {});
            var first := Step([], ps[0], 10, 10 * MsPerDay, NoDate, faults);
            first.1 && Step(first.0, ps[1], 10, 10 * MsPerDay, NoDate, faults).1
  {
    var ps := SecondStudentCase();
    var faults := ReminderFaults(false, {}, {});
    var first := Step([], ps[0], 10, 10 * MsPerDay, NoDate, faults);
    assert Due(ps[0], 10) && Due(ps[1], 10);
    assert !SentToday([], "s1", ReminderFor(ps[0], 10, NoDate), 10);
    assert first.0 == [Reminder([], "s1", ReminderFor(ps[0], 10, NoDate), 10 * MsPerDay)];
    assert !SentToday(first.0, "s2", ReminderFor(ps[1], 10, NoDate), 10);
  }

  /** Two students each due in two days: the job as written reminds only
      the first. */
  lemma AsWrittenMissesSecondStudent()
    ensures |RemindersAsWritten([], SecondStudentCase(), 10, 10 * MsPerDay, NoDate, ReminderFaults(false, {}, {}))| == 1
  {
    var ps := SecondStudentCase();
    var faults := ReminderFaults(false, {}, {});
    FilterAll(ps, Fetched);
    SecondStudentCaseSteps();
    assert ps[..1] == [ps[0]] && [ps[0]][..0] == [];
    assert RunAsWritten([], ps[..1], 10, 10 * MsPerDay, NoDate, faults) == Step([], ps[0], 10, 10 * MsPerDay, NoDate, faults);
  }

  /** The intended job reminds both students of the case. */
  lemma IntendedRemindsBothStudents()
    ensures |Reminders([], SecondStudentCase(), 10, 10 * MsPerDay, NoDate, ReminderFaults(false, {}, {}))| == 2
  {
    var ps := SecondStudentCase();
    var faults := ReminderFaults(false, {}, {});
    FilterAll(ps, Fetched);
    SecondStudentCaseSteps();
    assert ps[..1] == [ps[0]] && [ps[0]][..0] == [];
    assert Run([], ps[..1], 10, 10 * MsPerDay, NoDate, faults) == Step([], ps[0], 10, 10 * MsPerDay, NoDate, faults).0;
  }

  // ---------------------------------------------------------------------
  // The job against the table
  // ---------------------------------------------------------------------

  /** The corrected job: every fetched payment is processed. */
  method SendReminders(table: NotificationTable, payments: seq<EmiPayment>, today: int, now: int,
                       formatDate: int -> string, faults: ReminderFaults)
    modifies table
    ensures table.rows == Reminders(old(table.rows), payments, today, now, formatDate, faults)
  {
    if faults.fetch {
      return;
    }
    var fetched := Filter(payments, Fetched);
    if fetched == [] {
      return;
    }
    ghost var start := table.rows;
    var i := 0;
    while i < |fetched|
      invariant i <= |fetched|
      invariant table.rows == Run(start, fetched[..i], today, now, formatDate, faults)
    {
      var p := fetched[i];
      assert p in fetched;
      assert fetched[..i + 1][..i] == fetched[..i];
      i := i + 1;
      if p.enrollment.None? || !(1 <= p.dueDay.value - today <= 3) {
        continue;
      }
      if IsFinalEmi(p) {
        continue;
      }
      var student := p.enrollment.value.student;
      var message := ReminderFor(p, today, formatDate);
      if p.paymentId in faults.dedup {
        continue;
      }
      if SentToday(table.rows, student, message, today) {
        continue;
      }
      if p.paymentId !in faults.insert {
        var _ := table.Insert(student, message, now);
      }
    }
    assert fetched[..|fetched|] == fetched;
  }

  /** The job as written: the first successful insert ends the run. */
  method SendRemindersAsWritten(table: NotificationTable, payments: seq<EmiPayment>, today: int, now: int,
                                formatDate: int -> string, faults: ReminderFaults)
    modifies table
    ensures table.rows == RemindersAsWritten(old(table.rows), payments, today, now, formatDate, faults)
  {
    if faults.fetch {
      return;
    }
    var fetched := Filter(payments, Fetched);
    if fetched == [] {
      return;
    }
    ghost var start := table.rows;
    var i := 0;
    while i < |fetched|
      invariant i <= |fetched|
      invariant RunAsWritten(start, fetched[..i], today, now, formatDate, faults) == (table.rows, false)
    {
      var p := fetched[i];
      assert p in fetched;
      assert fetched[..i + 1][..i] == fetched[..i];
      i := i + 1;
      if p.enrollment.None? || !(1 <= p.dueDay.value - today <= 3) {
        continue;
      }
      if IsFinalEmi(p) {
        continue;
      }
      var student := p.enrollment.value.student;
      var message := ReminderFor(p, today, formatDate);
      if p.paymentId in faults.dedup {
        continue;
      }
      if SentToday(table.rows, student, message, today) {
        continue;
      }
      if p.paymentId !in faults.insert {
        var _ := table.Insert(student, message, now);
        StoppedStaysStopped(start, fetched, i, today, now, formatDate, faults);
        return;
      }
    }
    assert fetched[..|fetched|] == fetched;
  }

  /** Once the run as written has ended, later payments change nothing. */
  lemma {:induction false} StoppedStaysStopped(rows: seq<Notification>, ps: seq<EmiPayment>, i: nat, today: int,
                                               now: int, formatDate: int -> string, faults: ReminderFaults)
    requires i <= |ps|
    requires RunAsWritten(rows, ps[..i], today, now, formatDate, faults).1
    ensures RunAsWritten(rows, ps, today, now, formatDate, faults) == RunAsWritten(rows, ps[..i], today, now, formatDate, faults)
    decreases |ps|
  {
    if i < |ps| {
      assert ps[..|ps| - 1][..i] == ps[..i];
      StoppedStaysStopped(rows, ps[..|ps| - 1], i, today, now, formatDate, faults);
    } else {
      assert ps[..i] == ps;
    }
  }
}
