/** The payment-mode lock (controllers/paymentLockController.js): once a
    student has chosen "full" or "emi" payment, a row in
    `student_payment_lock` records the choice, either for one batch (found
    through an enrollment) or globally, and a second choice is refused. */
module PaymentLock {
  import opened Common

  /** The `batch` column of an `enrollment` row, looked up by its id. */
  datatype EnrollmentBatch = EnrollmentBatch(enrollmentId: Id, batch: Option<Id>)

  /** A lock is either per batch or the legacy global lock (batch_id null). */
  datatype Scope = Global | PerBatch(batchId: Id)

  /** A row of `student_payment_lock`. */
  datatype LockRow = LockRow(registerNumber: string, paymentType: string, batchId: Option<Id>)

  /** The lock query's filter: same student, and `batch_id = b` for a
      per-batch scope or `batch_id is null` for the global one. */
  predicate InScope(row: LockRow, registerNumber: string, scope: Scope) {
    && row.registerNumber == registerNumber
    && match scope
       case Global => row.batchId.None?
       case PerBatch(b) => row.batchId == Some(b)
  }

  /** The rows the lock query matches, in table order. */
  function MatchingLocks(rows: seq<LockRow>, registerNumber: string, scope: Scope): (m: seq<LockRow>)
    ensures forall x :: x in m <==> x in rows && InScope(x, registerNumber, scope)
  {
    if rows == [] then []
    else
      var init := rows[..|rows| - 1];
      var last := rows[|rows| - 1];
      assert rows == init + [last];
      var rest := MatchingLocks(init, registerNumber, scope);
      if InScope(last, registerNumber, scope) then rest + [last] else rest
  }

  datatype ScopeResult = EnrollmentMissing | Scoped(scope: Scope)

  /** The scope of a request: the batch of the given enrollment (`.single()`
      on its id; an error or no row means 404), or global without one. An
      enrollment whose batch is null or empty falls back to the global scope. */
  function ResolveScope(enrollmentId: Option<string>, enrollments: seq<EnrollmentBatch>,
                        lookupFails: bool): (r: ScopeResult)
    ensures !Present(enrollmentId) ==> r == Scoped(Global)
    ensures r.EnrollmentMissing? <==>
              Present(enrollmentId)
              && (lookupFails || Single(Filter(enrollments, (e: EnrollmentBatch) => e.enrollmentId == enrollmentId.value)).None?)
    ensures r.Scoped? && r.scope.PerBatch? ==>
              && r.scope.batchId != ""
              && EnrollmentBatch(enrollmentId.value, Some(r.scope.batchId)) in enrollments
  {
    if !Present(enrollmentId) then Scoped(Global)
    else if lookupFails then EnrollmentMissing
    else
      var found := Single(Filter(enrollments, (e: EnrollmentBatch) => e.enrollmentId == enrollmentId.value));
      match found
      case None => EnrollmentMissing
      case Some(e) =>
        assert e in Filter(enrollments, (e: EnrollmentBatch) => e.enrollmentId == enrollmentId.value);
        if Present(e.batch) then Scoped(PerBatch(e.batch.value)) else Scoped(Global)
  }

  /** Which store calls report an error. */
  datatype LockFaults = LockFaults(enrollmentLookup: bool, lockLookup: bool, insert: bool)

  datatype LockOutcome =
    | MissingFields                  // 400
    | EnrollmentNotFound             // 404
    | AlreadyLocked(perBatch: bool)  // 409; the message names the batch case
    | InsertFailed                   // 500
    | Locked(row: LockRow)           // 200 with the inserted row

  /** The row a lock inserts: `batch_id` is set only for a per-batch scope. */
  function NewLock(registerNumber: string, paymentType: string, scope: Scope): (row: LockRow)
    ensures InScope(row, registerNumber, scope)
    ensures row.paymentType == paymentType
  {
    match scope
    case Global => LockRow(registerNumber, paymentType, None)
    case PerBatch(b) => LockRow(registerNumber, paymentType, Some(b))
  }

  /** lockPaymentMode: the response and the lock table afterwards. The
      existing-lock read ignores its error, and `.maybeSingle()` yields no row
      unless exactly one matches, so only a single matching lock blocks. */
  function LockSpec(rows: seq<LockRow>, registerNumber: Option<string>, paymentType: Option<string>,
                    enrollmentId: Option<string>, enrollments: seq<EnrollmentBatch>,
                    faults: LockFaults): (r: (LockOutcome, seq<LockRow>))
    ensures r.0 == MissingFields <==> !Present(registerNumber) || !Present(paymentType)
    ensures r.0 == EnrollmentNotFound <==>
              Present(registerNumber) && Present(paymentType)
              && ResolveScope(enrollmentId, enrollments, faults.enrollmentLookup).EnrollmentMissing?
    ensures !r.0.Locked? ==> r.1 == rows
    ensures r.0.AlreadyLocked? || r.0.Locked? || r.0.InsertFailed? ==>
              var scope := ResolveScope(enrollmentId, enrollments, faults.enrollmentLookup).scope;
              && (r.0.AlreadyLocked? <==> !faults.lockLookup && |MatchingLocks(rows, registerNumber.value, scope)| == 1)
              && (r.0.AlreadyLocked? ==> r.0.perBatch == scope.PerBatch?)
              && (r.0.Locked? ==> !faults.insert && r.1 == rows + [NewLock(registerNumber.value, paymentType.value, scope)])
              && (r.0.Locked? || r.0.InsertFailed? ==> (r.0.InsertFailed? <==> faults.insert))
  {
    if !Present(registerNumber) || !Present(paymentType) then (MissingFields, rows)
    else
      match ResolveScope(enrollmentId, enrollments, faults.enrollmentLookup)
      case EnrollmentMissing => (EnrollmentNotFound, rows)
      case Scoped(scope) =>
        var existing := if faults.lockLookup then None
                        else Single(MatchingLocks(rows, registerNumber.value, scope));
        if existing.Some? then (AlreadyLocked(scope.PerBatch?), rows)
        else if faults.insert then (InsertFailed, rows)
        else
          var row := NewLock(registerNumber.value, paymentType.value, scope);
          (Locked(row), rows + [row])
  }

  datatype ReadOutcome =
    | ReadEnrollmentNotFound  // 404 "Enrollment not found"
    | NotLocked               // 404 "Not locked yet"
    | Found(row: LockRow)     // 200

  /** getLockedPaymentMode: the single lock of the student in the request's
      scope; a lookup error, no row or several rows read as not locked. */
  function LockedMode(rows: seq<LockRow>, registerNumber: string, enrollmentId: Option<string>,
                      enrollments: seq<EnrollmentBatch>, enrollmentLookupFails: bool,
                      lockLookupFails: bool): (r: ReadOutcome)
    ensures r.ReadEnrollmentNotFound? <==>
              ResolveScope(enrollmentId, enrollments, enrollmentLookupFails).EnrollmentMissing?
    ensures r.Found? ==>
              && !lockLookupFails
              && MatchingLocks(rows, registerNumber, ResolveScope(enrollmentId, enrollments, enrollmentLookupFails).scope) == [r.row]
    ensures ResolveScope(enrollmentId, enrollments, enrollmentLookupFails).Scoped? && !lockLookupFails
            && |MatchingLocks(rows, registerNumber, ResolveScope(enrollmentId, enrollments, enrollmentLookupFails).scope)| == 1 ==>
              r == Found(MatchingLocks(rows, registerNumber, ResolveScope(enrollmentId, enrollments, enrollmentLookupFails).scope)[0])
    ensures r.NotLocked? <==>
              && ResolveScope(enrollmentId, enrollments, enrollmentLookupFails).Scoped?
              && (lockLookupFails
                  || |MatchingLocks(rows, registerNumber, ResolveScope(enrollmentId, enrollments, enrollmentLookupFails).scope)| != 1)
  {
    match ResolveScope(enrollmentId, enrollments, enrollmentLookupFails)
    case EnrollmentMissing => ReadEnrollmentNotFound
    case Scoped(scope) =>
      var found := if lockLookupFails then None else Single(MatchingLocks(rows, registerNumber, scope));
      if found.Some? then Found(found.value) else NotLocked
  }

  /** The intended table invariant: at most one lock per student and scope. */
  predicate OneLockPerKey(rows: seq<LockRow>) {
    forall i, j :: 0 <= i < j < |rows| ==>
      rows[i].registerNumber != rows[j].registerNumber || rows[i].batchId != rows[j].batchId
  }

  lemma {:induction false} NoMatch(rows: seq<LockRow>, registerNumber: string, scope: Scope)
    requires forall k :: 0 <= k < |rows| ==> !InScope(rows[k], registerNumber, scope)
    ensures MatchingLocks(rows, registerNumber, scope) == []
  {
    if rows != [] {
      NoMatch(rows[..|rows| - 1], registerNumber, scope);
    }
  }

  lemma {:induction false} AtMostOneMatch(rows: seq<LockRow>, registerNumber: string, scope: Scope)
    requires OneLockPerKey(rows)
    ensures |MatchingLocks(rows, registerNumber, scope)| <= 1
  {
    if rows != [] {
      var init := rows[..|rows| - 1];
      var last := rows[|rows| - 1];
      assert OneLockPerKey(init) by {
        forall i, j | 0 <= i < j < |init|
          ensures init[i].registerNumber != init[j].registerNumber || init[i].batchId != init[j].batchId
        {
          assert init[i] == rows[i] && init[j] == rows[j];
        }
      }
      AtMostOneMatch(init, registerNumber, scope);
      if InScope(last, registerNumber, scope) {
        forall k | 0 <= k < |init| ensures !InScope(init[k], registerNumber, scope) {
          assert rows[k] == init[k];
        }
        NoMatch(init, registerNumber, scope);
      }
    }
  }

  lemma {:induction false} NoMatchOnceAppended(rows: seq<LockRow>, row: LockRow)
    requires MatchingLocks(rows, row.registerNumber, ScopeOf(row)) == []
    ensures forall i :: 0 <= i < |rows| ==>
              rows[i].registerNumber != row.registerNumber || rows[i].batchId != row.batchId
  {
    forall i | 0 <= i < |rows|
      ensures rows[i].registerNumber != row.registerNumber || rows[i].batchId != row.batchId
    {
      assert rows[i] in rows;
    }
  }

  /** The scope a lock row belongs to. */
  function ScopeOf(row: LockRow): (scope: Scope)
    ensures InScope(row, row.registerNumber, scope)
  {
    if row.batchId.Some? then PerBatch(row.batchId.value) else Global
  }

  /** A lock whose existence check ran keeps at most one lock per student
      and scope. */
  lemma LockKeepsOneLockPerKey(rows: seq<LockRow>, registerNumber: Option<string>, paymentType: Option<string>,
                               enrollmentId: Option<string>, enrollments: seq<EnrollmentBatch>,
                               faults: LockFaults)
    requires OneLockPerKey(rows)
    requires !faults.lockLookup
    ensures OneLockPerKey(LockSpec(rows, registerNumber, paymentType, enrollmentId, enrollments, faults).1)
  {
    var r := LockSpec(rows, registerNumber, paymentType, enrollmentId, enrollments, faults);
    if r.0.Locked? {
      var scope := ResolveScope(enrollmentId, enrollments, faults.enrollmentLookup).scope;
      var row := NewLock(registerNumber.value, paymentType.value, scope);
      AtMostOneMatch(rows, registerNumber.value, scope);
      assert ScopeOf(row) == scope;
      NoMatchOnceAppended(rows, row);
      assert r.1 == rows + [row];
    }
  }

  /** Create-once: after a lock is taken, every later request for the same
      student and enrollment is refused with 409, whatever mode it asks for. */
  lemma LockOnce(rows: seq<LockRow>, registerNumber: Option<string>, paymentType: Option<string>,
                 laterType: Option<string>, enrollmentId: Option<string>,
                 enrollments: seq<EnrollmentBatch>, faults: LockFaults)
    requires OneLockPerKey(rows)
    requires !faults.enrollmentLookup && !faults.lockLookup
    requires LockSpec(rows, registerNumber, paymentType, enrollmentId, enrollments, faults).0.Locked?
    requires Present(laterType)
    ensures LockSpec(LockSpec(rows, registerNumber, paymentType, enrollmentId, enrollments, faults).1,
                     registerNumber, laterType, enrollmentId, enrollments, faults).0.AlreadyLocked?
  {
    var scope := ResolveScope(enrollmentId, enrollments, false).scope;
    var row := NewLock(registerNumber.value, paymentType.value, scope);
    AtMostOneMatch(rows, registerNumber.value, scope);
    var after := rows + [row];
    assert after[..|after| - 1] == rows;
    assert MatchingLocks(after, registerNumber.value, scope) == [row];
  }

  /** A lock, once taken, is what the read handler reports for that student
      and enrollment. */
  lemma LockThenRead(rows: seq<LockRow>, registerNumber: Option<string>, paymentType: Option<string>,
                     enrollmentId: Option<string>, enrollments: seq<EnrollmentBatch>, faults: LockFaults)
    requires OneLockPerKey(rows)
    requires !faults.enrollmentLookup && !faults.lockLookup
    requires LockSpec(rows, registerNumber, paymentType, enrollmentId, enrollments, faults).0.Locked?
    ensures LockedMode(LockSpec(rows, registerNumber, paymentType, enrollmentId, enrollments, faults).1,
                       registerNumber.value, enrollmentId, enrollments, false, false)
            == Found(LockSpec(rows, registerNumber, paymentType, enrollmentId, enrollments, faults).0.row)
  {
    var scope := ResolveScope(enrollmentId, enrollments, false).scope;
    var row := NewLock(registerNumber.value, paymentType.value, scope);
    AtMostOneMatch(rows, registerNumber.value, scope);
    var after := rows + [row];
    assert after[..|after| - 1] == rows;
    assert MatchingLocks(after, registerNumber.value, scope) == [row];
  }

  /** Global and per-batch locks never block each other: a lock of one kind
      leaves the other kind's query unchanged. */
  lemma {:induction false} ScopesIndependent(rows: seq<LockRow>, row: LockRow, registerNumber: string, scope: Scope)
    requires row.batchId.None? <==> scope.PerBatch?
    ensures MatchingLocks(rows + [row], registerNumber, scope) == MatchingLocks(rows, registerNumber, scope)
  {
    assert (rows + [row])[..|rows|] == rows;
  }

  /** The existence check ignores its own error: with the lookup failing, an
      existing lock does not stop a second row for the same key. */
  lemma LookupErrorAllowsSecondLock()
    ensures var rows := [LockRow("R1", "full", None)];
            var r := LockSpec(rows, Some("R1"), Some("emi"), None, [], LockFaults(false, true, false));
            r.0.Locked? && !OneLockPerKey(r.1)
  {
    var rows := [LockRow("R1", "full", None)];
    var r := LockSpec(rows, Some("R1"), Some("emi"), None, [], LockFaults(false, true, false));
    assert r.1 == rows + [LockRow("R1", "emi", None)];
    assert r.1[0].registerNumber == r.1[1].registerNumber && r.1[0].batchId == r.1[1].batchId;
  }

  /** The lock table of `student_payment_lock`. */
  class LockTable {
    var rows: seq<LockRow>

    constructor(initial: seq<LockRow>)
      ensures rows == initial
    {
      rows := initial;
    }

    /** lockPaymentMode. */
    method Lock(registerNumber: Option<string>, paymentType: Option<string>, enrollmentId: Option<string>,
                enrollments: seq<EnrollmentBatch>, faults: LockFaults) returns (r: LockOutcome)
      modifies this
      ensures (r, rows) == LockSpec(old(rows), registerNumber, paymentType, enrollmentId, enrollments, faults)
    {
      if !Present(registerNumber) || !Present(paymentType) {
        return MissingFields;
      }
      var resolved := ResolveScope(enrollmentId, enrollments, faults.enrollmentLookup);
      if resolved.EnrollmentMissing? {
        return EnrollmentNotFound;
      }
      var existing: Option<LockRow> := None;
      if !faults.lockLookup {
        existing := Single(MatchingLocks(rows, registerNumber.value, resolved.scope));
      }
      if existing.Some? {
        return AlreadyLocked(resolved.scope.PerBatch?);
      }
      if faults.insert {
        return InsertFailed;
      }
      var row := NewLock(registerNumber.value, paymentType.value, resolved.scope);
      rows := rows + [row];
      r := Locked(row);
    }

    /** getLockedPaymentMode: reads the table and changes nothing. */
    method GetLocked(registerNumber: string, enrollmentId: Option<string>, enrollments: seq<EnrollmentBatch>,
                     enrollmentLookupFails: bool, lockLookupFails: bool) returns (r: ReadOutcome)
      ensures r == LockedMode(rows, registerNumber, enrollmentId, enrollments, enrollmentLookupFails, lockLookupFails)
    {
      var resolved := ResolveScope(enrollmentId, enrollments, enrollmentLookupFails);
      if resolved.EnrollmentMissing? {
        return ReadEnrollmentNotFound;
      }
      if lockLookupFails {
        return NotLocked;
      }
      var found := Single(MatchingLocks(rows, registerNumber, resolved.scope));
      r := if found.Some? then Found(found.value) else NotLocked;
    }
  }
}
