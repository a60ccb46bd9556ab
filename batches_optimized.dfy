/** The view-backed variant of the batch handlers,
    controllers/batchControllerOptimized.js: seat figures come from the
    `batch_seat_availability` view, whose rows are taken as given. */
module BatchesOptimized {
  import opened Common
  import opened Text
  import B = Batches

  /** A row of the seat-availability view; every column may be null. */
  datatype SeatRow = SeatRow(
    batchId: Id,
    batchName: string,
    maxStudents: Option<int>,
    enrolledStudents: Option<int>,
    availableSeats: Option<int>,
    isFull: Option<bool>)

  /** `view.find(av => av.batch_id === id)`: the first row for the batch. */
  function FindRow(view: seq<SeatRow>, id: Id): (r: Option<SeatRow>)
    ensures r.Some? ==> r.value in view && r.value.batchId == id
    ensures r.None? ==> forall row :: row in view ==> row.batchId != id
  {
    if view == [] then None
    else if view[0].batchId == id then Some(view[0])
    else FindRow(view[1..], id)
  }

  datatype SeatView = SeatView(batch: B.Batch, maxStudents: int, enrolledStudents: int, availableSeats: int, isFull: bool)

  /** The figures shown for one batch: view value, else batch value, else the
      defaults (10 seats, none taken, not full). */
  function MergeRow(b: B.Batch, row: Option<SeatRow>): (v: SeatView)
    ensures v.batch == b
    ensures row.None? ==>
      v.maxStudents == B.SeatSnapshot(b, [], false).maxStudents &&
      v.enrolledStudents == 0 &&
      v.availableSeats == v.maxStudents &&
      !v.isFull
    ensures v.isFull <==> row.Some? && row.value.isFull == Some(true)
    ensures v.maxStudents != 0 && v.availableSeats != 0
  {
    var maxOfView := if row.Some? then row.value.maxStudents else None;
    var enrolledOfView := if row.Some? then row.value.enrolledStudents else None;
    var availableOfView := if row.Some? then row.value.availableSeats else None;
    var batchMax := OrDefault(b.maxStudents, B.DefaultCapacity);
    SeatView(
      b,
      OrDefault(maxOfView, batchMax),
      OrDefault(enrolledOfView, 0),
      OrDefault(availableOfView, batchMax),
      row.Some? && row.value.isFull == Some(true))
  }

  predicate NotFull(v: SeatView) {
    !v.isFull
  }

  datatype ViewListing = ViewListing(batches: seq<SeatView>, totalBatches: nat, availableBatches: nat, fullBatches: int)

  datatype ViewListResult = CenterRequired | FetchFailed | Listed(listing: ViewListing)

  function CenterBatches(batches: seq<B.Batch>, center: Id): seq<B.Batch> {
    Filter(batches, (b: B.Batch) => b.center == center && B.ListedStatus(b.status))
  }

  function Merged(bs: seq<B.Batch>, view: seq<SeatRow>): (vs: seq<SeatView>)
    ensures |vs| == |bs|
    ensures forall i :: 0 <= i < |bs| ==> vs[i] == MergeRow(bs[i], FindRow(view, bs[i].batchId))
  {
    seq(|bs|, i requires 0 <= i < |bs| => MergeRow(bs[i], FindRow(view, bs[i].batchId)))
  }

  /** getBatchesByCenter over the view; a failed read of either source is a
      server error. */
  function ListByCenter(center: Option<Id>, batches: seq<B.Batch>, view: seq<SeatRow>, viewFails: bool, batchesFail: bool)
    : (r: ViewListResult)
    ensures r == CenterRequired <==> !Present(center)
    ensures r == FetchFailed <==> Present(center) && (viewFails || batchesFail)
    ensures r.Listed? ==> forall v :: v in r.listing.batches ==>
      !v.isFull && v.batch in batches && v.batch.center == center.value && B.ListedStatus(v.batch.status)
    ensures r.Listed? ==> forall b :: b in batches && b.center == center.value && B.ListedStatus(b.status) ==>
      (MergeRow(b, FindRow(view, b.batchId)) in r.listing.batches <==> !MergeRow(b, FindRow(view, b.batchId)).isFull)
    ensures r.Listed? ==> r.listing.totalBatches == |CenterBatches(batches, center.value)|
    ensures r.Listed? ==> r.listing.availableBatches == |r.listing.batches|
    ensures r.Listed? ==> r.listing.fullBatches == r.listing.totalBatches - r.listing.availableBatches >= 0
  {
    if !Present(center) then CenterRequired
    else if viewFails || batchesFail then FetchFailed
    else
      var mine := CenterBatches(batches, center.value);
      var vs := Merged(mine, view);
      var shown := Filter(vs, NotFull);
      assert forall b :: b in mine ==> MergeRow(b, FindRow(view, b.batchId)) in vs by {
        forall b | b in mine ensures MergeRow(b, FindRow(view, b.batchId)) in vs {
          var i :| 0 <= i < |mine| && mine[i] == b;
          assert vs[i] == MergeRow(b, FindRow(view, b.batchId));
        }
      }
      assert forall v :: v in vs ==> v.batch in mine by {
        forall v | v in vs ensures v.batch in mine {
          var i :| 0 <= i < |vs| && vs[i] == v;
        }
      }
      Listed(ViewListing(shown, |mine|, |shown|, |mine| - |shown|))
  }

  /** A full batch is never listed, even to a student enrolled in it: the
      listing does not look at the student at all. */
  lemma FullNeverListed(center: Id, batches: seq<B.Batch>, view: seq<SeatRow>, b: B.Batch)
    requires center != "" && b in batches && b.center == center && B.ListedStatus(b.status)
    requires FindRow(view, b.batchId).Some? && FindRow(view, b.batchId).value.isFull == Some(true)
    ensures forall v :: v in ListByCenter(Some(center), batches, view, false, false).listing.batches ==> v.batch != b
  {
  }

  // ---------------------------------------------------------------------
  // enrollStudent over the view
  // ---------------------------------------------------------------------

  /** Store failures: the duplicate lookup (ignored), the view lookup
      (reported as not found) and the insert (a server error). */
  datatype ViewEnrollFaults = ViewEnrollFaults(check: bool, lookup: bool, insert: bool)

  datatype ViewEnrollOutcome =
    | BatchIdRequired                        // 400
    | AlreadyEnrolled                        // 400
    | BatchNotFound                          // 404
    | BatchFull(maxStudents: Option<int>)    // 400, naming the maximum
    | EnrollFailed                           // 500: the insert error is thrown to the catch
    | Enrolled(batchName: string, seatsRemaining: int)  // 200

  function ViewRows(view: seq<SeatRow>, id: Id): seq<SeatRow> {
    Filter(view, (row: SeatRow) => row.batchId == id)
  }

  /** `is_full || available_seats <= 0`; a null seat count compares as 0. */
  predicate RowFull(row: SeatRow) {
    row.isFull == Some(true) || row.availableSeats.None? || row.availableSeats.value <= 0
  }

  /** The view read with `.single()` succeeds. */
  predicate ViewFound(view: seq<SeatRow>, batchId: Id, lookupFails: bool) {
    !lookupFails && |ViewRows(view, batchId)| == 1
  }

  /** enrollStudent over the view: the outcome and the table afterwards. The
      checks come in the source's order: batch id, duplicate, view row,
      capacity, insert. */
  function EnrollViaViewSpec(rows: seq<B.Enrollment>, nextId: nat, view: seq<SeatRow>, student: Id, batchId: Option<Id>, faults: ViewEnrollFaults)
    : (r: (ViewEnrollOutcome, seq<B.Enrollment>))
    ensures r.0 == BatchIdRequired <==> !Present(batchId)
    ensures r.0 == AlreadyEnrolled <==>
      Present(batchId) && B.DuplicateFound(rows, student, batchId.value, faults.check)
    ensures r.0 == BatchNotFound <==>
      Present(batchId) && !B.DuplicateFound(rows, student, batchId.value, faults.check)
      && !ViewFound(view, batchId.value, faults.lookup)
    ensures r.0.BatchFull? || r.0 == EnrollFailed || r.0.Enrolled? ==>
      Present(batchId) && !B.DuplicateFound(rows, student, batchId.value, faults.check)
      && ViewFound(view, batchId.value, faults.lookup)
    ensures Present(batchId) && !B.DuplicateFound(rows, student, batchId.value, faults.check)
            && ViewFound(view, batchId.value, faults.lookup) ==>
      var row := ViewRows(view, batchId.value)[0];
      && (r.0.BatchFull? <==> RowFull(row))
      && (r.0.BatchFull? ==> r.0.maxStudents == row.maxStudents)
      && (r.0 == EnrollFailed <==> !RowFull(row) && faults.insert)
      && (r.0.Enrolled? <==> !RowFull(row) && !faults.insert)
      && (r.0.Enrolled? ==>
            && r.0 == Enrolled(row.batchName, row.availableSeats.value - 1)
            && r.0.seatsRemaining >= 0)
    ensures !r.0.Enrolled? ==> r.1 == rows
    ensures r.0.Enrolled? ==> r.1 == rows + [B.Enrollment(nextId, student, batchId.value, false, false, None)]
  {
    if !Present(batchId) then (BatchIdRequired, rows)
    else
      var id := batchId.value;
      if !faults.check && Single(B.MatchingRows(rows, student, id)).Some? then (AlreadyEnrolled, rows)
      else
        var found := Single(ViewRows(view, id));
        if faults.lookup || found.None? then (BatchNotFound, rows)
        else
          var row := found.value;
          if RowFull(row) then (BatchFull(row.maxStudents), rows)
          else if faults.insert then (EnrollFailed, rows)
          else (Enrolled(row.batchName, row.availableSeats.value - 1), rows + [B.Enrollment(nextId, student, id, false, false, None)])
  }

  /** The duplicate check comes before the existence check, which comes
      before the capacity check. */
  lemma ViewEnrollOrder(rows: seq<B.Enrollment>, nextId: nat, view: seq<SeatRow>, student: Id, batchId: Id, faults: ViewEnrollFaults)
    requires batchId != "" && !faults.check && !faults.lookup
    ensures var r := EnrollViaViewSpec(rows, nextId, view, student, Some(batchId), faults).0;
      (|B.MatchingRows(rows, student, batchId)| == 1 ==> r == AlreadyEnrolled) &&
      (|B.MatchingRows(rows, student, batchId)| != 1 && |ViewRows(view, batchId)| != 1 ==> r == BatchNotFound) &&
      (|B.MatchingRows(rows, student, batchId)| != 1 && |ViewRows(view, batchId)| == 1 && RowFull(ViewRows(view, batchId)[0]) ==>
        r == BatchFull(ViewRows(view, batchId)[0].maxStudents))
  {
  }

  method EnrollViaView(t: B.EnrollmentTable, view: seq<SeatRow>, student: Id, batchId: Option<Id>, faults: ViewEnrollFaults)
    returns (r: ViewEnrollOutcome)
    requires t.Valid()
    modifies t
    ensures t.Valid()
    ensures (r, t.rows) == EnrollViaViewSpec(old(t.rows), old(t.nextId), view, student, batchId, faults)
    ensures t.nextId == if r.Enrolled? then old(t.nextId) + 1 else old(t.nextId)
  {
    if !Present(batchId) {
      return BatchIdRequired;
    }
    var id := batchId.value;
    if !faults.check && Single(B.MatchingRows(t.rows, student, id)).Some? {
      return AlreadyEnrolled;
    }
    var found := Single(ViewRows(view, id));
    if faults.lookup || found.None? {
      return BatchNotFound;
    }
    var row := found.value;
    if RowFull(row) {
      return BatchFull(row.maxStudents);
    }
    if faults.insert {
      return EnrollFailed;
    }
    t.rows := t.rows + [B.Enrollment(t.nextId, student, id, false, false, None)];
    t.nextId := t.nextId + 1;
    r := Enrolled(row.batchName, row.availableSeats.value - 1);
  }

  // ---------------------------------------------------------------------
  // getEnrolledBatches: expiry gated on status
  // ---------------------------------------------------------------------

  /** As `B.ExpireRows`, but a row is only written when its status is true. */
  function ExpireRowsGated(rows: seq<B.Enrollment>, ids: set<nat>, today: string): (r: seq<B.Enrollment>)
    ensures |r| == |rows|
    ensures forall k :: 0 <= k < |r| ==> r[k].enrollmentId == rows[k].enrollmentId
  {
    seq(|rows|, i requires 0 <= i < |rows| =>
      if rows[i].enrollmentId in ids && B.Expired(rows[i], today) && rows[i].status then rows[i].(status := false) else rows[i])
  }

  function ExpireLocalGated(listed: seq<B.Enrollment>, today: string): (r: seq<B.Enrollment>)
    ensures |r| == |listed|
  {
    seq(|listed|, i requires 0 <= i < |listed| =>
      if B.Expired(listed[i], today) && listed[i].status then listed[i].(status := false) else listed[i])
  }

  /** Gating on status changes nothing in the outcome: the table and the
      response end up exactly as with the unconditional expiry. */
  lemma GatedExpiryAgrees(rows: seq<B.Enrollment>, listed: seq<B.Enrollment>, ids: set<nat>, today: string)
    ensures ExpireRowsGated(rows, ids, today) == B.ExpireRows(rows, ids, today)
    ensures ExpireLocalGated(listed, today) == B.ExpireLocal(listed, today)
  {
    assert forall i :: 0 <= i < |rows| ==> ExpireRowsGated(rows, ids, today)[i] == B.ExpireRows(rows, ids, today)[i];
    assert forall i :: 0 <= i < |listed| ==> ExpireLocalGated(listed, today)[i] == B.ExpireLocal(listed, today)[i];
  }

  lemma GatedStep(old0: seq<B.Enrollment>, listed: seq<B.Enrollment>, i: nat, today: string, failing: set<nat>)
    requires B.UniqueIds(old0) && i < |listed|
    requires forall e :: e in listed ==> e in old0
    ensures var e := listed[i];
      var rowsBefore := ExpireRowsGated(old0, B.EnrollmentIds(listed[..i]) - failing, today);
      ExpireRowsGated(old0, B.EnrollmentIds(listed[..i + 1]) - failing, today) ==
        if Present(e.endDate) && StrLess(e.endDate.value, today) && e.status && !e.isPermanent && e.enrollmentId !in failing
        then B.SetStatusFalse(rowsBefore, e.enrollmentId) else rowsBefore
    ensures var e := listed[i];
      ExpireLocalGated(listed[..i + 1], today) ==
        ExpireLocalGated(listed[..i], today) +
        [if Present(e.endDate) && StrLess(e.endDate.value, today) && e.status && !e.isPermanent then e.(status := false) else e]
  {
    var e := listed[i];
    var done := B.EnrollmentIds(listed[..i]) - failing;
    assert listed[..i + 1] == listed[..i] + [e];
    assert B.EnrollmentIds(listed[..i + 1]) == B.EnrollmentIds(listed[..i]) + {e.enrollmentId};
    assert B.EnrollmentIds(listed[..i + 1]) - failing == if e.enrollmentId in failing then done else done + {e.enrollmentId};
    assert e in listed;
    var k :| 0 <= k < |old0| && old0[k] == e;
    forall j | 0 <= j < |old0| && old0[j].enrollmentId == e.enrollmentId
      ensures j == k
    {
    }
  }

  /** getEnrolledBatches of the view-backed controller; as in
      `B.EnrollmentTable.ListEnrolled`, a failing update is ignored. */
  method ListEnrolledGated(t: B.EnrollmentTable, student: Id, batches: seq<B.Batch>, today: string, queryFails: bool,
                           updateFails: set<nat>)
    returns (r: Option<seq<B.Enrollment>>)
    requires t.Valid()
    modifies t
    ensures t.Valid() && t.nextId == old(t.nextId)
    ensures queryFails ==> r == None && t.rows == old(t.rows)
    ensures !queryFails ==>
      var listed := B.StudentListing(old(t.rows), student, batches);
      r == Some(ExpireLocalGated(listed, today)) &&
      t.rows == ExpireRowsGated(old(t.rows), B.EnrollmentIds(listed) - updateFails, today)
  {
    if queryFails {
      return None;
    }
    var listed := B.StudentListing(t.rows, student, batches);
    var out: seq<B.Enrollment> := [];
    var i := 0;
    while i < |listed|
      invariant 0 <= i <= |listed|
      invariant t.Valid() && t.nextId == old(t.nextId)
      invariant t.rows == ExpireRowsGated(old(t.rows), B.EnrollmentIds(listed[..i]) - updateFails, today)
      invariant out == ExpireLocalGated(listed[..i], today)
    {
      var e := listed[i];
      GatedStep(old(t.rows), listed, i, today, updateFails);
      if Present(e.endDate) && StrLess(e.endDate.value, today) && e.status && !e.isPermanent {
        if e.enrollmentId !in updateFails {
          t.rows := B.SetStatusFalse(t.rows, e.enrollmentId);
        }
        out := out + [e.(status := false)];
      } else {
        out := out + [e];
      }
      i := i + 1;
    }
    assert listed[..i] == listed;
    r := Some(out);
  }
}
