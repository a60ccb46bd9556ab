/** Batch listing with seat occupancy, student enrollment and the lazy expiry
    of enrollments, as controllers/batchController.js performs them against
    the `batches` and `enrollment` tables. */
module Batches {
  import opened Common
  import opened Text

  datatype Batch = Batch(
    batchId: Id,
    center: Id,
    status: string,
    maxStudents: Option<int>,
    courseName: Option<string>,
    batchName: string)

  datatype Enrollment = Enrollment(
    enrollmentId: nat,
    student: Id,
    batch: Id,
    status: bool,
    isPermanent: bool,
    endDate: Option<string>)

  /** Capacity of a batch whose `max_students` is null or 0. */
  const DefaultCapacity: int := 10

  /** Courses whose enrollments are approved at once and never expire. */
  const FreeCourses: seq<string> := ["ON-GR-FL-A1", "ON-FR-FL-A1"]

  // ---------------------------------------------------------------------
  // The combined list: a JavaScript Map keyed by batch id
  // ---------------------------------------------------------------------

  /** The batch ids of a list, in order. */
  function IdsOf(bs: seq<Batch>): (ids: seq<Id>)
    ensures |ids| == |bs| && forall i :: 0 <= i < |bs| ==> ids[i] == bs[i].batchId
  {
    seq(|bs|, i requires 0 <= i < |bs| => bs[i].batchId)
  }

  predicate Distinct(ids: seq<Id>) {
    forall i, j :: 0 <= i < j < |ids| ==> ids[i] != ids[j]
  }

  /** A JavaScript `Map` from batch id to batch: its keys in insertion order
      and its entries. */
  datatype BatchMap = BatchMap(keys: seq<Id>, entries: map<Id, Batch>)

  ghost predicate WellFormed(m: BatchMap) {
    Distinct(m.keys) &&
    (forall k :: k in m.entries <==> k in m.keys) &&
    (forall k :: k in m.entries ==> m.entries[k].batchId == k)
  }

  /** `map.set(b.batch_id, b)`: an existing key keeps its place. */
  function MapSet(m: BatchMap, b: Batch): BatchMap {
    if b.batchId in m.entries then BatchMap(m.keys, m.entries[b.batchId := b])
    else BatchMap(m.keys + [b.batchId], m.entries[b.batchId := b])
  }

  /** `map.values()`, in key order. */
  function Values(m: BatchMap): (vs: seq<Batch>)
    requires WellFormed(m)
    ensures |vs| == |m.keys| && forall i :: 0 <= i < |vs| ==> vs[i] == m.entries[m.keys[i]]
  {
    seq(|m.keys|, i requires 0 <= i < |m.keys| => m.entries[m.keys[i]])
  }

  lemma MapSetSpec(m: BatchMap, b: Batch)
    requires WellFormed(m)
    ensures WellFormed(MapSet(m, b))
    ensures MapSet(m, b).entries.Keys == m.entries.Keys + {b.batchId}
    ensures MapSet(m, b).keys[..|m.keys|] == m.keys
  {
  }

  /** `approved.forEach(b => map.set(b.batch_id, b))`, written from the end. */
  function SetAll(bs: seq<Batch>): BatchMap
    decreases |bs|
  {
    if bs == [] then BatchMap([], map[]) else MapSet(SetAll(bs[..|bs| - 1]), bs[|bs| - 1])
  }

  /** `enrolled.forEach(b => { if (!map.has(b.batch_id)) map.set(b.batch_id, b) })`. */
  function AddAbsent(m: BatchMap, bs: seq<Batch>): BatchMap
    decreases |bs|
  {
    if bs == [] then m
    else
      var before := AddAbsent(m, bs[..|bs| - 1]);
      var b := bs[|bs| - 1];
      if b.batchId in before.entries then before else MapSet(before, b)
  }

  lemma SetAllSpec(bs: seq<Batch>)
    ensures WellFormed(SetAll(bs))
    ensures forall k :: k in SetAll(bs).entries <==> k in IdsOf(bs)
    ensures forall k :: k in SetAll(bs).entries ==> SetAll(bs).entries[k] in bs
  {
    SetAllShape(bs);
    SetAllFrom(bs);
  }

  /** The approved pass holds exactly the approved ids. */
  lemma {:induction false} SetAllShape(bs: seq<Batch>)
    ensures WellFormed(SetAll(bs))
    ensures forall k :: k in SetAll(bs).entries <==> k in IdsOf(bs)
    decreases |bs|
  {
    if bs != [] {
      var init := bs[..|bs| - 1];
      var last := bs[|bs| - 1];
      SetAllShape(init);
      MapSetSpec(SetAll(init), last);
      assert IdsOf(bs) == IdsOf(init) + [last.batchId];
    }
  }

  /** Every entry of the approved pass is an approved row. */
  lemma {:induction false} SetAllFrom(bs: seq<Batch>)
    ensures forall k :: k in SetAll(bs).entries ==> SetAll(bs).entries[k] in bs
    decreases |bs|
  {
    if bs != [] {
      var init := bs[..|bs| - 1];
      SetAllFrom(init);
      assert forall x :: x in init ==> x in bs;
    }
  }

  /** With distinct ids every `set` appends, so the keys are the ids in order. */
  lemma {:induction false} SetAllKeys(bs: seq<Batch>)
    requires Distinct(IdsOf(bs))
    ensures SetAll(bs).keys == IdsOf(bs)
    decreases |bs|
  {
    if bs != [] {
      var init := bs[..|bs| - 1];
      var last := bs[|bs| - 1];
      assert IdsOf(bs) == IdsOf(init) + [last.batchId];
      assert Distinct(IdsOf(init));
      SetAllKeys(init);
      SetAllSpec(init);
      assert last.batchId !in IdsOf(init);
    }
  }

  lemma AddAbsentSpec(m: BatchMap, bs: seq<Batch>)
    requires WellFormed(m)
    ensures WellFormed(AddAbsent(m, bs))
    ensures forall k :: k in AddAbsent(m, bs).entries <==> k in m.entries || k in IdsOf(bs)
    ensures forall k :: k in m.entries ==> AddAbsent(m, bs).entries[k] == m.entries[k]
    ensures forall k :: k in AddAbsent(m, bs).entries && k !in m.entries ==> AddAbsent(m, bs).entries[k] in bs
    ensures |AddAbsent(m, bs).keys| >= |m.keys| && AddAbsent(m, bs).keys[..|m.keys|] == m.keys
  {
    AddAbsentShape(m, bs);
    AddAbsentValues(m, bs);
  }

  /** The keys after the enrolled pass: the earlier ones first, then the
      ids of the enrolled list. */
  lemma {:induction false} AddAbsentShape(m: BatchMap, bs: seq<Batch>)
    requires WellFormed(m)
    ensures WellFormed(AddAbsent(m, bs))
    ensures forall k :: k in AddAbsent(m, bs).entries <==> k in m.entries || k in IdsOf(bs)
    ensures |AddAbsent(m, bs).keys| >= |m.keys| && AddAbsent(m, bs).keys[..|m.keys|] == m.keys
    decreases |bs|
  {
    if bs != [] {
      var init := bs[..|bs| - 1];
      var last := bs[|bs| - 1];
      AddAbsentShape(m, init);
      MapSetSpec(AddAbsent(m, init), last);
      assert IdsOf(bs) == IdsOf(init) + [last.batchId];
    }
  }

  /** The enrolled pass keeps every earlier entry and adds only rows of
      the enrolled list. */
  lemma {:induction false} AddAbsentValues(m: BatchMap, bs: seq<Batch>)
    requires WellFormed(m)
    ensures forall k :: k in m.entries ==> k in AddAbsent(m, bs).entries && AddAbsent(m, bs).entries[k] == m.entries[k]
    ensures forall k :: k in AddAbsent(m, bs).entries && k !in m.entries ==> AddAbsent(m, bs).entries[k] in bs
    decreases |bs|
  {
    if bs != [] {
      var init := bs[..|bs| - 1];
      var last := bs[|bs| - 1];
      AddAbsentValues(m, init);
      assert forall x :: x in init ==> x in bs;
    }
  }

  /** The Map after both passes. */
  function CombinedMap(approved: seq<Batch>, enrolled: seq<Batch>): (m: BatchMap)
    ensures WellFormed(m)
  {
    SetAllSpec(approved);
    AddAbsentSpec(SetAll(approved), enrolled);
    AddAbsent(SetAll(approved), enrolled)
  }

  /** `Array.from(map.values())` after both passes. */
  function Union(approved: seq<Batch>, enrolled: seq<Batch>): seq<Batch> {
    Values(CombinedMap(approved, enrolled))
  }

  /** The combined list holds each batch id once, and its ids are those of
      both lists. */
  lemma UnionIds(approved: seq<Batch>, enrolled: seq<Batch>)
    ensures Distinct(IdsOf(Union(approved, enrolled)))
    ensures forall k :: k in IdsOf(Union(approved, enrolled)) <==> k in IdsOf(approved) || k in IdsOf(enrolled)
  {
    SetAllSpec(approved);
    AddAbsentSpec(SetAll(approved), enrolled);
    var m := CombinedMap(approved, enrolled);
    var u := Union(approved, enrolled);
    assert IdsOf(u) == m.keys;
  }

  lemma UnionEntry(approved: seq<Batch>, enrolled: seq<Batch>, x: Batch)
    requires x in Union(approved, enrolled)
    ensures var m := CombinedMap(approved, enrolled);
      x.batchId in m.entries && m.entries[x.batchId] == x
  {
    var u := Union(approved, enrolled);
    var i :| 0 <= i < |u| && u[i] == x;
  }

  /** A batch that is both approved and enrolled appears as its approved
      row; any other batch comes from the enrolled list. */
  lemma UnionRows(approved: seq<Batch>, enrolled: seq<Batch>)
    ensures forall x :: x in Union(approved, enrolled) && x.batchId in IdsOf(approved) ==> x in approved
    ensures forall x :: x in Union(approved, enrolled) && x.batchId !in IdsOf(approved) ==> x in enrolled
  {
    SetAllSpec(approved);
    AddAbsentSpec(SetAll(approved), enrolled);
    forall x | x in Union(approved, enrolled)
      ensures x.batchId in IdsOf(approved) ==> x in approved
      ensures x.batchId !in IdsOf(approved) ==> x in enrolled
    {
      UnionEntry(approved, enrolled, x);
    }
  }

  /** With distinct approved ids (they are keys of the table), the approved
      rows come first, in their own order. */
  lemma UnionPrefix(approved: seq<Batch>, enrolled: seq<Batch>)
    requires Distinct(IdsOf(approved))
    ensures |Union(approved, enrolled)| >= |approved| && Union(approved, enrolled)[..|approved|] == approved
  {
    var first := SetAll(approved);
    SetAllKeys(approved);
    SetAllSpec(approved);
    AddAbsentShape(first, enrolled);
    AddAbsentValues(first, enrolled);
    var m := CombinedMap(approved, enrolled);
    var u := Union(approved, enrolled);
    forall i | 0 <= i < |approved| ensures u[i] == approved[i] {
      assert m.keys[i] == first.keys[i] == approved[i].batchId;
      SetAllEntry(approved, i);
    }
  }

  /** With distinct ids, each approved row is the entry under its id. */
  lemma {:induction false} SetAllEntry(bs: seq<Batch>, i: nat)
    requires Distinct(IdsOf(bs)) && i < |bs|
    ensures bs[i].batchId in SetAll(bs).entries && SetAll(bs).entries[bs[i].batchId] == bs[i]
    decreases |bs|
  {
    var n := |bs| - 1;
    var init := bs[..n];
    if i < n {
      assert IdsOf(init) == IdsOf(bs)[..n];
      SetAllEntry(init, i);
      assert IdsOf(bs)[i] != IdsOf(bs)[n];
    }
  }

  /** The Map-building passes of the listing handler. */
  method CombineBatches(approved: seq<Batch>, enrolled: seq<Batch>) returns (combined: seq<Batch>)
    ensures combined == Union(approved, enrolled)
  {
    var m := BatchMap([], map[]);
    var i := 0;
    while i < |approved|
      invariant 0 <= i <= |approved|
      invariant m == SetAll(approved[..i])
    {
      assert approved[..i + 1][..i] == approved[..i];
      m := MapSet(m, approved[i]);
      i := i + 1;
    }
    assert approved[..i] == approved;
    SetAllSpec(approved);
    var j := 0;
    while j < |enrolled|
      invariant 0 <= j <= |enrolled|
      invariant m == AddAbsent(SetAll(approved), enrolled[..j])
    {
      assert enrolled[..j + 1][..j] == enrolled[..j];
      if enrolled[j].batchId !in m.entries {
        m := MapSet(m, enrolled[j]);
      }
      j := j + 1;
    }
    assert enrolled[..j] == enrolled;
    AddAbsentSpec(SetAll(approved), enrolled);
    combined := Values(m);
  }

  // ---------------------------------------------------------------------
  // Seat snapshot and visibility
  // ---------------------------------------------------------------------

  /** Every enrollment row of a batch, whatever its status. */
  function RowsOfBatch(rows: seq<Enrollment>, batchId: Id): seq<Enrollment> {
    Filter(rows, (e: Enrollment) => e.batch == batchId)
  }

  datatype Seats = Seats(maxStudents: int, enrolledStudents: nat, availableSeats: int, isFull: bool)

  /** The occupancy of one batch; a failed count query counts as no rows. */
  function SeatSnapshot(b: Batch, rows: seq<Enrollment>, countFails: bool): (s: Seats)
    ensures s.maxStudents == if b.maxStudents.Some? && b.maxStudents.value != 0 then b.maxStudents.value else DefaultCapacity
    ensures s.enrolledStudents == if countFails then 0 else |RowsOfBatch(rows, b.batchId)|
    ensures s.availableSeats == s.maxStudents - s.enrolledStudents
    ensures s.isFull <==> s.availableSeats <= 0
  {
    var max := OrDefault(b.maxStudents, DefaultCapacity);
    var enrolled := if countFails then 0 else |RowsOfBatch(rows, b.batchId)|;
    Seats(max, enrolled, max - enrolled, enrolled >= max)
  }

  datatype BatchView = BatchView(batch: Batch, seats: Seats, isStudentEnrolled: bool)

  function ViewOf(b: Batch, rows: seq<Enrollment>, countFails: set<Id>, enrolledIds: seq<Id>): BatchView {
    BatchView(b, SeatSnapshot(b, rows, b.batchId in countFails), b.batchId in enrolledIds)
  }

  function Views(bs: seq<Batch>, rows: seq<Enrollment>, countFails: set<Id>, enrolledIds: seq<Id>): (vs: seq<BatchView>)
    ensures |vs| == |bs|
    ensures forall i :: 0 <= i < |bs| ==> vs[i] == ViewOf(bs[i], rows, countFails, enrolledIds)
  {
    seq(|bs|, i requires 0 <= i < |bs| => ViewOf(bs[i], rows, countFails, enrolledIds))
  }

  /** Shown to the student: seats left, or the student is already in it. */
  predicate Shown(v: BatchView) {
    !v.seats.isFull || v.isStudentEnrolled
  }

  predicate Open(v: BatchView) {
    !v.seats.isFull
  }

  predicate StudentIn(v: BatchView) {
    v.isStudentEnrolled
  }

  predicate Hidden(v: BatchView) {
    v.seats.isFull && !v.isStudentEnrolled
  }

  datatype Listing = Listing(
    batches: seq<BatchView>,
    totalBatches: nat,
    availableBatches: nat,
    enrolledBatches: nat,
    fullBatches: int)

  /** The response body: the visible batches and the four counters. */
  function Summarise(views: seq<BatchView>): (r: Listing)
    ensures forall v :: v in r.batches <==> v in views && (!v.seats.isFull || v.isStudentEnrolled)
    ensures r.totalBatches == |views|
    ensures r.availableBatches == |Filter(views, Open)|
    ensures r.enrolledBatches == |Filter(views, StudentIn)|
    ensures r.fullBatches == |Filter(views, Hidden)|
  {
    var visible := Filter(views, Shown);
    FilterFilter(views, Open, Shown);
    FilterFilter(views, StudentIn, Shown);
    FilterPartition(views, Shown, Hidden);
    Listing(visible, |views|, |Filter(visible, Open)|, |Filter(visible, StudentIn)|, |views| - |visible|)
  }

  // ---------------------------------------------------------------------
  // getBatchesByCenter
  // ---------------------------------------------------------------------

  /** Store failures the listing handler reacts to: the approved-batch query
      (an error response), the student's enrollment ids and the enrolled
      batches (both treated as empty), and the per-batch counts (as 0). */
  datatype ListFaults = ListFaults(
    approvedQuery: bool,
    studentEnrollments: bool,
    enrolledBatches: bool,
    counts: set<Id>)

  datatype ListResult = CenterRequired | ApprovedQueryFailed | Listed(listing: Listing)

  function ApprovedOf(batches: seq<Batch>, center: Id): seq<Batch> {
    Filter(batches, (b: Batch) => b.center == center && b.status == "Approved")
  }

  /** The batch ids of all the student's enrollments, any status. */
  function EnrolledIdsOf(rows: seq<Enrollment>, student: Option<Id>, fails: bool): (ids: seq<Id>)
    ensures forall id :: id in ids <==>
      Present(student) && !fails && exists e :: e in rows && e.student == student.value && e.batch == id
  {
    if Present(student) && !fails then
      var mine := Filter(rows, (e: Enrollment) => e.student == student.value);
      var ids := seq(|mine|, i requires 0 <= i < |mine| => mine[i].batch);
      assert forall e :: e in mine ==> e.batch in ids by {
        forall e | e in mine ensures e.batch in ids {
          var i :| 0 <= i < |mine| && mine[i] == e;
          assert ids[i] == e.batch;
        }
      }
      assert forall id :: id in ids ==> exists e :: e in mine && e.batch == id by {
        forall id | id in ids ensures exists e :: e in mine && e.batch == id {
          var i :| 0 <= i < |ids| && ids[i] == id;
          assert mine[i] in mine;
        }
      }
      ids
    else []
  }

  function EnrolledBatchesOf(batches: seq<Batch>, ids: seq<Id>, fails: bool): seq<Batch> {
    if |ids| > 0 && !fails then Filter(batches, (b: Batch) => b.batchId in ids) else []
  }

  /** The batches considered for the listing, each with its seat snapshot. */
  function CombinedViews(center: Id, student: Option<Id>, batches: seq<Batch>, rows: seq<Enrollment>, faults: ListFaults): seq<BatchView> {
    var ids := EnrolledIdsOf(rows, student, faults.studentEnrollments);
    var combined := Union(ApprovedOf(batches, center), EnrolledBatchesOf(batches, ids, faults.enrolledBatches));
    Views(combined, rows, faults.counts, ids)
  }

  function ListBatches(center: Option<Id>, student: Option<Id>, batches: seq<Batch>, rows: seq<Enrollment>, faults: ListFaults): (r: ListResult)
    ensures r == CenterRequired <==> !Present(center)
    ensures r.Listed? <==> Present(center) && !faults.approvedQuery
    ensures r.Listed? ==> forall v :: v in r.listing.batches <==>
      v in CombinedViews(center.value, student, batches, rows, faults) && (!v.seats.isFull || v.isStudentEnrolled)
  {
    if !Present(center) then CenterRequired
    else if faults.approvedQuery then ApprovedQueryFailed
    else Listed(Summarise(CombinedViews(center.value, student, batches, rows, faults)))
  }

  method GetBatchesByCenter(center: Option<Id>, student: Option<Id>, batches: seq<Batch>, rows: seq<Enrollment>, faults: ListFaults)
    returns (r: ListResult)
    ensures r == ListBatches(center, student, batches, rows, faults)
  {
    if !Present(center) {
      return CenterRequired;
    }
    if faults.approvedQuery {
      return ApprovedQueryFailed;
    }
    var ids := EnrolledIdsOf(rows, student, faults.studentEnrollments);
    var combined := CombineBatches(ApprovedOf(batches, center.value), EnrolledBatchesOf(batches, ids, faults.enrolledBatches));
    r := Listed(Summarise(Views(combined, rows, faults.counts, ids)));
  }

  /** Batch ids are the table's primary key. */
  lemma SameIdSameBatch(batches: seq<Batch>, a: Batch, b: Batch)
    requires Distinct(IdsOf(batches)) && a in batches && b in batches && a.batchId == b.batchId
    ensures a == b
  {
    var i :| 0 <= i < |batches| && batches[i] == a;
    var j :| 0 <= j < |batches| && batches[j] == b;
    assert IdsOf(batches)[i] == IdsOf(batches)[j];
  }

  lemma InIdsOf(bs: seq<Batch>, k: Id)
    ensures k in IdsOf(bs) <==> exists x :: x in bs && x.batchId == k
  {
    if k in IdsOf(bs) {
      var i :| 0 <= i < |bs| && IdsOf(bs)[i] == k;
      assert bs[i] in bs;
    }
    if exists x :: x in bs && x.batchId == k {
      var x :| x in bs && x.batchId == k;
      var i :| 0 <= i < |bs| && bs[i] == x;
      assert IdsOf(bs)[i] == k;
    }
  }

  lemma ViewsIds(bs: seq<Batch>, rows: seq<Enrollment>, countFails: set<Id>, ids: seq<Id>, k: Id)
    ensures (exists v :: v in Views(bs, rows, countFails, ids) && v.batch.batchId == k) <==> k in IdsOf(bs)
  {
    var vs := Views(bs, rows, countFails, ids);
    if exists v :: v in vs && v.batch.batchId == k {
      var v :| v in vs && v.batch.batchId == k;
      var i :| 0 <= i < |vs| && vs[i] == v;
      assert IdsOf(bs)[i] == k;
    }
    if k in IdsOf(bs) {
      var i :| 0 <= i < |bs| && IdsOf(bs)[i] == k;
      assert vs[i] in vs;
    }
  }

  /** The batches considered are the center's approved ones and every batch
      the student has an enrollment in, whatever its center or status. */
  lemma CombinedCoverage(center: Id, student: Id, batches: seq<Batch>, rows: seq<Enrollment>, faults: ListFaults, b: Batch)
    requires Distinct(IdsOf(batches))
    requires student != "" && !faults.studentEnrollments && !faults.enrolledBatches && b in batches
    ensures (exists v :: v in CombinedViews(center, Some(student), batches, rows, faults) && v.batch.batchId == b.batchId) <==>
      (b.center == center && b.status == "Approved") ||
      (exists e :: e in rows && e.student == student && e.batch == b.batchId)
  {
    var ids := EnrolledIdsOf(rows, Some(student), faults.studentEnrollments);
    var approved := ApprovedOf(batches, center);
    var enrolled := EnrolledBatchesOf(batches, ids, faults.enrolledBatches);
    var combined := Union(approved, enrolled);
    ViewsIds(combined, rows, faults.counts, ids, b.batchId);
    UnionIds(approved, enrolled);
    InIdsOf(approved, b.batchId);
    InIdsOf(enrolled, b.batchId);
    if b.batchId in IdsOf(approved) {
      var x :| x in approved && x.batchId == b.batchId;
      SameIdSameBatch(batches, x, b);
    }
    if b.batchId in IdsOf(enrolled) {
      var x :| x in enrolled && x.batchId == b.batchId;
      SameIdSameBatch(batches, x, b);
    }
  }

  /** Each considered batch appears once. */
  lemma CombinedDistinct(center: Id, student: Option<Id>, batches: seq<Batch>, rows: seq<Enrollment>, faults: ListFaults)
    ensures var vs := CombinedViews(center, student, batches, rows, faults);
      forall i, j :: 0 <= i < j < |vs| ==> vs[i].batch.batchId != vs[j].batch.batchId
  {
    var ids := EnrolledIdsOf(rows, student, faults.studentEnrollments);
    var combined := Union(ApprovedOf(batches, center), EnrolledBatchesOf(batches, ids, faults.enrolledBatches));
    UnionIds(ApprovedOf(batches, center), EnrolledBatchesOf(batches, ids, faults.enrolledBatches));
    assert forall i :: 0 <= i < |combined| ==> IdsOf(combined)[i] == combined[i].batchId;
  }

  /** The seat snapshot of a considered batch is taken over all of its
      enrollment rows, and it is marked as the student's exactly when the
      student has an enrollment in it. */
  lemma CombinedSeats(center: Id, student: Id, batches: seq<Batch>, rows: seq<Enrollment>, faults: ListFaults, v: BatchView)
    requires student != "" && !faults.studentEnrollments
    requires v in CombinedViews(center, Some(student), batches, rows, faults)
    ensures v.seats == SeatSnapshot(v.batch, rows, v.batch.batchId in faults.counts)
    ensures v.isStudentEnrolled <==> exists e :: e in rows && e.student == student && e.batch == v.batch.batchId
  {
    var vs := CombinedViews(center, Some(student), batches, rows, faults);
    var i :| 0 <= i < |vs| && vs[i] == v;
  }

  /** A batch the student is enrolled in is listed even when it is full, in
      another center, or no longer Approved. */
  lemma EnrolledBatchListed(center: Id, student: Id, batches: seq<Batch>, rows: seq<Enrollment>, faults: ListFaults, b: Batch)
    requires Distinct(IdsOf(batches))
    requires !faults.approvedQuery && !faults.studentEnrollments && !faults.enrolledBatches
    requires b in batches && student != "" && center != ""
    requires exists e :: e in rows && e.student == student && e.batch == b.batchId
    ensures var r := ListBatches(Some(center), Some(student), batches, rows, faults);
      r.Listed? && exists v :: v in r.listing.batches && v.batch.batchId == b.batchId && v.isStudentEnrolled
  {
    var vs := CombinedViews(center, Some(student), batches, rows, faults);
    CombinedCoverage(center, student, batches, rows, faults, b);
    var v :| v in vs && v.batch.batchId == b.batchId;
    CombinedSeats(center, student, batches, rows, faults, v);
    var r := ListBatches(Some(center), Some(student), batches, rows, faults);
    assert r.Listed?;
    assert v.isStudentEnrolled;
    assert v in r.listing.batches;
  }

  // ---------------------------------------------------------------------
  // enrollStudent
  // ---------------------------------------------------------------------

  /** Store failures: the duplicate lookup (its error is ignored, so the
      check passes), the batch lookup (reported as not found), the seat count
      (counted as 0) and the insert. */
  datatype EnrollFaults = EnrollFaults(check: bool, lookup: bool, count: bool, insert: bool)

  datatype EnrollOutcome =
    | BatchIdRequired                // 400
    | AlreadyEnrolled                // 400
    | BatchNotFound                  // 404
    | BatchFull(maxStudents: int)    // 400, naming the maximum
    | InsertFailed                   // 400 with the store's message
    | Enrolled(batchName: string, seatsRemaining: int, isFreeCourse: bool)  // 200

  function MatchingRows(rows: seq<Enrollment>, student: Id, batchId: Id): seq<Enrollment> {
    Filter(rows, (e: Enrollment) => e.student == student && e.batch == batchId)
  }

  function BatchRows(batches: seq<Batch>, batchId: Id): seq<Batch> {
    Filter(batches, (b: Batch) => b.batchId == batchId)
  }

  predicate IsFreeCourse(b: Batch) {
    b.courseName.Some? && b.courseName.value in FreeCourses
  }

  /** The duplicate check finds the pair: `.single()` returns a row only
      when exactly one matches, and a failed lookup finds nothing. */
  predicate DuplicateFound(rows: seq<Enrollment>, student: Id, batchId: Id, checkFails: bool) {
    !checkFails && |MatchingRows(rows, student, batchId)| == 1
  }

  /** The batch read with `.single()` succeeds. */
  predicate BatchFound(batches: seq<Batch>, batchId: Id, lookupFails: bool) {
    !lookupFails && |BatchRows(batches, batchId)| == 1
  }

  /** `enrollments ? enrollments.length : 0`: every row of the batch,
      whatever its status; a failed count reads as 0. */
  function CurrentEnrollments(rows: seq<Enrollment>, batchId: Id, countFails: bool): nat {
    if countFails then 0 else |RowsOfBatch(rows, batchId)|
  }

  /** The enrollment handler over the table `rows`, whose next generated id
      is `nextId`: the outcome and the table afterwards. The checks come in
      the source's order: batch id, duplicate, batch lookup, capacity,
      insert. */
  function EnrollSpec(rows: seq<Enrollment>, nextId: nat, batches: seq<Batch>, student: Id, batchId: Option<Id>, faults: EnrollFaults)
    : (r: (EnrollOutcome, seq<Enrollment>))
    ensures r.0 == BatchIdRequired <==> !Present(batchId)
    ensures r.0 == AlreadyEnrolled <==>
      Present(batchId) && DuplicateFound(rows, student, batchId.value, faults.check)
    ensures r.0 == BatchNotFound <==>
      Present(batchId) && !DuplicateFound(rows, student, batchId.value, faults.check)
      && !BatchFound(batches, batchId.value, faults.lookup)
    ensures r.0.BatchFull? || r.0 == InsertFailed || r.0.Enrolled? ==>
      Present(batchId) && !DuplicateFound(rows, student, batchId.value, faults.check)
      && BatchFound(batches, batchId.value, faults.lookup)
    ensures Present(batchId) && !DuplicateFound(rows, student, batchId.value, faults.check)
            && BatchFound(batches, batchId.value, faults.lookup) ==>
      var b := BatchRows(batches, batchId.value)[0];
      var count := CurrentEnrollments(rows, batchId.value, faults.count);
      var max := OrDefault(b.maxStudents, DefaultCapacity);
      && (r.0.BatchFull? <==> count >= max)
      && (r.0.BatchFull? ==> r.0.maxStudents == max)
      && (r.0 == InsertFailed <==> count < max && faults.insert)
      && (r.0.Enrolled? <==> count < max && !faults.insert)
      && (r.0.Enrolled? ==>
            && r.0 == Enrolled(b.batchName, max - count - 1, IsFreeCourse(b))
            && r.1 == rows + [Enrollment(nextId, student, batchId.value, IsFreeCourse(b), IsFreeCourse(b), None)])
    ensures !r.0.Enrolled? ==> r.1 == rows
  {
    if !Present(batchId) then (BatchIdRequired, rows)
    else
      var id := batchId.value;
      if !faults.check && Single(MatchingRows(rows, student, id)).Some? then (AlreadyEnrolled, rows)
      else
        var found := Single(BatchRows(batches, id));
        if faults.lookup || found.None? then (BatchNotFound, rows)
        else
          var b := found.value;
          assert b in BatchRows(batches, id);
          var isFree := IsFreeCourse(b);
          var count := if faults.count then 0 else |RowsOfBatch(rows, id)|;
          var max := OrDefault(b.maxStudents, DefaultCapacity);
          if count >= max then (BatchFull(max), rows)
          else if faults.insert then (InsertFailed, rows)
          else (Enrolled(b.batchName, max - count - 1, isFree), rows + [Enrollment(nextId, student, id, isFree, isFree, None)])
  }

  /** At most one enrollment per (student, batch) pair. */
  predicate OnePerPair(rows: seq<Enrollment>) {
    forall i, j :: 0 <= i < j < |rows| ==> rows[i].student != rows[j].student || rows[i].batch != rows[j].batch
  }

  lemma OnePerPairMatches(rows: seq<Enrollment>, student: Id, batchId: Id)
    requires OnePerPair(rows)
    ensures |MatchingRows(rows, student, batchId)| <= 1
  {
    var m := MatchingRows(rows, student, batchId);
    if |m| > 1 {
      assert m[0] in m && m[1] in m;
      if m[0] == m[1] {
        FilterOrderDuplicate(rows, (e: Enrollment) => e.student == student && e.batch == batchId);
      }
    }
  }

  /** A filter can only repeat an element that the input repeats. */
  lemma {:induction false} FilterOrderDuplicate<T(!new)>(xs: seq<T>, p: T -> bool)
    requires |Filter(xs, p)| > 1 && Filter(xs, p)[0] == Filter(xs, p)[1]
    ensures exists i, j :: 0 <= i < j < |xs| && xs[i] == xs[j]
  {
    if p(xs[0]) {
      var rest := Filter(xs[1..], p);
      assert rest[0] == xs[0];
      assert rest[0] in xs[1..];
      var k :| 0 <= k < |xs[1..]| && xs[1..][k] == xs[0];
      assert xs[k + 1] == xs[0];
    } else {
      FilterOrderDuplicate(xs[1..], p);
      var i, j :| 0 <= i < j < |xs[1..]| && xs[1..][i] == xs[1..][j];
      assert xs[i + 1] == xs[j + 1];
    }
  }

  /** With a working duplicate check, enrolling keeps one row per pair. */
  lemma EnrollKeepsOnePerPair(rows: seq<Enrollment>, nextId: nat, batches: seq<Batch>, student: Id, batchId: Option<Id>, faults: EnrollFaults)
    requires OnePerPair(rows) && !faults.check
    ensures OnePerPair(EnrollSpec(rows, nextId, batches, student, batchId, faults).1)
  {
    var r := EnrollSpec(rows, nextId, batches, student, batchId, faults);
    if r.0.Enrolled? {
      var id := batchId.value;
      OnePerPairMatches(rows, student, id);
      assert |MatchingRows(rows, student, id)| == 0;
      assert forall i :: 0 <= i < |rows| ==> rows[i] !in MatchingRows(rows, student, id);
    }
  }

  /** Enrolling the same student in the same batch twice: the second attempt
      is rejected as a duplicate and leaves the table as the first left it. */
  lemma EnrollTwiceRejected(rows: seq<Enrollment>, nextId: nat, batches: seq<Batch>, student: Id, batchId: Option<Id>, faults: EnrollFaults, faults2: EnrollFaults)
    requires OnePerPair(rows) && !faults.check && !faults2.check
    requires EnrollSpec(rows, nextId, batches, student, batchId, faults).0.Enrolled?
    ensures var after := EnrollSpec(rows, nextId, batches, student, batchId, faults).1;
      EnrollSpec(after, nextId + 1, batches, student, batchId, faults2) == (AlreadyEnrolled, after)
  {
    var id := batchId.value;
    var r := EnrollSpec(rows, nextId, batches, student, batchId, faults);
    var e := BatchRows(batches, id)[0];
    OnePerPairMatches(rows, student, id);
    var p := (x: Enrollment) => x.student == student && x.batch == id;
    FilterConcat(rows, [Enrollment(nextId, student, id, IsFreeCourse(e), IsFreeCourse(e), None)], p);
    assert |MatchingRows(r.1, student, id)| == 1;
  }

  /** With a working seat count, a successful enrollment never takes a batch
      past its capacity. */
  lemma EnrollWithinCapacity(rows: seq<Enrollment>, nextId: nat, batches: seq<Batch>, student: Id, batchId: Option<Id>, faults: EnrollFaults, b: Batch)
    requires !faults.count && Present(batchId) && BatchRows(batches, batchId.value) == [b]
    requires EnrollSpec(rows, nextId, batches, student, batchId, faults).0.Enrolled?
    ensures var after := EnrollSpec(rows, nextId, batches, student, batchId, faults).1;
      |RowsOfBatch(after, batchId.value)| <= SeatSnapshot(b, rows, false).maxStudents &&
      |RowsOfBatch(after, batchId.value)| == |RowsOfBatch(rows, batchId.value)| + 1
  {
    var id := batchId.value;
    var r := EnrollSpec(rows, nextId, batches, student, batchId, faults);
    assert b in BatchRows(batches, id);
    var added := Enrollment(nextId, student, id, IsFreeCourse(b), IsFreeCourse(b), None);
    assert r.1 == rows + [added];
    FilterConcat(rows, [added], (e: Enrollment) => e.batch == id);
  }

  // ---------------------------------------------------------------------
  // getEnrolledBatches: lazy expiry on read
  // ---------------------------------------------------------------------

  predicate ListedStatus(status: string) {
    status == "Approved" || status == "Started" || status == "Completed"
  }

  function ListedBatchIds(batches: seq<Batch>): set<Id> {
    set b | b in batches && ListedStatus(b.status) :: b.batchId
  }

  /** The student's enrollments joined to a batch that is Approved, Started
      or Completed. */
  function StudentListing(rows: seq<Enrollment>, student: Id, batches: seq<Batch>): seq<Enrollment> {
    Filter(rows, (e: Enrollment) => e.student == student && e.batch in ListedBatchIds(batches))
  }

  /** Past its end date (text order of `YYYY-MM-DD`) and not permanent. */
  predicate Expired(e: Enrollment, today: string) {
    Present(e.endDate) && StrLess(e.endDate.value, today) && !e.isPermanent
  }

  function EnrollmentIds(es: seq<Enrollment>): set<nat> {
    set e | e in es :: e.enrollmentId
  }

  /** The table after `status = false` has been written to every expired row
      among those whose ids are in `ids`. */
  function ExpireRows(rows: seq<Enrollment>, ids: set<nat>, today: string): (r: seq<Enrollment>)
    ensures |r| == |rows|
    ensures forall k :: 0 <= k < |r| ==> r[k].enrollmentId == rows[k].enrollmentId
  {
    seq(|rows|, i requires 0 <= i < |rows| =>
      if rows[i].enrollmentId in ids && Expired(rows[i], today) then rows[i].(status := false) else rows[i])
  }

  /** The response objects after the loop has updated them. */
  function ExpireLocal(listed: seq<Enrollment>, today: string): (r: seq<Enrollment>)
    ensures |r| == |listed|
  {
    seq(|listed|, i requires 0 <= i < |listed| =>
      if Expired(listed[i], today) then listed[i].(status := false) else listed[i])
  }

  predicate UniqueIds(rows: seq<Enrollment>) {
    forall i, j :: 0 <= i < j < |rows| ==> rows[i].enrollmentId != rows[j].enrollmentId
  }

  /** `.update({status: false}).eq('enrollment_id', id)`. */
  function SetStatusFalse(rows: seq<Enrollment>, id: nat): (r: seq<Enrollment>)
    ensures |r| == |rows|
    ensures forall k :: 0 <= k < |r| ==> r[k].enrollmentId == rows[k].enrollmentId
  {
    seq(|rows|, i requires 0 <= i < |rows| =>
      if rows[i].enrollmentId == id then rows[i].(status := false) else rows[i])
  }

  /** Permanent rows are never expired; every other row only ever loses its
      status, and only when its end date is before today. */
  lemma ExpireRowsSpec(rows: seq<Enrollment>, ids: set<nat>, today: string)
    ensures forall i :: 0 <= i < |rows| && rows[i].isPermanent ==> ExpireRows(rows, ids, today)[i] == rows[i]
    ensures forall i :: 0 <= i < |rows| ==>
      (ExpireRows(rows, ids, today)[i].status <==>
         rows[i].status && !(rows[i].enrollmentId in ids && Expired(rows[i], today)))
    ensures forall i :: 0 <= i < |rows| ==>
      ExpireRows(rows, ids, today)[i] == rows[i].(status := ExpireRows(rows, ids, today)[i].status)
  {
  }

  /** Expiring twice is expiring once. */
  lemma ExpireIdempotent(rows: seq<Enrollment>, ids: set<nat>, today: string)
    ensures ExpireRows(ExpireRows(rows, ids, today), ids, today) == ExpireRows(rows, ids, today)
  {
  }

  /** Expiry changes no seat count: the count takes every row, any status. */
  lemma ExpireKeepsSeatCounts(rows: seq<Enrollment>, ids: set<nat>, today: string, b: Batch, countFails: bool)
    ensures SeatSnapshot(b, ExpireRows(rows, ids, today), countFails) == SeatSnapshot(b, rows, countFails)
  {
    FilterSameCount(ExpireRows(rows, ids, today), rows, (e: Enrollment) => e.batch == b.batchId);
  }

  /** Since the dates are zero-padded `YYYY-MM-DD` text, the string test the
      handler makes is the calendar test. */
  lemma ExpiredByCalendar(e: Enrollment, y: nat, m: nat, d: nat, ty: nat, tm: nat, td: nat)
    requires y < 10000 && m < 100 && d < 100 && ty < 10000 && tm < 100 && td < 100
    requires e.endDate == Some(IsoDateString(y, m, d))
    ensures Expired(e, IsoDateString(ty, tm, td)) <==> DateBefore(y, m, d, ty, tm, td) && !e.isPermanent
  {
    IsoDateOrder(y, m, d, ty, tm, td);
  }

  lemma ExpireStep(old0: seq<Enrollment>, done: set<nat>, e: Enrollment, today: string)
    requires UniqueIds(old0) && e in old0
    ensures Expired(e, today) ==>
      SetStatusFalse(ExpireRows(old0, done, today), e.enrollmentId) == ExpireRows(old0, done + {e.enrollmentId}, today)
    ensures !Expired(e, today) ==>
      ExpireRows(old0, done, today) == ExpireRows(old0, done + {e.enrollmentId}, today)
  {
    var k :| 0 <= k < |old0| && old0[k] == e;
    forall i | 0 <= i < |old0| && old0[i].enrollmentId == e.enrollmentId
      ensures i == k
    {
    }
  }

  /** One turn of the expiry loop over the listed enrollments; the update of
      an id in `failing` errors and writes nothing. */
  lemma ExpireLoopStep(old0: seq<Enrollment>, listed: seq<Enrollment>, i: nat, today: string, failing: set<nat>)
    requires UniqueIds(old0) && i < |listed|
    requires forall e :: e in listed ==> e in old0
    ensures var e := listed[i];
      var rowsBefore := ExpireRows(old0, EnrollmentIds(listed[..i]) - failing, today);
      ExpireRows(old0, EnrollmentIds(listed[..i + 1]) - failing, today) ==
        if Present(e.endDate) && StrLess(e.endDate.value, today) && !e.isPermanent && e.enrollmentId !in failing
        then SetStatusFalse(rowsBefore, e.enrollmentId) else rowsBefore
    ensures var e := listed[i];
      ExpireLocal(listed[..i + 1], today) ==
        ExpireLocal(listed[..i], today) +
        [if Present(e.endDate) && StrLess(e.endDate.value, today) && !e.isPermanent then e.(status := false) else e]
  {
    var e := listed[i];
    assert listed[..i + 1] == listed[..i] + [e];
    assert EnrollmentIds(listed[..i + 1]) == EnrollmentIds(listed[..i]) + {e.enrollmentId};
    assert e in listed;
    if e.enrollmentId in failing {
      assert EnrollmentIds(listed[..i + 1]) - failing == EnrollmentIds(listed[..i]) - failing;
    } else {
      assert EnrollmentIds(listed[..i + 1]) - failing == (EnrollmentIds(listed[..i]) - failing) + {e.enrollmentId};
      ExpireStep(old0, EnrollmentIds(listed[..i]) - failing, e, today);
    }
  }

  /** The update's error is ignored: an expired listed row whose update fails
      keeps its status in the table while the response shows it as false. */
  lemma FailedUpdateDiverges(rows: seq<Enrollment>, listed: seq<Enrollment>, today: string, failing: set<nat>,
                             k: nat, j: nat)
    requires k < |rows| && j < |listed| && listed[j] == rows[k]
    requires Expired(rows[k], today) && rows[k].enrollmentId in failing
    ensures ExpireRows(rows, EnrollmentIds(listed) - failing, today)[k] == rows[k]
    ensures ExpireLocal(listed, today)[j] == rows[k].(status := false)
  {
  }

  // ---------------------------------------------------------------------
  // The enrollment table
  // ---------------------------------------------------------------------

  class EnrollmentTable {
    var rows: seq<Enrollment>
    /** The id the database generates for the next insert. */
    var nextId: nat

    predicate Valid()
      reads this
    {
      UniqueIds(rows) && forall i :: 0 <= i < |rows| ==> rows[i].enrollmentId < nextId
    }

    constructor ()
      ensures Valid() && rows == [] && nextId == 0
    {
      rows := [];
      nextId := 0;
    }

    /** enrollStudent. */
    method Enroll(batches: seq<Batch>, student: Id, batchId: Option<Id>, faults: EnrollFaults) returns (r: EnrollOutcome)
      requires Valid()
      modifies this
      ensures Valid()
      ensures (r, rows) == EnrollSpec(old(rows), old(nextId), batches, student, batchId, faults)
      ensures nextId == if r.Enrolled? then old(nextId) + 1 else old(nextId)
    {
      var spec := EnrollSpec(rows, nextId, batches, student, batchId, faults);
      if !Present(batchId) {
        return BatchIdRequired;
      }
      var id := batchId.value;
      if !faults.check && Single(MatchingRows(rows, student, id)).Some? {
        return AlreadyEnrolled;
      }
      var found := Single(BatchRows(batches, id));
      if faults.lookup || found.None? {
        return BatchNotFound;
      }
      var b := found.value;
      var isFree := IsFreeCourse(b);
      var count := if faults.count then 0 else |RowsOfBatch(rows, id)|;
      var max := OrDefault(b.maxStudents, DefaultCapacity);
      if count >= max {
        return BatchFull(max);
      }
      if faults.insert {
        return InsertFailed;
      }
      rows := rows + [Enrollment(nextId, student, id, isFree, isFree, None)];
      nextId := nextId + 1;
      r := Enrolled(b.batchName, max - count - 1, isFree);
    }

    /** getEnrolledBatches: the listed enrollments, after writing
        `status = false` to each expired one, or None when the query fails.
        The update of an id in `updateFails` errors; the error is ignored,
        so that row keeps its status while the response still clears it. */
    method ListEnrolled(student: Id, batches: seq<Batch>, today: string, queryFails: bool, updateFails: set<nat>)
      returns (r: Option<seq<Enrollment>>)
      requires Valid()
      modifies this
      ensures Valid() && nextId == old(nextId)
      ensures queryFails ==> r == None && rows == old(rows)
      ensures !queryFails ==>
        var listed := StudentListing(old(rows), student, batches);
        r == Some(ExpireLocal(listed, today)) &&
        rows == ExpireRows(old(rows), EnrollmentIds(listed) - updateFails, today)
    {
      if queryFails {
        return None;
      }
      var listed := StudentListing(rows, student, batches);
      var out: seq<Enrollment> := [];
      var i := 0;
      while i < |listed|
        invariant 0 <= i <= |listed|
        invariant Valid() && nextId == old(nextId)
        invariant rows == ExpireRows(old(rows), EnrollmentIds(listed[..i]) - updateFails, today)
        invariant out == ExpireLocal(listed[..i], today)
      {
        var e := listed[i];
        ExpireLoopStep(old(rows), listed, i, today, updateFails);
        if Present(e.endDate) && StrLess(e.endDate.value, today) && !e.isPermanent {
          if e.enrollmentId !in updateFails {
            rows := SetStatusFalse(rows, e.enrollmentId);
          }
          out := out + [e.(status := false)];
        } else {
          out := out + [e];
        }
        i := i + 1;
      }
      assert listed[..i] == listed;
      r := Some(out);
    }
  }
}
