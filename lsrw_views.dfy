/** What the LSRW listings show a student (controllers/lsrwController.js):
    whether a listening score is visible, which of several attempts is
    attached to a material, and the order of the lists by session. */
module LsrwViews {
  import opened Common
  import opened JsValues
  import O = Ordering

  // ---------------------------------------------------------------------
  // Score visibility
  // ---------------------------------------------------------------------

  /** The columns of an `lsrw_student_answers` row the views read; the tutor
      sets `verified` and `verified_at`. */
  datatype ScoredSubmission = ScoredSubmission(studentId: Id, contentId: Id, batchId: Id, score: Option<int>,
                                               verified: JsValue, verifiedAt: Option<string>)

  /** The listing's test: `verified` is `true`, `'true'`, `1` or `'1'`, or
      `verified_at` is set. */
  predicate IsVerified(sub: ScoredSubmission) {
    sub.verified == Bool(true) || sub.verified == Str("true") || sub.verified == Num(1) || sub.verified == Str("1")
    || sub.verifiedAt.Some?
  }

  /** The score getStudentLSRW shows: hidden until verified, and a verified
      submission without a score shows 0. */
  function ListedScore(sub: ScoredSubmission): (r: Option<int>)
    ensures r.Some? <==> IsVerified(sub)
    ensures r.Some? && sub.score.Some? ==> r.value == sub.score.value
    ensures r.Some? && sub.score.None? ==> r.value == 0
  {
    if IsVerified(sub) then Some(sub.score.GetOr(0)) else None
  }

  /** The score getStudentReview shows: the stored score, hidden while
      `verified` is falsy. */
  function ReviewScore(sub: ScoredSubmission): (r: Option<int>)
    ensures !Truthy(sub.verified) ==> r.None?
    ensures Truthy(sub.verified) ==> r == sub.score
  {
    if Truthy(sub.verified) then sub.score else None
  }

  /** The two views test verification differently: a submission with
      `verified_at` set but `verified` false is scored in the list and
      hidden in the review, and one whose `verified` is the text "false" is
      hidden in the list and scored in the review. */
  lemma ReviewAndListingDiverge()
    ensures var sub := ScoredSubmission("s", "c", "b", Some(7), Bool(false), Some("2025-01-01T00:00:00Z"));
            ListedScore(sub) == Some(7) && ReviewScore(sub) == None
    ensures var sub := ScoredSubmission("s", "c", "b", Some(7), Str("false"), None);
            ListedScore(sub) == None && ReviewScore(sub) == Some(7)
  {
  }

  /** For the canonical encodings, a boolean `verified` and a
      `verified_at` set exactly when it is true, the views agree. */
  lemma ReviewAgreesOnBooleans(sub: ScoredSubmission)
    requires sub.verified.Bool?
    requires sub.verifiedAt.Some? <==> sub.verified.b
    requires sub.score.Some?
    ensures ReviewScore(sub) == ListedScore(sub)
  {
  }

  /** The rows the review query matches: the student's submission for the
      content, within the batch when one is given. */
  function ReviewMatches(rows: seq<ScoredSubmission>, studentId: Id, lsrwId: Id, batchId: Option<Id>)
    : (m: seq<ScoredSubmission>)
    ensures forall x :: x in m <==>
              x in rows && x.studentId == studentId && x.contentId == lsrwId
              && (Present(batchId) ==> x.batchId == batchId.value)
  {
    if rows == [] then []
    else
      var init := rows[..|rows| - 1];
      var last := rows[|rows| - 1];
      assert rows == init + [last];
      var rest := ReviewMatches(init, studentId, lsrwId, batchId);
      if last.studentId == studentId && last.contentId == lsrwId && (Present(batchId) ==> last.batchId == batchId.value)
      then rest + [last]
      else rest
  }

  datatype ReviewOutcome =
    | ReviewUnauthorized       // 401
    | ReviewMissingId          // 400
    | SubmissionNotFound       // 404
    | ReviewContentNotFound    // 404
    | Review(answersOf: ScoredSubmission, score: Option<int>)

  /** getStudentReview; `contentFound` is whether the content lookup
      returned its row. */
  function ReviewSpec(rows: seq<ScoredSubmission>, studentId: Option<Id>, lsrwId: Option<Id>, batchId: Option<Id>,
                      contentFound: bool): (r: ReviewOutcome)
    ensures r == ReviewUnauthorized <==> !Present(studentId)
    ensures r == ReviewMissingId <==> Present(studentId) && !Present(lsrwId)
    ensures r == SubmissionNotFound <==>
              Present(studentId) && Present(lsrwId) && |ReviewMatches(rows, studentId.value, lsrwId.value, batchId)| != 1
    ensures r == ReviewContentNotFound <==>
              Present(studentId) && Present(lsrwId) && |ReviewMatches(rows, studentId.value, lsrwId.value, batchId)| == 1
              && !contentFound
    ensures r.Review? <==>
              Present(studentId) && Present(lsrwId) && |ReviewMatches(rows, studentId.value, lsrwId.value, batchId)| == 1
              && contentFound
    ensures r.Review? ==>
              && contentFound
              && ReviewMatches(rows, studentId.value, lsrwId.value, batchId) == [r.answersOf]
              && (Truthy(r.answersOf.verified) ==> r.score == r.answersOf.score)
              && (!Truthy(r.answersOf.verified) ==> r.score.None?)
  {
    if !Present(studentId) then ReviewUnauthorized
    else if !Present(lsrwId) then ReviewMissingId
    else
      var found := Single(ReviewMatches(rows, studentId.value, lsrwId.value, batchId));
      if found.None? then SubmissionNotFound
      else if !contentFound then ReviewContentNotFound
      else Review(found.value, ReviewScore(found.value))
  }

  // ---------------------------------------------------------------------
  // Choosing one attempt per material
  // ---------------------------------------------------------------------

  /** The first element with key `k`. */
  function FirstWith<T>(xs: seq<T>, key: T -> Id, k: Id): (r: Option<T>)
    ensures r.Some? ==> r.value in xs && key(r.value) == k
    ensures r.None? ==> forall i :: 0 <= i < |xs| ==> key(xs[i]) != k
  {
    if xs == [] then None
    else
      var init := xs[..|xs| - 1];
      var last := xs[|xs| - 1];
      assert xs == init + [last];
      var f := FirstWith(init, key, k);
      if f.Some? then f else if key(last) == k then Some(last) else None
  }

  /** The last preferred element with key `k`. */
  function LastPreferred<T>(xs: seq<T>, key: T -> Id, prefer: T -> bool, k: Id): (r: Option<T>)
    ensures r.Some? ==> r.value in xs && key(r.value) == k && prefer(r.value)
    ensures r.None? ==> forall i :: 0 <= i < |xs| ==> key(xs[i]) != k || !prefer(xs[i])
  {
    if xs == [] then None
    else
      var init := xs[..|xs| - 1];
      var last := xs[|xs| - 1];
      assert xs == init + [last];
      if key(last) == k && prefer(last) then Some(last) else LastPreferred(init, key, prefer, k)
  }

  /** The map the listings build with `forEach`: an element replaces the
      entry of its key when there is none yet or when it is preferred. */
  function Chosen<T>(xs: seq<T>, key: T -> Id, prefer: T -> bool): (m: map<Id, T>)
  {
    if xs == [] then map[]
    else
      var m := Chosen(xs[..|xs| - 1], key, prefer);
      var x := xs[|xs| - 1];
      if key(x) !in m || prefer(x) then m[key(x) := x] else m
  }

  /** The loop the listings run over the fetched attempts. */
  method ChooseAttempts<T>(xs: seq<T>, key: T -> Id, prefer: T -> bool) returns (m: map<Id, T>)
    ensures m == Chosen(xs, key, prefer)
  {
    m := map[];
    var i := 0;
    while i < |xs|
      invariant i <= |xs|
      invariant m == Chosen(xs[..i], key, prefer)
    {
      var x := xs[i];
      assert xs[..i + 1][..i] == xs[..i];
      if key(x) !in m || prefer(x) {
        m := m[key(x) := x];
      }
      i := i + 1;
    }
    assert xs[..|xs|] == xs;
  }

  /** The element chosen for a key: the last preferred one when there is
      one, otherwise the first one with that key; keys of no element have
      no entry. */
  lemma {:induction false} ChosenIs<T>(xs: seq<T>, key: T -> Id, prefer: T -> bool, k: Id)
    ensures k in Chosen(xs, key, prefer) <==> FirstWith(xs, key, k).Some?
    ensures k in Chosen(xs, key, prefer) ==>
              Chosen(xs, key, prefer)[k]
                == if LastPreferred(xs, key, prefer, k).Some? then LastPreferred(xs, key, prefer, k).value
                   else FirstWith(xs, key, k).value
  {
    if xs != [] {
      ChosenIs(xs[..|xs| - 1], key, prefer, k);
    }
  }

  /** A preferred element with the key guarantees a preferred choice. */
  lemma PreferredWins<T>(xs: seq<T>, key: T -> Id, prefer: T -> bool, x: T)
    requires x in xs && prefer(x)
    ensures key(x) in Chosen(xs, key, prefer) && prefer(Chosen(xs, key, prefer)[key(x)])
  {
    var k := key(x);
    ChosenIs(xs, key, prefer, k);
    var i :| 0 <= i < |xs| && xs[i] == x;
    assert LastPreferred(xs, key, prefer, k).Some?;
  }

  /** When every element is preferred (`Map.set` in a plain `forEach`), the
      last element with the key wins. */
  function Always<T>(x: T): bool {
    true
  }

  lemma LastWins<T>(xs: seq<T>, key: T -> Id, k: Id)
    requires k in Chosen(xs, key, Always)
    ensures LastPreferred(xs, key, Always, k).Some?
    ensures Chosen(xs, key, Always)[k] == LastPreferred(xs, key, Always, k).value
  {
    ChosenIs(xs, key, Always, k);
    var x := FirstWith(xs, key, k).value;
    var i :| 0 <= i < |xs| && xs[i] == x;
    assert LastPreferred(xs, key, Always, k).Some?;
  }

  // ---------------------------------------------------------------------
  // The speaking, reading and writing listings
  // ---------------------------------------------------------------------

  /** A listed material or task: its id and `session_number`. */
  datatype Listed = Listed(itemId: Id, sessionNumber: Option<int>)

  /** `session_number || fallback`: unset and 0 both fall back. */
  function SessionValue(item: Listed, fallback: int): (v: int)
    ensures item.sessionNumber.Some? && item.sessionNumber.value != 0 ==> v == item.sessionNumber.value
    ensures item.sessionNumber.None? || item.sessionNumber.value == 0 ==> v == fallback
  {
    if item.sessionNumber.Some? && item.sessionNumber.value != 0 then item.sessionNumber.value else fallback
  }

  function SessionKey(fallback: int): Listed -> O.Key {
    (item: Listed) => [O.Num(SessionValue(item, fallback))]
  }

  /** The comparator sort `(a, b) => (a.session_number || fallback) -
      (b.session_number || fallback)`; JavaScript's sort is stable, as is
      the insertion sort here. */
  function SortBySession(items: seq<Listed>, fallback: int): (r: seq<Listed>)
    ensures multiset(r) == multiset(items)
    ensures |r| == |items|
  {
    var r := O.SortBy(items, SessionKey(fallback), false);
    assert |multiset(r)| == |multiset(items)|;
    r
  }

  /** The sorted list ascends by session number. */
  lemma SessionAscending(items: seq<Listed>, fallback: int, i: int, j: int)
    requires 0 <= i < j < |SortBySession(items, fallback)|
    ensures var r := SortBySession(items, fallback);
            SessionValue(r[i], fallback) <= SessionValue(r[j], fallback)
  {
    var r := SortBySession(items, fallback);
    assert O.SortedBy(r, SessionKey(fallback), false);
    assert !O.Before(SessionKey(fallback)(r[j]), SessionKey(fallback)(r[i]), false);
  }

  /** Items whose session number is below the fallback come before items
      with none. */
  lemma UnnumberedLast(items: seq<Listed>, fallback: int, i: int, j: int)
    requires 0 <= i < j < |SortBySession(items, fallback)|
    requires var r := SortBySession(items, fallback);
             r[i].sessionNumber.None? || r[i].sessionNumber.value == 0
    ensures var r := SortBySession(items, fallback);
            r[j].sessionNumber.None? || r[j].sessionNumber.value == 0 || r[j].sessionNumber.value >= fallback
  {
    SessionAscending(items, fallback, i, j);
  }

  /** A listed item with the attempt chosen for it; `attempted` is
      `attempt.Some?`. */
  datatype Entry<T> = Entry(item: Listed, attempt: Option<T>, submitted: bool)

  function Lookup<T>(m: map<Id, T>, k: Id): Option<T> {
    if k in m then Some(m[k]) else None
  }

  /** A row of `speaking_attempts` as the listing reads it. */
  datatype SpeakingRow = SpeakingRow(attemptId: Id, materialId: Id, status: string)

  function SpeakingMaterialOf(a: SpeakingRow): Id {
    a.materialId
  }

  predicate SpeakingSubmitted(a: SpeakingRow) {
    a.status == "submitted"
  }

  /** getStudentSpeaking for a student: the materials in session order
      (9999 when unset), each with its chosen attempt. `attempts` are the
      student's attempts in `created_at` descending order. */
  function SpeakingListing(items: seq<Listed>, attempts: seq<SpeakingRow>): (r: seq<Entry<SpeakingRow>>)
    ensures |r| == |items|
    ensures forall i :: 0 <= i < |r| ==> r[i].item == SortBySession(items, 9999)[i]
    ensures forall i :: 0 <= i < |r| ==>
              r[i].attempt == Lookup(Chosen(attempts, SpeakingMaterialOf, SpeakingSubmitted), r[i].item.itemId)
  {
    var sorted := SortBySession(items, 9999);
    var chosen := Chosen(attempts, SpeakingMaterialOf, SpeakingSubmitted);
    seq(|sorted|, i requires 0 <= i < |sorted| =>
      var attempt := Lookup(chosen, sorted[i].itemId);
      Entry(sorted[i], attempt, attempt.Some? && attempt.value.status == "submitted"))
  }

  /** A speaking material shows as submitted exactly when the student has a
      submitted attempt for it, and as attempted exactly when there is any. */
  lemma SpeakingSubmittedIffAny(items: seq<Listed>, attempts: seq<SpeakingRow>, i: int)
    requires 0 <= i < |SpeakingListing(items, attempts)|
    ensures var e := SpeakingListing(items, attempts)[i];
            && (e.submitted <==> exists a :: a in attempts && a.materialId == e.item.itemId && a.status == "submitted")
            && (e.attempt.Some? <==> exists a :: a in attempts && a.materialId == e.item.itemId)
  {
    var e := SpeakingListing(items, attempts)[i];
    var k := e.item.itemId;
    ChosenIs(attempts, SpeakingMaterialOf, SpeakingSubmitted, k);
    if exists a :: a in attempts && a.materialId == k && a.status == "submitted" {
      var a :| a in attempts && a.materialId == k && a.status == "submitted";
      PreferredWins(attempts, SpeakingMaterialOf, SpeakingSubmitted, a);
    }
    if exists a :: a in attempts && a.materialId == k {
      var a :| a in attempts && a.materialId == k;
      var j :| 0 <= j < |attempts| && attempts[j] == a;
      assert SpeakingMaterialOf(attempts[j]) == k;
    }
  }

  /** A row of `reading_attempts` as the listing reads it. */
  datatype ReadingRow = ReadingRow(attemptId: Id, materialId: Id, submittedAt: Option<string>, verified: JsValue)

  function ReadingMaterialOf(a: ReadingRow): Id {
    a.materialId
  }

  predicate ReadingSubmittedRow(a: ReadingRow) {
    Present(a.submittedAt)
  }

  /** getStudentReading for a student: session order with 999999 when
      unset, an attempt with `submitted_at` preferred. */
  function ReadingListing(items: seq<Listed>, attempts: seq<ReadingRow>): (r: seq<Entry<ReadingRow>>)
    ensures |r| == |items|
    ensures forall i :: 0 <= i < |r| ==> r[i].item == SortBySession(items, 999999)[i]
    ensures forall i :: 0 <= i < |r| ==>
              r[i].attempt == Lookup(Chosen(attempts, ReadingMaterialOf, ReadingSubmittedRow), r[i].item.itemId)
  {
    var sorted := SortBySession(items, 999999);
    var chosen := Chosen(attempts, ReadingMaterialOf, ReadingSubmittedRow);
    seq(|sorted|, i requires 0 <= i < |sorted| =>
      var attempt := Lookup(chosen, sorted[i].itemId);
      Entry(sorted[i], attempt, attempt.Some? && Present(attempt.value.submittedAt)))
  }

  /** A reading material shows as submitted exactly when the student has an
      attempt with `submitted_at` for it. */
  lemma ReadingSubmittedIffAny(items: seq<Listed>, attempts: seq<ReadingRow>, i: int)
    requires 0 <= i < |ReadingListing(items, attempts)|
    ensures var e := ReadingListing(items, attempts)[i];
            e.submitted <==> exists a :: a in attempts && a.materialId == e.item.itemId && Present(a.submittedAt)
  {
    var e := ReadingListing(items, attempts)[i];
    var k := e.item.itemId;
    ChosenIs(attempts, ReadingMaterialOf, ReadingSubmittedRow, k);
    if exists a :: a in attempts && a.materialId == k && Present(a.submittedAt) {
      var a :| a in attempts && a.materialId == k && Present(a.submittedAt);
      PreferredWins(attempts, ReadingMaterialOf, ReadingSubmittedRow, a);
    }
  }

  /** A row of `writing_submissions` as the listing reads it. */
  datatype WritingRow = WritingRow(submissionId: Id, taskId: Id, submittedAt: string)

  function WritingTaskOf(w: WritingRow): Id {
    w.taskId
  }

  /** getStudentWriting for a student: session order with 9999 when unset;
      `submissions` come in `submitted_at` descending order and a plain
      `Map.set` keeps the last of them, the oldest. */
  function WritingListing(items: seq<Listed>, submissions: seq<WritingRow>): (r: seq<Entry<WritingRow>>)
    ensures |r| == |items|
    ensures forall i :: 0 <= i < |r| ==> r[i].item == SortBySession(items, 9999)[i]
    ensures forall i :: 0 <= i < |r| ==>
              r[i].attempt == Lookup(Chosen(submissions, WritingTaskOf, Always), r[i].item.itemId)
    ensures forall i :: 0 <= i < |r| ==> r[i].submitted == r[i].attempt.Some?
  {
    var sorted := SortBySession(items, 9999);
    var chosen := Chosen(submissions, WritingTaskOf, Always);
    seq(|sorted|, i requires 0 <= i < |sorted| =>
      var submission := Lookup(chosen, sorted[i].itemId);
      Entry(sorted[i], submission, submission.Some?))
  }

  /** The submission shown for a task is the last of its rows in the
      fetched order. */
  lemma WritingShowsLast(items: seq<Listed>, submissions: seq<WritingRow>, i: int)
    requires 0 <= i < |WritingListing(items, submissions)|
    requires WritingListing(items, submissions)[i].attempt.Some?
    ensures var e := WritingListing(items, submissions)[i];
            e.attempt == LastPreferred(submissions, WritingTaskOf, Always, e.item.itemId)
  {
    var e := WritingListing(items, submissions)[i];
    LastWins(submissions, WritingTaskOf, e.item.itemId);
  }
}
