/** The LSRW submission handlers (controllers/lsrwController.js) over their
    tables: the one-shot listening quiz (`lsrw_student_answers`), speaking
    drafts and submissions (`speaking_attempts`), reading attempts
    (`reading_attempts`) and writing submissions (`writing_submissions`).
    Every lookup the handlers make with `.single()` and whose error they
    ignore takes a fault flag: when it is set the lookup finds nothing. */
module LsrwAttempts {
  import opened Common
  import opened JsValues
  import opened LsrwScoring
  import opened KeyedRows

  // ---------------------------------------------------------------------
  // Visibility of a material to a batch
  // ---------------------------------------------------------------------

  /** A row of `speaking_batch_map` or `writing_batch_map`. */
  datatype BatchMap = BatchMap(itemId: Id, batchId: Id, studentVisible: bool)

  function MapKey(m: BatchMap): (Id, Id, bool) {
    (m.itemId, m.batchId, m.studentVisible)
  }

  /** `.single()` on the student-visible mapping of the item to the batch:
      exactly one such row, and no lookup error. */
  predicate Visible(maps: seq<BatchMap>, itemId: Id, batchId: Id, mappingFails: bool) {
    !mappingFails && |Matching(maps, MapKey, (itemId, batchId, true))| == 1
  }

  // ---------------------------------------------------------------------
  // Listening quiz: submitStudentAnswers
  // ---------------------------------------------------------------------

  /** `questions` (null when unset) and `max_marks` of an `lsrw_content` row. */
  datatype QuizContent = QuizContent(questions: Option<seq<QuizQuestion>>, maxMarks: Option<int>)

  /** A row of `lsrw_student_answers`; `score` is `None` for a NaN mark. */
  datatype QuizAnswer = QuizAnswer(studentId: Id, contentId: Id, batchId: Id, answers: map<string, string>,
                                   score: Option<int>, maxMarks: int, submittedAt: string)

  function QuizKey(a: QuizAnswer): (Id, Id, Id) {
    (a.studentId, a.contentId, a.batchId)
  }

  datatype QuizOutcome =
    | QuizMissingFields      // 400
    | QuizContentNotFound    // 404
    | QuizAlreadyCompleted   // 400
    | QuizSaveFailed         // 500
    | QuizSubmitted(marks: Option<int>, correct: nat, total: nat)

  datatype QuizFaults = QuizFaults(lookup: bool, insert: bool)

  /** `student_id || req.student?.student_id`. */
  function QuizStudent(bodyStudent: Option<Id>, tokenStudent: Option<Id>): (s: Option<Id>)
    ensures Present(bodyStudent) ==> s == bodyStudent
    ensures !Present(bodyStudent) ==> s == tokenStudent
  {
    if Present(bodyStudent) then bodyStudent else tokenStudent
  }

  predicate QuizFieldsPresent(studentId: Option<Id>, lsrwId: Option<Id>, batchId: Option<Id>,
                              answers: Option<map<string, string>>) {
    Present(studentId) && Present(lsrwId) && Present(batchId) && answers.Some?
  }

  /** submitStudentAnswers: the response and the answers table afterwards.
      `answers` is `None` when the body has none; `content` is `None` when
      the content lookup fails or finds nothing. */
  function QuizSpec(rows: seq<QuizAnswer>, bodyStudent: Option<Id>, tokenStudent: Option<Id>,
                    lsrwId: Option<Id>, batchId: Option<Id>, answers: Option<map<string, string>>,
                    content: Option<QuizContent>, faults: QuizFaults, now: string)
    : (r: (QuizOutcome, seq<QuizAnswer>))
    ensures var s := QuizStudent(bodyStudent, tokenStudent);
            r.0 == QuizMissingFields <==> !QuizFieldsPresent(s, lsrwId, batchId, answers)
    ensures var s := QuizStudent(bodyStudent, tokenStudent);
            r.0 == QuizContentNotFound <==> QuizFieldsPresent(s, lsrwId, batchId, answers) && content.None?
    ensures var s := QuizStudent(bodyStudent, tokenStudent);
            r.0 == QuizAlreadyCompleted <==>
              && QuizFieldsPresent(s, lsrwId, batchId, answers) && content.Some? && !faults.lookup
              && |Matching(rows, QuizKey, (s.value, lsrwId.value, batchId.value))| == 1
    ensures var s := QuizStudent(bodyStudent, tokenStudent);
            r.0 == QuizSaveFailed <==>
              && QuizFieldsPresent(s, lsrwId, batchId, answers) && content.Some?
              && (faults.lookup || |Matching(rows, QuizKey, (s.value, lsrwId.value, batchId.value))| != 1)
              && faults.insert
    ensures var s := QuizStudent(bodyStudent, tokenStudent);
            r.0.QuizSubmitted? <==>
              && QuizFieldsPresent(s, lsrwId, batchId, answers) && content.Some?
              && (faults.lookup || |Matching(rows, QuizKey, (s.value, lsrwId.value, batchId.value))| != 1)
              && !faults.insert
    ensures !r.0.QuizSubmitted? ==> r.1 == rows
    ensures r.0.QuizSubmitted? ==>
              var s := QuizStudent(bodyStudent, tokenStudent);
              var questions := content.value.questions.GetOr([]);
              var maxMarks := MaxMarks(content.value.maxMarks, |questions|);
              && r.0.correct == QuizScore(questions, answers.value) <= r.0.total == |questions|
              && r.0.marks == Marks(r.0.correct, |questions|, maxMarks)
              && r.1 == rows + [QuizAnswer(s.value, lsrwId.value, batchId.value, answers.value,
                                           r.0.marks, maxMarks, now)]
  {
    var s := QuizStudent(bodyStudent, tokenStudent);
    if !QuizFieldsPresent(s, lsrwId, batchId, answers) then (QuizMissingFields, rows)
    else if content.None? then (QuizContentNotFound, rows)
    else
      var questions := content.value.questions.GetOr([]);
      var correct := QuizScore(questions, answers.value);
      var existing := if faults.lookup then None
                      else Single(Matching(rows, QuizKey, (s.value, lsrwId.value, batchId.value)));
      if existing.Some? then (QuizAlreadyCompleted, rows)
      else
        var maxMarks := MaxMarks(content.value.maxMarks, |questions|);
        var marks := Marks(correct, |questions|, maxMarks);
        if faults.insert then (QuizSaveFailed, rows)
        else
          (QuizSubmitted(marks, correct, |questions|),
           rows + [QuizAnswer(s.value, lsrwId.value, batchId.value, answers.value, marks, maxMarks, now)])
  }

  /** With a working lookup, the table keeps one answer row per (student,
      content, batch). */
  lemma QuizKeepsOnePerKey(rows: seq<QuizAnswer>, bodyStudent: Option<Id>, tokenStudent: Option<Id>,
                           lsrwId: Option<Id>, batchId: Option<Id>, answers: Option<map<string, string>>,
                           content: Option<QuizContent>, faults: QuizFaults, now: string)
    requires OnePerKey(rows, QuizKey) && !faults.lookup
    ensures var r := QuizSpec(rows, bodyStudent, tokenStudent, lsrwId, batchId, answers, content, faults, now);
            OnePerKey(r.1, QuizKey)
            && (r.0.QuizSubmitted? ==> Matching(r.1, QuizKey, QuizKey(r.1[|r.1| - 1])) == [r.1[|r.1| - 1]])
  {
    var r := QuizSpec(rows, bodyStudent, tokenStudent, lsrwId, batchId, answers, content, faults, now);
    if r.0.QuizSubmitted? {
      var row := r.1[|r.1| - 1];
      assert r.1 == rows + [row];
      AtMostOne(rows, QuizKey, QuizKey(row));
      AppendFresh(rows, QuizKey, row);
    }
  }

  /** The quiz is one-shot: once a submission is stored, a second one for
      the same student, content and batch is refused and changes nothing. */
  lemma QuizOnce(rows: seq<QuizAnswer>, bodyStudent: Option<Id>, tokenStudent: Option<Id>,
                 lsrwId: Option<Id>, batchId: Option<Id>, answers: Option<map<string, string>>,
                 content: Option<QuizContent>, faults: QuizFaults, now: string,
                 answers2: Option<map<string, string>>, content2: Option<QuizContent>, faults2: QuizFaults,
                 now2: string)
    requires OnePerKey(rows, QuizKey) && !faults.lookup && !faults2.lookup
    requires QuizSpec(rows, bodyStudent, tokenStudent, lsrwId, batchId, answers, content, faults, now).0.QuizSubmitted?
    requires answers2.Some? && content2.Some?
    ensures var once := QuizSpec(rows, bodyStudent, tokenStudent, lsrwId, batchId, answers, content, faults, now).1;
            QuizSpec(once, bodyStudent, tokenStudent, lsrwId, batchId, answers2, content2, faults2, now2)
              == (QuizAlreadyCompleted, once)
  {
    QuizKeepsOnePerKey(rows, bodyStudent, tokenStudent, lsrwId, batchId, answers, content, faults, now);
  }

  /** A stored mark lies between 0 and the maximum when both the maximum and
      the number of questions are positive. */
  lemma QuizMarksWithinMax(rows: seq<QuizAnswer>, bodyStudent: Option<Id>, tokenStudent: Option<Id>,
                           lsrwId: Option<Id>, batchId: Option<Id>, answers: Option<map<string, string>>,
                           content: Option<QuizContent>, faults: QuizFaults, now: string)
    requires QuizSpec(rows, bodyStudent, tokenStudent, lsrwId, batchId, answers, content, faults, now).0.QuizSubmitted?
    ensures var r := QuizSpec(rows, bodyStudent, tokenStudent, lsrwId, batchId, answers, content, faults, now);
            var stored := r.1[|r.1| - 1];
            stored.maxMarks > 0 && r.0.total > 0 ==> 0 <= stored.score.value <= stored.maxMarks
  {
    var r := QuizSpec(rows, bodyStudent, tokenStudent, lsrwId, batchId, answers, content, faults, now);
    var stored := r.1[|r.1| - 1];
    if stored.maxMarks > 0 && r.0.total > 0 {
      MarksBounds(r.0.correct, r.0.total, stored.maxMarks);
    }
  }

  class QuizAnswerTable {
    var rows: seq<QuizAnswer>

    constructor (initial: seq<QuizAnswer>)
      ensures rows == initial
    {
      rows := initial;
    }

    /** submitStudentAnswers over the answers table. */
    method Submit(bodyStudent: Option<Id>, tokenStudent: Option<Id>, lsrwId: Option<Id>, batchId: Option<Id>,
                  answers: Option<map<string, string>>, content: Option<QuizContent>, faults: QuizFaults,
                  now: string)
      returns (r: QuizOutcome)
      modifies this
      ensures (r, rows) == QuizSpec(old(rows), bodyStudent, tokenStudent, lsrwId, batchId, answers, content,
                                    faults, now)
    {
      var studentId := QuizStudent(bodyStudent, tokenStudent);
      if !Present(studentId) || !Present(lsrwId) || !Present(batchId) || answers.None? {
        return QuizMissingFields;
      }
      if content.None? {
        return QuizContentNotFound;
      }
      var questions := content.value.questions.GetOr([]);
      var correct := ScoreQuiz(questions, answers.value);
      var existing: Option<QuizAnswer> := None;
      if !faults.lookup {
        existing := Single(Matching(rows, QuizKey, (studentId.value, lsrwId.value, batchId.value)));
      }
      if existing.Some? {
        return QuizAlreadyCompleted;
      }
      var maxMarks := MaxMarks(content.value.maxMarks, |questions|);
      var marks := Marks(correct, |questions|, maxMarks);
      if faults.insert {
        return QuizSaveFailed;
      }
      rows := rows + [QuizAnswer(studentId.value, lsrwId.value, batchId.value, answers.value, marks, maxMarks, now)];
      r := QuizSubmitted(marks, correct, |questions|);
    }
  }

  // ---------------------------------------------------------------------
  // Speaking: saveSpeakingAttempt
  // ---------------------------------------------------------------------

  /** A row of `speaking_attempts`; `status` is "draft" or "submitted". */
  datatype SpeakingAttempt = SpeakingAttempt(studentId: Id, materialId: Id, batchId: Id, audioUrl: string,
                                             status: string, submittedAt: Option<string>)

  function SpeakingKey(a: SpeakingAttempt): (Id, Id, Id, string) {
    (a.studentId, a.materialId, a.batchId, a.status)
  }

  /** The requested status, defaulting to "draft" when the body has none;
      `None` for any other value. */
  function SaveStatus(status: JsValue): (r: Option<string>)
    ensures r.Some? <==> status == Undefined || status == Str("draft") || status == Str("submitted")
    ensures r.Some? ==> r.value == "draft" || r.value == "submitted"
    ensures r == Some("submitted") <==> status == Str("submitted")
  {
    match status
    case Undefined => Some("draft")
    case Str(s) => if s == "draft" || s == "submitted" then Some(s) else None
    case _ => None
  }

  datatype SpeakingFaults = SpeakingFaults(mapping: bool, lookup: bool, delete: bool, insert: bool)

  datatype SpeakingOutcome =
    | SpeakingUnauthorized   // 401
    | SpeakingMissingFields  // 400
    | BadStatus              // 400
    | SpeakingNotVisible     // 403
    | AlreadySubmitted       // 400
    | SpeakingSaveFailed     // 500
    | Saved(attempt: SpeakingAttempt)

  predicate SpeakingRequestValid(maps: seq<BatchMap>, studentId: Option<Id>, materialId: Option<Id>,
                                 batchId: Option<Id>, audioUrl: Option<string>, status: JsValue,
                                 mappingFails: bool) {
    && Present(studentId) && Present(materialId) && Present(batchId) && Present(audioUrl)
    && SaveStatus(status).Some?
    && Visible(maps, materialId.value, batchId.value, mappingFails)
  }

  /** The table after the delete of the student's drafts for the material
      and batch; a failed delete, whose error is ignored, keeps them. */
  function ClearDrafts(rows: seq<SpeakingAttempt>, studentId: Id, materialId: Id, batchId: Id,
                       deleteFails: bool): (r: seq<SpeakingAttempt>)
    ensures !deleteFails ==> Matching(r, SpeakingKey, (studentId, materialId, batchId, "draft")) == []
    ensures forall a :: a in r <==> a in rows && (deleteFails || SpeakingKey(a) != (studentId, materialId, batchId, "draft"))
  {
    var key := (studentId, materialId, batchId, "draft");
    MatchingWithout(rows, SpeakingKey, key, key);
    if deleteFails then rows else Without(rows, SpeakingKey, key)
  }

  /** saveSpeakingAttempt: the response and the attempts table afterwards.
      Drafts of the same student, material and batch are deleted before the
      insert, so an insert failure leaves them deleted. */
  function SpeakingSpec(rows: seq<SpeakingAttempt>, maps: seq<BatchMap>, studentId: Option<Id>,
                        materialId: Option<Id>, batchId: Option<Id>, audioUrl: Option<string>, status: JsValue,
                        faults: SpeakingFaults, now: string)
    : (r: (SpeakingOutcome, seq<SpeakingAttempt>))
    ensures r.0 == SpeakingUnauthorized <==> !Present(studentId)
    ensures r.0 == SpeakingMissingFields <==>
              Present(studentId) && (!Present(materialId) || !Present(batchId) || !Present(audioUrl))
    ensures r.0 == BadStatus <==>
              Present(studentId) && Present(materialId) && Present(batchId) && Present(audioUrl)
              && SaveStatus(status).None?
    ensures r.0 == SpeakingNotVisible <==>
              Present(studentId) && Present(materialId) && Present(batchId) && Present(audioUrl)
              && SaveStatus(status).Some? && !Visible(maps, materialId.value, batchId.value, faults.mapping)
    ensures r.0 == AlreadySubmitted <==>
              && SpeakingRequestValid(maps, studentId, materialId, batchId, audioUrl, status, faults.mapping)
              && status == Str("submitted") && !faults.lookup
              && |Matching(rows, SpeakingKey, (studentId.value, materialId.value, batchId.value, "submitted"))| == 1
    ensures r.0 == SpeakingSaveFailed <==>
              && SpeakingRequestValid(maps, studentId, materialId, batchId, audioUrl, status, faults.mapping)
              && !(status == Str("submitted") && !faults.lookup
                   && |Matching(rows, SpeakingKey, (studentId.value, materialId.value, batchId.value, "submitted"))| == 1)
              && faults.insert
    ensures r.0.Saved? <==>
              && SpeakingRequestValid(maps, studentId, materialId, batchId, audioUrl, status, faults.mapping)
              && !(status == Str("submitted") && !faults.lookup
                   && |Matching(rows, SpeakingKey, (studentId.value, materialId.value, batchId.value, "submitted"))| == 1)
              && !faults.insert
    ensures !r.0.Saved? && r.0 != SpeakingSaveFailed ==> r.1 == rows
    ensures r.0.Saved? ==>
              && r.0.attempt.status == SaveStatus(status).value
              && (r.0.attempt.submittedAt.Some? <==> r.0.attempt.status == "submitted")
              && (r.0.attempt.submittedAt.Some? ==> r.0.attempt.submittedAt.value == now)
              && r.0.attempt.audioUrl == audioUrl.value
              && r.1 == ClearDrafts(rows, studentId.value, materialId.value, batchId.value, faults.delete) + [r.0.attempt]
    ensures r.0 == SpeakingSaveFailed ==>
              r.1 == ClearDrafts(rows, studentId.value, materialId.value, batchId.value, faults.delete)
  {
    if !Present(studentId) then (SpeakingUnauthorized, rows)
    else if !Present(materialId) || !Present(batchId) || !Present(audioUrl) then (SpeakingMissingFields, rows)
    else if SaveStatus(status).None? then (BadStatus, rows)
    else if !Visible(maps, materialId.value, batchId.value, faults.mapping) then (SpeakingNotVisible, rows)
    else
      var st := SaveStatus(status).value;
      var s, m, b := studentId.value, materialId.value, batchId.value;
      if st == "submitted" && !faults.lookup && Single(Matching(rows, SpeakingKey, (s, m, b, "submitted"))).Some? then
        (AlreadySubmitted, rows)
      else
        var cleared := ClearDrafts(rows, s, m, b, faults.delete);
        var attempt := SpeakingAttempt(s, m, b, audioUrl.value, st, if st == "submitted" then Some(now) else None);
        if faults.insert then (SpeakingSaveFailed, cleared)
        else (Saved(attempt), cleared + [attempt])
  }

  /** After a save whose delete went through there is at most one draft of
      that student, material and batch: the new one when a draft was saved,
      none when the attempt was submitted or the insert failed. */
  lemma SpeakingAtMostOneDraft(rows: seq<SpeakingAttempt>, maps: seq<BatchMap>, studentId: Option<Id>,
                               materialId: Option<Id>, batchId: Option<Id>, audioUrl: Option<string>,
                               status: JsValue, faults: SpeakingFaults, now: string)
    requires !faults.delete
    requires var r := SpeakingSpec(rows, maps, studentId, materialId, batchId, audioUrl, status, faults, now);
             r.0.Saved? || r.0 == SpeakingSaveFailed
    ensures var r := SpeakingSpec(rows, maps, studentId, materialId, batchId, audioUrl, status, faults, now);
            var drafts := Matching(r.1, SpeakingKey, (studentId.value, materialId.value, batchId.value, "draft"));
            && (r.0.Saved? && r.0.attempt.status == "draft" ==> drafts == [r.0.attempt])
            && (r.0 == SpeakingSaveFailed || r.0.attempt.status == "submitted" ==> drafts == [])
  {
    var key := (studentId.value, materialId.value, batchId.value, "draft");
    var cleared := ClearDrafts(rows, studentId.value, materialId.value, batchId.value, false);
    var r := SpeakingSpec(rows, maps, studentId, materialId, batchId, audioUrl, status, faults, now);
    if r.0.Saved? {
      MatchingAppend(cleared, SpeakingKey, key, r.0.attempt);
    }
  }

  /** A stored submission becomes the only submitted attempt of its
      student, material and batch when there was none. */
  lemma SpeakingSubmissionRecorded(rows: seq<SpeakingAttempt>, maps: seq<BatchMap>, studentId: Option<Id>,
                                   materialId: Option<Id>, batchId: Option<Id>, audioUrl: Option<string>,
                                   faults: SpeakingFaults, now: string)
    requires Present(studentId) && Present(materialId) && Present(batchId)
    requires Matching(rows, SpeakingKey, (studentId.value, materialId.value, batchId.value, "submitted")) == []
    requires SpeakingSpec(rows, maps, studentId, materialId, batchId, audioUrl, Str("submitted"), faults, now).0.Saved?
    ensures var r := SpeakingSpec(rows, maps, studentId, materialId, batchId, audioUrl, Str("submitted"), faults, now);
            Matching(r.1, SpeakingKey, (studentId.value, materialId.value, batchId.value, "submitted")) == [r.0.attempt]
  {
    var s, m, b := studentId.value, materialId.value, batchId.value;
    var r := SpeakingSpec(rows, maps, studentId, materialId, batchId, audioUrl, Str("submitted"), faults, now);
    var subKey := (s, m, b, "submitted");
    var cleared := ClearDrafts(rows, s, m, b, faults.delete);
    if !faults.delete {
      MatchingWithout(rows, SpeakingKey, (s, m, b, "draft"), subKey);
    }
    MatchingAppend(cleared, SpeakingKey, subKey, r.0.attempt);
  }

  /** With a submitted attempt on record and a working lookup, a submission
      is refused or rejected earlier, and the table is unchanged. */
  lemma SpeakingResubmitRefused(rows: seq<SpeakingAttempt>, maps: seq<BatchMap>, studentId: Option<Id>,
                                materialId: Option<Id>, batchId: Option<Id>, audioUrl: Option<string>,
                                faults: SpeakingFaults, now: string)
    requires Present(studentId) && Present(materialId) && Present(batchId) && !faults.lookup
    requires |Matching(rows, SpeakingKey, (studentId.value, materialId.value, batchId.value, "submitted"))| == 1
    ensures var r := SpeakingSpec(rows, maps, studentId, materialId, batchId, audioUrl, Str("submitted"), faults, now);
            r.1 == rows && !r.0.Saved?
  {
  }

  /** A submission cannot be repeated: once an attempt is submitted where
      none was, a second submission changes nothing. */
  lemma SpeakingSubmitOnce(rows: seq<SpeakingAttempt>, maps: seq<BatchMap>, studentId: Option<Id>,
                           materialId: Option<Id>, batchId: Option<Id>, audioUrl: Option<string>,
                           faults: SpeakingFaults, now: string, audioUrl2: Option<string>,
                           faults2: SpeakingFaults, now2: string)
    requires Present(studentId) && Present(materialId) && Present(batchId)
    requires Matching(rows, SpeakingKey, (studentId.value, materialId.value, batchId.value, "submitted")) == []
    requires SpeakingSpec(rows, maps, studentId, materialId, batchId, audioUrl, Str("submitted"), faults, now).0.Saved?
    requires !faults2.lookup
    ensures var once := SpeakingSpec(rows, maps, studentId, materialId, batchId, audioUrl, Str("submitted"), faults, now).1;
            var twice := SpeakingSpec(once, maps, studentId, materialId, batchId, audioUrl2, Str("submitted"), faults2, now2);
            twice.1 == once && !twice.0.Saved?
  {
    SpeakingSubmissionRecorded(rows, maps, studentId, materialId, batchId, audioUrl, faults, now);
    var once := SpeakingSpec(rows, maps, studentId, materialId, batchId, audioUrl, Str("submitted"), faults, now).1;
    SpeakingResubmitRefused(once, maps, studentId, materialId, batchId, audioUrl2, faults2, now2);
  }

  class SpeakingAttemptTable {
    var rows: seq<SpeakingAttempt>

    constructor (initial: seq<SpeakingAttempt>)
      ensures rows == initial
    {
      rows := initial;
    }

    /** saveSpeakingAttempt over the attempts table; `maps` is the
        `speaking_batch_map` table. */
    method Save(maps: seq<BatchMap>, studentId: Option<Id>, materialId: Option<Id>, batchId: Option<Id>,
                audioUrl: Option<string>, status: JsValue, faults: SpeakingFaults, now: string)
      returns (r: SpeakingOutcome)
      modifies this
      ensures (r, rows) == SpeakingSpec(old(rows), maps, studentId, materialId, batchId, audioUrl, status, faults, now)
    {
      if !Present(studentId) {
        return SpeakingUnauthorized;
      }
      if !Present(materialId) || !Present(batchId) || !Present(audioUrl) {
        return SpeakingMissingFields;
      }
      var st := SaveStatus(status);
      if st.None? {
        return BadStatus;
      }
      if !Visible(maps, materialId.value, batchId.value, faults.mapping) {
        return SpeakingNotVisible;
      }
      var s, m, b := studentId.value, materialId.value, batchId.value;
      if st.value == "submitted" && !faults.lookup {
        var existing := Single(Matching(rows, SpeakingKey, (s, m, b, "submitted")));
        if existing.Some? {
          return AlreadySubmitted;
        }
      }
      if !faults.delete {
        rows := Without(rows, SpeakingKey, (s, m, b, "draft"));
      }
      var submittedAt := if st.value == "submitted" then Some(now) else None;
      var attempt := SpeakingAttempt(s, m, b, audioUrl.value, st.value, submittedAt);
      if faults.insert {
        return SpeakingSaveFailed;
      }
      rows := rows + [attempt];
      r := Saved(attempt);
    }
  }

  // ---------------------------------------------------------------------
  // Reading: submitReadingAttempt
  // ---------------------------------------------------------------------

  /** The request's `answers`: falsy, a truthy non-object, or an object. */
  datatype AnswersInput = AnswersFalsy | AnswersNotObject | AnswersObject(entries: map<string, string>)

  /** A reading material's `questions`: null, something other than an
      array, or an array. */
  datatype QuestionsField = QuestionsNull | QuestionsNotArray | QuestionList(items: seq<ReadingQuestion>)

  /** A row of `reading_attempts`. */
  datatype ReadingAttempt = ReadingAttempt(materialId: Id, studentId: Id, batchId: Id, answers: map<string, string>,
                                           score: nat, maxScore: nat, submittedAt: Option<string>)

  /** The existing attempt is looked up by material and student, whatever the batch. */
  function ReadingOwner(a: ReadingAttempt): (Id, Id) {
    (a.materialId, a.studentId)
  }

  datatype ReadingFaults = ReadingFaults(lookup: bool, write: bool)

  datatype ReadingOutcome =
    | ReadingUnauthorized       // 401
    | ReadingMissingFields      // 400
    | AnswersNotAnObject        // 400
    | MaterialNotFound          // 404
    | QuestionsNotAnArray       // 400
    | NoQuestions               // 400
    | AnswerCountMismatch       // 400
    | ReadingAlreadySubmitted   // 400
    | ReadingSaveFailed         // 500
    | ReadingSubmitted(attempt: ReadingAttempt)

  /** `material.questions || []` once it is known to be an array or null. */
  function QuestionsOf(f: QuestionsField): seq<ReadingQuestion> {
    if f.QuestionList? then f.items else []
  }

  /** The checks submitReadingAttempt makes before it scores, in order;
      `None` when the request passes them all. */
  function ReadingRejection(studentId: Option<Id>, materialId: Option<Id>, batchId: Option<Id>,
                            answers: AnswersInput, material: Option<QuestionsField>): (r: Option<ReadingOutcome>)
    ensures r == Some(ReadingUnauthorized) <==> !Present(studentId)
    ensures r == Some(ReadingMissingFields) <==>
              Present(studentId) && (!Present(materialId) || !Present(batchId) || answers.AnswersFalsy?)
    ensures r == Some(AnswersNotAnObject) <==>
              Present(studentId) && Present(materialId) && Present(batchId) && answers.AnswersNotObject?
    ensures r == Some(MaterialNotFound) <==>
              Present(studentId) && Present(materialId) && Present(batchId) && answers.AnswersObject?
              && material.None?
    ensures r == Some(QuestionsNotAnArray) <==>
              Present(studentId) && Present(materialId) && Present(batchId) && answers.AnswersObject?
              && material == Some(QuestionsNotArray)
    ensures r == Some(NoQuestions) <==>
              Present(studentId) && Present(materialId) && Present(batchId) && answers.AnswersObject?
              && material.Some? && !material.value.QuestionsNotArray? && QuestionsOf(material.value) == []
    ensures r == Some(AnswerCountMismatch) <==>
              Present(studentId) && Present(materialId) && Present(batchId) && answers.AnswersObject?
              && material.Some? && !material.value.QuestionsNotArray? && QuestionsOf(material.value) != []
              && |answers.entries| != |QuestionsOf(material.value)|
    ensures r.None? <==>
              Present(studentId) && Present(materialId) && Present(batchId) && answers.AnswersObject?
              && material.Some? && !material.value.QuestionsNotArray? && QuestionsOf(material.value) != []
              && |answers.entries| == |QuestionsOf(material.value)|
    ensures r.Some? ==> !r.value.ReadingSubmitted? && r.value != ReadingAlreadySubmitted && r.value != ReadingSaveFailed
  {
    if !Present(studentId) then Some(ReadingUnauthorized)
    else if !Present(materialId) || !Present(batchId) || answers.AnswersFalsy? then Some(ReadingMissingFields)
    else if answers.AnswersNotObject? then Some(AnswersNotAnObject)
    else if material.None? then Some(MaterialNotFound)
    else if material.value.QuestionsNotArray? then Some(QuestionsNotAnArray)
    else if |QuestionsOf(material.value)| == 0 then Some(NoQuestions)
    else if |answers.entries| != |QuestionsOf(material.value)| then Some(AnswerCountMismatch)
    else None
  }

  /** The existing attempt of the material and student, read with
      `.single()`, is already submitted. */
  predicate ReadingSubmittedBefore(rows: seq<ReadingAttempt>, materialId: Id, studentId: Id, lookupFails: bool) {
    && !lookupFails
    && |Matching(rows, ReadingOwner, (materialId, studentId))| == 1
    && Present(Matching(rows, ReadingOwner, (materialId, studentId))[0].submittedAt)
  }

  /** submitReadingAttempt: the response and the attempts table afterwards.
      `material` is `None` when its lookup fails or finds nothing. */
  function ReadingSpec(rows: seq<ReadingAttempt>, studentId: Option<Id>, materialId: Option<Id>, batchId: Option<Id>,
                       answers: AnswersInput, material: Option<QuestionsField>, faults: ReadingFaults, now: string)
    : (r: (ReadingOutcome, seq<ReadingAttempt>))
    ensures ReadingRejection(studentId, materialId, batchId, answers, material).Some? ==>
              r == (ReadingRejection(studentId, materialId, batchId, answers, material).value, rows)
    ensures r.0 == ReadingAlreadySubmitted <==>
              && ReadingRejection(studentId, materialId, batchId, answers, material).None?
              && ReadingSubmittedBefore(rows, materialId.value, studentId.value, faults.lookup)
    ensures r.0 == ReadingSaveFailed <==>
              && ReadingRejection(studentId, materialId, batchId, answers, material).None?
              && !ReadingSubmittedBefore(rows, materialId.value, studentId.value, faults.lookup)
              && faults.write
    ensures r.0.ReadingSubmitted? <==>
              && ReadingRejection(studentId, materialId, batchId, answers, material).None?
              && !ReadingSubmittedBefore(rows, materialId.value, studentId.value, faults.lookup)
              && !faults.write
    ensures !r.0.ReadingSubmitted? ==> r.1 == rows
    ensures r.0.ReadingSubmitted? ==>
              var questions := QuestionsOf(material.value);
              && r.0.attempt.score == ReadingScore(questions, answers.entries) <= r.0.attempt.maxScore
              && r.0.attempt.maxScore == |questions| > 0
              && r.0.attempt.answers == answers.entries
              && r.0.attempt.submittedAt == Some(now)
              && ReadingOwner(r.0.attempt) == (materialId.value, studentId.value)
              && r.0.attempt in r.1
    ensures r.0.ReadingSubmitted? ==>
              var key := (materialId.value, studentId.value);
              if !faults.lookup && |Matching(rows, ReadingOwner, key)| == 1 then
                && IndexOfKey(rows, ReadingOwner, key).Some?
                && var i := IndexOfKey(rows, ReadingOwner, key).value;
                   r.0.attempt.batchId == rows[i].batchId && r.1 == rows[i := r.0.attempt]
              else
                r.0.attempt.batchId == batchId.value && r.1 == rows + [r.0.attempt]
  {
    var rejection := ReadingRejection(studentId, materialId, batchId, answers, material);
    if rejection.Some? then (rejection.value, rows)
    else
      var questions := QuestionsOf(material.value);
      var score := ReadingScore(questions, answers.entries);
      var key := (materialId.value, studentId.value);
      var existing := if faults.lookup then None else Single(Matching(rows, ReadingOwner, key));
      if existing.Some? && Present(existing.value.submittedAt) then (ReadingAlreadySubmitted, rows)
      else if faults.write then (ReadingSaveFailed, rows)
      else if existing.Some? then
        SoleMatchIndex(rows, ReadingOwner, key);
        var i := IndexOfKey(rows, ReadingOwner, key).value;
        var updated := rows[i].(answers := answers.entries, score := score, maxScore := |questions|,
                                submittedAt := Some(now));
        assert ReadingOwner(updated) == key;
        var table := rows[i := updated];
        assert table[i] == updated;
        (ReadingSubmitted(updated), table)
      else
        var attempt := ReadingAttempt(materialId.value, studentId.value, batchId.value, answers.entries, score,
                                      |questions|, Some(now));
        (ReadingSubmitted(attempt), rows + [attempt])
  }

  /** With a working lookup, there is one attempt per material and student,
      and a stored attempt is the only one of its owner. */
  lemma ReadingKeepsOnePerOwner(rows: seq<ReadingAttempt>, studentId: Option<Id>, materialId: Option<Id>,
                                batchId: Option<Id>, answers: AnswersInput, material: Option<QuestionsField>,
                                faults: ReadingFaults, now: string)
    requires OnePerKey(rows, ReadingOwner) && !faults.lookup
    ensures var r := ReadingSpec(rows, studentId, materialId, batchId, answers, material, faults, now);
            && OnePerKey(r.1, ReadingOwner)
            && (r.0.ReadingSubmitted? ==> Matching(r.1, ReadingOwner, ReadingOwner(r.0.attempt)) == [r.0.attempt])
  {
    var r := ReadingSpec(rows, studentId, materialId, batchId, answers, material, faults, now);
    if r.0.ReadingSubmitted? {
      var key := (materialId.value, studentId.value);
      AtMostOne(rows, ReadingOwner, key);
      if |Matching(rows, ReadingOwner, key)| == 1 {
        SoleMatchIndex(rows, ReadingOwner, key);
        var i := IndexOfKey(rows, ReadingOwner, key).value;
        ReplaceKeepsOnePerKey(rows, ReadingOwner, i, r.0.attempt);
        ReplaceIsOnlyMatch(rows, ReadingOwner, i, r.0.attempt);
      } else {
        AppendFresh(rows, ReadingOwner, r.0.attempt);
      }
    }
  }

  /** An unsubmitted attempt is completed in place: no row is added, and the
      attempt keeps the batch it was created for. */
  lemma ReadingUpdatesInPlace(rows: seq<ReadingAttempt>, studentId: Option<Id>, materialId: Option<Id>,
                              batchId: Option<Id>, answers: AnswersInput, material: Option<QuestionsField>,
                              faults: ReadingFaults, now: string, previous: ReadingAttempt)
    requires !faults.lookup
    requires Present(studentId) && Present(materialId)
    requires Matching(rows, ReadingOwner, (materialId.value, studentId.value)) == [previous]
    requires !Present(previous.submittedAt)
    requires ReadingSpec(rows, studentId, materialId, batchId, answers, material, faults, now).0.ReadingSubmitted?
    ensures var r := ReadingSpec(rows, studentId, materialId, batchId, answers, material, faults, now);
            |r.1| == |rows| && r.0.attempt.batchId == previous.batchId
  {
    SoleMatchIndex(rows, ReadingOwner, (materialId.value, studentId.value));
  }

  /** Only one submission is allowed: after a stored submission, another one
      for the same material and student changes nothing. */
  lemma ReadingSingleSubmission(rows: seq<ReadingAttempt>, studentId: Option<Id>, materialId: Option<Id>,
                                batchId: Option<Id>, answers: AnswersInput, material: Option<QuestionsField>,
                                faults: ReadingFaults, now: string, batchId2: Option<Id>, answers2: AnswersInput,
                                material2: Option<QuestionsField>, faults2: ReadingFaults, now2: string)
    requires OnePerKey(rows, ReadingOwner) && !faults.lookup && !faults2.lookup && now != ""
    requires ReadingSpec(rows, studentId, materialId, batchId, answers, material, faults, now).0.ReadingSubmitted?
    ensures var once := ReadingSpec(rows, studentId, materialId, batchId, answers, material, faults, now).1;
            var twice := ReadingSpec(once, studentId, materialId, batchId2, answers2, material2, faults2, now2);
            twice.1 == once && !twice.0.ReadingSubmitted?
  {
    ReadingKeepsOnePerOwner(rows, studentId, materialId, batchId, answers, material, faults, now);
  }

  class ReadingAttemptTable {
    var rows: seq<ReadingAttempt>

    constructor (initial: seq<ReadingAttempt>)
      ensures rows == initial
    {
      rows := initial;
    }

    /** submitReadingAttempt over the attempts table. */
    method Submit(studentId: Option<Id>, materialId: Option<Id>, batchId: Option<Id>, answers: AnswersInput,
                  material: Option<QuestionsField>, faults: ReadingFaults, now: string)
      returns (r: ReadingOutcome)
      modifies this
      ensures (r, rows) == ReadingSpec(old(rows), studentId, materialId, batchId, answers, material, faults, now)
    {
      var rejection := ReadingRejection(studentId, materialId, batchId, answers, material);
      if rejection.Some? {
        return rejection.value;
      }
      var questions := QuestionsOf(material.value);
      var score := ScoreReading(questions, answers.entries);
      var key := (materialId.value, studentId.value);
      var existing: Option<ReadingAttempt> := None;
      if !faults.lookup {
        existing := Single(Matching(rows, ReadingOwner, key));
      }
      if existing.Some? && Present(existing.value.submittedAt) {
        return ReadingAlreadySubmitted;
      }
      if faults.write {
        return ReadingSaveFailed;
      }
      if existing.Some? {
        SoleMatchIndex(rows, ReadingOwner, key);
        var i := IndexOfKey(rows, ReadingOwner, key).value;
        var updated := rows[i].(answers := answers.entries, score := score, maxScore := |questions|,
                                submittedAt := Some(now));
        rows := rows[i := updated];
        r := ReadingSubmitted(updated);
      } else {
        var attempt := ReadingAttempt(materialId.value, studentId.value, batchId.value, answers.entries, score,
                                      |questions|, Some(now));
        rows := rows + [attempt];
        r := ReadingSubmitted(attempt);
      }
    }
  }

  // ---------------------------------------------------------------------
  // Writing: submitWritingTask
  // ---------------------------------------------------------------------

  /** A row of `writing_submissions`. */
  datatype WritingSubmission = WritingSubmission(studentId: Id, taskId: Id, batchId: Id, imageUrl: string,
                                                 submittedAt: string)

  function WritingKey(w: WritingSubmission): (Id, Id, Id) {
    (w.studentId, w.taskId, w.batchId)
  }

  datatype WritingFaults = WritingFaults(mapping: bool, lookup: bool, write: bool)

  datatype WritingOutcome =
    | WritingUnauthorized   // 401
    | WritingMissingFields  // 400
    | WritingNotVisible     // 403
    | WritingSaveFailed     // 500
    | WritingSubmitted(submission: WritingSubmission)

  /** submitWritingTask: the response and the submissions table afterwards;
      `maps` is the `writing_batch_map` table. */
  function WritingSpec(rows: seq<WritingSubmission>, maps: seq<BatchMap>, studentId: Option<Id>, taskId: Option<Id>,
                       batchId: Option<Id>, imageUrl: Option<string>, faults: WritingFaults, now: string)
    : (r: (WritingOutcome, seq<WritingSubmission>))
    ensures r.0 == WritingUnauthorized <==> !Present(studentId)
    ensures r.0 == WritingMissingFields <==>
              Present(studentId) && (!Present(taskId) || !Present(batchId) || !Present(imageUrl))
    ensures r.0 == WritingNotVisible <==>
              Present(studentId) && Present(taskId) && Present(batchId) && Present(imageUrl)
              && !Visible(maps, taskId.value, batchId.value, faults.mapping)
    ensures r.0 == WritingSaveFailed <==>
              Present(studentId) && Present(taskId) && Present(batchId) && Present(imageUrl)
              && Visible(maps, taskId.value, batchId.value, faults.mapping) && faults.write
    ensures !r.0.WritingSubmitted? ==> r.1 == rows
    ensures r.0.WritingSubmitted? ==>
              && r.0.submission == WritingSubmission(studentId.value, taskId.value, batchId.value, imageUrl.value, now)
              && r.0.submission in r.1
    ensures r.0.WritingSubmitted? ==>
              var key := (studentId.value, taskId.value, batchId.value);
              if !faults.lookup && |Matching(rows, WritingKey, key)| == 1 then
                && IndexOfKey(rows, WritingKey, key).Some?
                && r.1 == rows[IndexOfKey(rows, WritingKey, key).value := r.0.submission]
              else
                r.1 == rows + [r.0.submission]
  {
    if !Present(studentId) then (WritingUnauthorized, rows)
    else if !Present(taskId) || !Present(batchId) || !Present(imageUrl) then (WritingMissingFields, rows)
    else if !Visible(maps, taskId.value, batchId.value, faults.mapping) then (WritingNotVisible, rows)
    else
      var key := (studentId.value, taskId.value, batchId.value);
      var existing := if faults.lookup then None else Single(Matching(rows, WritingKey, key));
      if faults.write then (WritingSaveFailed, rows)
      else if existing.Some? then
        SoleMatchIndex(rows, WritingKey, key);
        var i := IndexOfKey(rows, WritingKey, key).value;
        var updated := rows[i].(imageUrl := imageUrl.value, submittedAt := now);
        assert WritingKey(updated) == key;
        var table := rows[i := updated];
        assert table[i] == updated;
        (WritingSubmitted(updated), table)
      else
        var submission := WritingSubmission(studentId.value, taskId.value, batchId.value, imageUrl.value, now);
        (WritingSubmitted(submission), rows + [submission])
  }

  /** With a working lookup, the table keeps one submission per (student,
      task, batch), and the stored one is the only one of its key. */
  lemma WritingKeepsOnePerKey(rows: seq<WritingSubmission>, maps: seq<BatchMap>, studentId: Option<Id>,
                              taskId: Option<Id>, batchId: Option<Id>, imageUrl: Option<string>,
                              faults: WritingFaults, now: string)
    requires OnePerKey(rows, WritingKey) && !faults.lookup
    ensures var r := WritingSpec(rows, maps, studentId, taskId, batchId, imageUrl, faults, now);
            && OnePerKey(r.1, WritingKey)
            && (r.0.WritingSubmitted? ==> Matching(r.1, WritingKey, WritingKey(r.0.submission)) == [r.0.submission])
  {
    var r := WritingSpec(rows, maps, studentId, taskId, batchId, imageUrl, faults, now);
    if r.0.WritingSubmitted? {
      var key := (studentId.value, taskId.value, batchId.value);
      AtMostOne(rows, WritingKey, key);
      if |Matching(rows, WritingKey, key)| == 1 {
        SoleMatchIndex(rows, WritingKey, key);
        var i := IndexOfKey(rows, WritingKey, key).value;
        ReplaceKeepsOnePerKey(rows, WritingKey, i, r.0.submission);
        ReplaceIsOnlyMatch(rows, WritingKey, i, r.0.submission);
      } else {
        AppendFresh(rows, WritingKey, r.0.submission);
      }
    }
  }

  /** A resubmission overwrites: the table does not grow, and the only row
      of the key carries the new image and time. */
  lemma WritingResubmitOverwrites(rows: seq<WritingSubmission>, maps: seq<BatchMap>, studentId: Option<Id>,
                                  taskId: Option<Id>, batchId: Option<Id>, imageUrl: Option<string>,
                                  faults: WritingFaults, now: string, imageUrl2: Option<string>,
                                  faults2: WritingFaults, now2: string)
    requires OnePerKey(rows, WritingKey) && !faults.lookup && !faults2.lookup
    requires WritingSpec(rows, maps, studentId, taskId, batchId, imageUrl, faults, now).0.WritingSubmitted?
    requires WritingSpec(WritingSpec(rows, maps, studentId, taskId, batchId, imageUrl, faults, now).1,
                         maps, studentId, taskId, batchId, imageUrl2, faults2, now2).0.WritingSubmitted?
    ensures var once := WritingSpec(rows, maps, studentId, taskId, batchId, imageUrl, faults, now).1;
            var twice := WritingSpec(once, maps, studentId, taskId, batchId, imageUrl2, faults2, now2);
            && |twice.1| == |once|
            && Matching(twice.1, WritingKey, (studentId.value, taskId.value, batchId.value))
                 == [WritingSubmission(studentId.value, taskId.value, batchId.value, imageUrl2.value, now2)]
  {
    var once := WritingSpec(rows, maps, studentId, taskId, batchId, imageUrl, faults, now);
    WritingKeepsOnePerKey(rows, maps, studentId, taskId, batchId, imageUrl, faults, now);
    WritingKeepsOnePerKey(once.1, maps, studentId, taskId, batchId, imageUrl2, faults2, now2);
    SoleMatchIndex(once.1, WritingKey, (studentId.value, taskId.value, batchId.value));
  }

  class WritingSubmissionTable {
    var rows: seq<WritingSubmission>

    constructor (initial: seq<WritingSubmission>)
      ensures rows == initial
    {
      rows := initial;
    }

    /** submitWritingTask over the submissions table. */
    method Submit(maps: seq<BatchMap>, studentId: Option<Id>, taskId: Option<Id>, batchId: Option<Id>,
                  imageUrl: Option<string>, faults: WritingFaults, now: string)
      returns (r: WritingOutcome)
      modifies this
      ensures (r, rows) == WritingSpec(old(rows), maps, studentId, taskId, batchId, imageUrl, faults, now)
    {
      if !Present(studentId) {
        return WritingUnauthorized;
      }
      if !Present(taskId) || !Present(batchId) || !Present(imageUrl) {
        return WritingMissingFields;
      }
      if !Visible(maps, taskId.value, batchId.value, faults.mapping) {
        return WritingNotVisible;
      }
      var key := (studentId.value, taskId.value, batchId.value);
      var existing: Option<WritingSubmission> := None;
      if !faults.lookup {
        existing := Single(Matching(rows, WritingKey, key));
      }
      if faults.write {
        return WritingSaveFailed;
      }
      if existing.Some? {
        SoleMatchIndex(rows, WritingKey, key);
        var i := IndexOfKey(rows, WritingKey, key).value;
        var updated := rows[i].(imageUrl := imageUrl.value, submittedAt := now);
        rows := rows[i := updated];
        r := WritingSubmitted(updated);
      } else {
        var submission := WritingSubmission(studentId.value, taskId.value, batchId.value, imageUrl.value, now);
        rows := rows + [submission];
        r := WritingSubmitted(submission);
      }
    }
  }
}
