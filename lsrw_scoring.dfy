/** Scoring of the LSRW (listening, speaking, reading, writing) exercises
    (controllers/lsrwController.js): the listening quiz score and its scaling
    to marks, the reading quiz score, and the upload type tables. */
module LsrwScoring {
  import opened Common
  import opened Text
  import opened Rounding

  // ---------------------------------------------------------------------
  // Listening quiz
  // ---------------------------------------------------------------------

  /** A quiz question: `questionNumber` and `correctAnswer`, either absent. */
  datatype QuizQuestion = QuizQuestion(questionNumber: Option<string>, correctAnswer: Option<string>)

  /** The answer key of question `i` (0-based): its number, or `Q{i+1}`. */
  function QuestionKey(q: QuizQuestion, i: nat): string {
    if Present(q.questionNumber) then q.questionNumber.value else "Q" + NatToString(i + 1)
  }

  /** `answers[key] || answers[key.toLowerCase()]`, with "" falsy. */
  function LookupAnswer(answers: map<string, string>, key: string): (r: Option<string>)
    ensures r.Some? ==> r.value != ""
    ensures r.Some? ==> (key in answers && r.value == answers[key]) || (ToLower(key) in answers && r.value == answers[ToLower(key)])
    ensures r.None? ==> (key !in answers || answers[key] == "") && (ToLower(key) !in answers || answers[ToLower(key)] == "")
  {
    if key in answers && answers[key] != "" then Some(answers[key])
    else if ToLower(key) in answers && answers[ToLower(key)] != "" then Some(answers[ToLower(key)])
    else None
  }

  /** Answers compare lower-cased and trimmed; a missing correct answer is "". */
  function Normalised(s: string): string {
    Trim(ToLower(s))
  }

  predicate QuizCorrect(questions: seq<QuizQuestion>, i: nat, answers: map<string, string>)
    requires i < |questions|
  {
    var given := LookupAnswer(answers, QuestionKey(questions[i], i));
    given.Some? && Normalised(given.value) == Normalised(questions[i].correctAnswer.GetOr(""))
  }

  /** The number of correctly answered questions among the first `n`. */
  function QuizScoreUpTo(questions: seq<QuizQuestion>, n: nat, answers: map<string, string>): (score: nat)
    requires n <= |questions|
    ensures score <= n
  {
    if n == 0 then 0
    else QuizScoreUpTo(questions, n - 1, answers) + (if QuizCorrect(questions, n - 1, answers) then 1 else 0)
  }

  function QuizScore(questions: seq<QuizQuestion>, answers: map<string, string>): (score: nat)
    ensures score <= |questions|
  {
    QuizScoreUpTo(questions, |questions|, answers)
  }

  /** The scoring loop of submitStudentAnswers. */
  method ScoreQuiz(questions: seq<QuizQuestion>, answers: map<string, string>) returns (score: nat)
    ensures score == QuizScore(questions, answers)
    ensures score <= |questions|
  {
    score := 0;
    var index := 0;
    while index < |questions|
      invariant index <= |questions|
      invariant score == QuizScoreUpTo(questions, index, answers)
    {
      var q := questions[index];
      var questionKey := QuestionKey(q, index);
      var studentAnswer := LookupAnswer(answers, questionKey);
      var correctAnswer := Normalised(q.correctAnswer.GetOr(""));
      if studentAnswer.Some? && Normalised(studentAnswer.value) == correctAnswer {
        score := score + 1;
      }
      index := index + 1;
    }
  }

  /** Every question answered correctly gives the full score. */
  lemma {:induction false} QuizAllCorrect(questions: seq<QuizQuestion>, n: nat, answers: map<string, string>)
    requires n <= |questions|
    requires forall i :: 0 <= i < n ==> QuizCorrect(questions, i, answers)
    ensures QuizScoreUpTo(questions, n, answers) == n
  {
    if n > 0 {
      assert QuizCorrect(questions, n - 1, answers);
      QuizAllCorrect(questions, n - 1, answers);
    }
  }

  /** A question counts only when answered, so no answers score nothing. */
  lemma {:induction false} QuizNoAnswers(questions: seq<QuizQuestion>, n: nat)
    requires n <= |questions|
    ensures QuizScoreUpTo(questions, n, map[]) == 0
  {
    if n > 0 {
      QuizNoAnswers(questions, n - 1);
    }
  }

  /** The score counts exactly the correct questions: it is the size of the
      set of their indices. */
  lemma {:induction false} QuizScoreCounts(questions: seq<QuizQuestion>, n: nat, answers: map<string, string>)
    requires n <= |questions|
    ensures QuizScoreUpTo(questions, n, answers) == |set i | 0 <= i < n && QuizCorrect(questions, i, answers)|
  {
    if n > 0 {
      QuizScoreCounts(questions, n - 1, answers);
      var before := set i | 0 <= i < n - 1 && QuizCorrect(questions, i, answers);
      var now := set i | 0 <= i < n && QuizCorrect(questions, i, answers);
      if QuizCorrect(questions, n - 1, answers) {
        assert now == before + {n - 1};
      } else {
        assert now == before;
      }
    }
  }

  /** Letter case and surrounding blanks do not matter: a question whose
      answer normalises like its correct answer scores. */
  lemma QuizIgnoresCase(questions: seq<QuizQuestion>, i: nat, answers: map<string, string>, given: string)
    requires i < |questions|
    requires QuestionKey(questions[i], i) in answers && answers[QuestionKey(questions[i], i)] == given
    requires given != "" && Normalised(given) == Normalised(questions[i].correctAnswer.GetOr(""))
    ensures QuizCorrect(questions, i, answers)
    ensures QuizScoreUpTo(questions, i + 1, answers) == QuizScoreUpTo(questions, i, answers) + 1
  {
  }

  /** When the exact key holds nothing, the lower-cased key is consulted. */
  lemma QuizLowerCaseKey(questions: seq<QuizQuestion>, i: nat, answers: map<string, string>)
    requires i < |questions|
    requires QuestionKey(questions[i], i) !in answers
    requires ToLower(QuestionKey(questions[i], i)) in answers
    ensures QuizCorrect(questions, i, answers) <==>
              var given := answers[ToLower(QuestionKey(questions[i], i))];
              given != "" && Normalised(given) == Normalised(questions[i].correctAnswer.GetOr(""))
  {
  }

  // ---------------------------------------------------------------------
  // Marks
  // ---------------------------------------------------------------------

  /** `max_marks || questions.length`: an unset or zero maximum falls back to
      the number of questions. */
  function MaxMarks(maxMarks: Option<int>, questionCount: nat): (m: int)
    ensures maxMarks.None? || maxMarks.value == 0 ==> m == questionCount
    ensures maxMarks.Some? && maxMarks.value != 0 ==> m == maxMarks.value
  {
    if maxMarks.Some? && maxMarks.value != 0 then maxMarks.value else questionCount
  }

  /** `maxMarks > 0 ? Math.round(score / count * maxMarks) : score`; `None`
      is the NaN of a quiz with a maximum but no questions. */
  function Marks(score: nat, questionCount: nat, maxMarks: int): (r: Option<int>)
    ensures maxMarks <= 0 ==> r == Some(score)
    ensures maxMarks > 0 && questionCount == 0 ==> r.None?
    ensures maxMarks > 0 && questionCount > 0 ==> r == Some(Scaled(score, questionCount, maxMarks))
  {
    if maxMarks > 0 then
      if questionCount == 0 then None else Some(Scaled(score, questionCount, maxMarks))
    else Some(score)
  }

  /** With a positive maximum, marks lie between 0 and the maximum; all
      correct gives the maximum and none correct gives 0. */
  lemma MarksBounds(score: nat, questionCount: nat, maxMarks: int)
    requires 0 < questionCount && score <= questionCount && maxMarks > 0
    ensures 0 <= Marks(score, questionCount, maxMarks).value <= maxMarks
    ensures score == questionCount ==> Marks(score, questionCount, maxMarks) == Some(maxMarks)
    ensures score == 0 ==> Marks(score, questionCount, maxMarks) == Some(0)
  {
    ScaledBounds(score, questionCount, maxMarks);
  }

  /** More correct answers never give fewer marks. */
  lemma MarksMonotone(s1: nat, s2: nat, questionCount: nat, maxMarks: int)
    requires s1 <= s2 <= questionCount && 0 < questionCount && maxMarks > 0
    ensures Marks(s1, questionCount, maxMarks).value <= Marks(s2, questionCount, maxMarks).value
  {
    ScaledMonotone(s1, s2, questionCount, maxMarks);
  }

  // ---------------------------------------------------------------------
  // Reading quiz
  // ---------------------------------------------------------------------

  /** A reading question's `correct_answer`, possibly absent. */
  datatype ReadingQuestion = ReadingQuestion(correctAnswer: Option<string>)

  /** `x?.toUpperCase()`: absent stays absent. */
  function UpperOpt(x: Option<string>): Option<string> {
    match x
    case None => None
    case Some(s) => Some(ToUpper(s))
  }

  function ReadingKey(i: nat): string {
    "question" + NatToString(i + 1)
  }

  /** `answers[question{i+1}]?.toUpperCase() === correct_answer?.toUpperCase()`;
      two absent values are equal. */
  predicate ReadingCorrect(questions: seq<ReadingQuestion>, i: nat, answers: map<string, string>)
    requires i < |questions|
  {
    var given := if ReadingKey(i) in answers then Some(answers[ReadingKey(i)]) else None;
    UpperOpt(given) == UpperOpt(questions[i].correctAnswer)
  }

  function ReadingScoreUpTo(questions: seq<ReadingQuestion>, n: nat, answers: map<string, string>): (score: nat)
    requires n <= |questions|
    ensures score <= n
  {
    if n == 0 then 0
    else ReadingScoreUpTo(questions, n - 1, answers) + (if ReadingCorrect(questions, n - 1, answers) then 1 else 0)
  }

  function ReadingScore(questions: seq<ReadingQuestion>, answers: map<string, string>): (score: nat)
    ensures score <= |questions|
  {
    ReadingScoreUpTo(questions, |questions|, answers)
  }

  /** The scoring loop of submitReadingAttempt. */
  method ScoreReading(questions: seq<ReadingQuestion>, answers: map<string, string>) returns (score: nat)
    ensures score == ReadingScore(questions, answers)
    ensures score <= |questions|
  {
    score := 0;
    var index := 0;
    while index < |questions|
      invariant index <= |questions|
      invariant score == ReadingScoreUpTo(questions, index, answers)
    {
      var questionKey := ReadingKey(index);
      var studentAnswer := if questionKey in answers then UpperOpt(Some(answers[questionKey])) else None;
      var correctAnswer := UpperOpt(questions[index].correctAnswer);
      if studentAnswer == correctAnswer {
        score := score + 1;
      }
      index := index + 1;
    }
  }

  /** A question without a correct answer counts as correct when its answer
      is absent too: with no `question{i}` keys and no correct answers, the
      score is full. */
  lemma {:induction false} ReadingAbsentMatchesAbsent(questions: seq<ReadingQuestion>, n: nat,
                                                       answers: map<string, string>)
    requires n <= |questions|
    requires forall i :: 0 <= i < n ==> questions[i].correctAnswer.None? && ReadingKey(i) !in answers
    ensures ReadingScoreUpTo(questions, n, answers) == n
  {
    if n > 0 {
      ReadingAbsentMatchesAbsent(questions, n - 1, answers);
    }
  }

  /** Every answer equal to its correct answer up to letter case gives the
      full score. */
  lemma {:induction false} ReadingAllCorrect(questions: seq<ReadingQuestion>, n: nat, answers: map<string, string>)
    requires n <= |questions|
    requires forall i :: 0 <= i < n ==>
               questions[i].correctAnswer.Some? && ReadingKey(i) in answers
               && ToUpper(answers[ReadingKey(i)]) == ToUpper(questions[i].correctAnswer.value)
    ensures ReadingScoreUpTo(questions, n, answers) == n
  {
    if n > 0 {
      ReadingAllCorrect(questions, n - 1, answers);
    }
  }

  // ---------------------------------------------------------------------
  // Upload types
  // ---------------------------------------------------------------------

  datatype Upload = Upload(extension: string, contentType: string)

  /** uploadSpeakingAudio: the stored extension and content type. Every
      content type is one the `lsrw` bucket accepts. */
  function AudioUpload(mimetype: string): (u: Upload)
    ensures u.contentType == "audio/mpeg" || u.contentType == "audio/wav"
    ensures u.extension == ".wav" <==> u.contentType == "audio/wav"
    ensures u.extension == ".wav" <==> mimetype == "audio/wav" || mimetype == "audio/wave"
    ensures u.extension == ".mp3" <==> mimetype == "audio/mpeg" || mimetype == "audio/mp3"
  {
    if mimetype == "audio/mpeg" || mimetype == "audio/mp3" then Upload(".mp3", "audio/mpeg")
    else if mimetype == "audio/wav" || mimetype == "audio/wave" then Upload(".wav", "audio/wav")
    else if mimetype == "audio/webm" || mimetype == "audio/ogg" then Upload(".webm", "audio/mpeg")
    else Upload(".webm", "audio/mpeg")
  }

  /** uploadWritingImage: PNG stays PNG, everything else is stored as JPEG. */
  function ImageUpload(mimetype: string): (u: Upload)
    ensures u.contentType == "image/png" <==> mimetype == "image/png"
    ensures u.extension == ".png" <==> u.contentType == "image/png"
    ensures u.contentType != "image/png" ==> u == Upload(".jpg", "image/jpeg")
  {
    if mimetype == "image/png" then Upload(".png", "image/png")
    else if mimetype == "image/jpeg" || mimetype == "image/jpg" then Upload(".jpg", "image/jpeg")
    else Upload(".jpg", "image/jpeg")
  }

  /** WebM, Ogg and unknown audio are all stored as `.webm` labelled MPEG. */
  lemma AudioFallback(mimetype: string)
    requires mimetype != "audio/mpeg" && mimetype != "audio/mp3"
    requires mimetype != "audio/wav" && mimetype != "audio/wave"
    ensures AudioUpload(mimetype) == Upload(".webm", "audio/mpeg")
  {
  }
}
