# Student LMS backend: a verified model of its request-handling core

This project models, in Dafny, the business rules of a student-facing REST
backend for a language school's LMS. The backend covers batch enrollment, seat
occupancy, merged batches, payment-mode locks, gateway payment recording, the
listening/speaking/reading/writing (LSRW) modules, attendance, EMI reminder
notifications, events, notifications, certificates and student accounts. The
handlers read and write tables of a managed relational store. Here every table
is a sequence of rows. A table a handler changes is a field of a class whose
methods change it. Every handler is first stated as a pure function from the
old table and the request to the answer and the new table. The class method is
proved against that function, and lemmas prove what the handler promises about
the function.

Modules, one per source file, plus shared helpers:

- `Batches` (`batches.dfy`) — `controllers/batchController.js`: the approved
  and enrolled batch union, the seat snapshot, the visibility filter and counts,
  `enrollStudent` and the lazy expiry loop of `getEnrolledBatches`.
- `BatchesOptimized` (`batches_optimized.dfy`) —
  `controllers/batchControllerOptimized.js`: the same handlers over the
  seat-availability view, with the status-gated expiry.
- `MergeGroups` (`merge_groups.dfy`) — `controllers/classController.js`:
  merged batch id resolution and the notes and GMeet filters.
- `PaymentLock` (`payment_lock.dfy`) — `controllers/paymentLockController.js`:
  the create-once payment-mode lock per register number and scope.
- `Razorpay` (`razorpay.dfy`) — `controllers/razorpayController.js`: the
  order input check and the idempotent, normalised payment insert of
  `verifyPayment`.
- `PaymentWebhook` (`payment_webhook.dfy`) —
  `controllers/paymentWebhookController.js`: the signed `payment.captured`
  webhook sharing that insert.
- `LsrwScoring`, `LsrwAttempts`, `LsrwViews` (`lsrw_scoring.dfy`,
  `lsrw_attempts.dfy`, `lsrw_views.dfy`) — `controllers/lsrwController.js`:
  quiz and reading scoring, marks, MIME-type mapping, the attempt and
  submission tables, score visibility, attempt selection and session ordering.
- `Attendance` (`attendance.dfy`) — `controllers/attendanceController.js`:
  per-batch counts, percentage and session details.
- `EmiReminders` (`emi_reminders.dfy`) — `cron/emiExpiryNotifications.js`: the
  daily reminder loop, both as written and as intended.
- `Events` (`events.dfy`) — `controllers/eventController.js`: the date string
  and the expiry and range filters.
- `Notifications` (`notifications.dfy`) —
  `controllers/notificationsController.js`: the listing and mark-as-read.
- `Certificates` (`certificates.dfy`) —
  `controllers/studentCertificateController.js`: marks and certificate reads,
  certificate lookup, and the storage path and file name taken from a URL.
- `Students` (`students.dfy`) — `controllers/studentController.js`:
  registration, login, reset codes, e-mail masking, password reset and
  profile-picture removal.
- Shared helpers: `Common` (options, filters, `.single()`), `Text`
  (JavaScript string operations: split, join, trim, ASCII case, comparison,
  ISO date strings), `Ordering` (a stable sort by a key, used for every
  `.order(...)`), `KeyedRows` (tables with at most one row per key), `JsValues`
  (JavaScript truthiness and `Number()` on digit strings) and `Rounding`
  (`Math.round(part / whole * scale)` on integers).

Store errors, signature checks, hashes, random draws and the clock are
parameters. A store error is a boolean fault, or a record of faults, for each
query the handler branches on.

Two facts about the code shape the model:

- `createOrder` takes no payment-mode lock
  (controllers/razorpayController.js:14-73), so `Razorpay.CreateOrder` has no
  lock condition.
- The reminder text holds the day count, the course, the batch and the due
  date (cron/emiExpiryNotifications.js:77-84). `EmiReminders.Message` takes
  all of them, and `EmiReminders.MessageTellsDaysApart` shows that equal texts
  mean equal day counts.

## Model

| member | source | states |
|---|---|---|
| Batches.CombineBatches | controllers/batchController.js:63-80 | the Map-building loops return exactly the combined list `Union(approved, enrolled)` |
| Batches.UnionIds | controllers/batchController.js:63-80 | the combined list holds each batch id once, and its ids are exactly those of the approved and the enrolled lists |
| Batches.UnionRows | controllers/batchController.js:65-77 | a batch both approved and enrolled is listed as its approved row; any other listed batch is an enrolled row |
| Batches.UnionPrefix | controllers/batchController.js:65-80 | with distinct approved ids, the combined list starts with the approved rows in their own order |
| Batches.SetAllSpec | controllers/batchController.js:66-70 | after the approved pass the Map holds exactly the approved ids, each mapped to an approved row |
| Batches.SetAllKeys | controllers/batchController.js:66-70 | with distinct ids every `set` appends a key, so the key order is the approved order |
| Batches.SetAllEntry | controllers/batchController.js:66-70 | with distinct ids each approved row is the entry under its own id |
| Batches.AddAbsentSpec | controllers/batchController.js:73-77 | the enrolled pass keeps every earlier entry unchanged, adds only rows of the enrolled list, and keeps the earlier key order as a prefix |
| Batches.MapSetSpec | controllers/batchController.js:68 | `Map.set` adds the key and keeps the order of the existing keys |
| Batches.SeatSnapshot | controllers/batchController.js:85-108 | capacity is the configured value, or 10 when unset or 0; enrolled counts every row of the batch whatever its status (0 when the count fails); seats left are capacity minus enrolled; full iff no seats are left |
| Batches.Summarise | controllers/batchController.js:118-128 | a view is shown iff it is not full or the student is in it; total counts all views, available the non-full ones, enrolled the student's ones, full the hidden ones |
| Batches.EnrolledIdsOf | controllers/batchController.js:33-42 | the ids are exactly the batches the student has an enrollment in, any status; none without a student or when the query fails |
| Batches.ListBatches | controllers/batchController.js:7-120 | 400 exactly when the center is missing, a listing exactly when the approved query works, and the listed views are exactly the considered ones that are not full or hold the student |
| Batches.GetBatchesByCenter | controllers/batchController.js:4-129 | the handler returns `ListBatches` of its inputs |
| Batches.CombinedCoverage | controllers/batchController.js:14-60 | a batch is considered iff it is an Approved batch of the center or the student has an enrollment in it, whatever its center or status |
| Batches.CombinedDistinct | controllers/batchController.js:63-80 | no batch is considered twice |
| Batches.CombinedSeats | controllers/batchController.js:83-112 | each considered batch carries the seat snapshot over all its enrollment rows, and is marked as the student's iff the student has an enrollment in it |
| Batches.EnrolledBatchListed | controllers/batchController.js:45-120 | a batch the student is enrolled in is listed and marked, even when full, in another center or not Approved |
| Batches.SameIdSameBatch | controllers/batchController.js:54 | batch ids identify batches: two rows with one id are the same row |
| Batches.EnrollSpec | controllers/batchController.js:137-220 | missing batch id gives 400 exactly when the id is absent; "already enrolled" (400) exactly when the duplicate read works and finds one (student, batch) row; 404 exactly when neither of those and the batch read fails or finds no single row; for a found batch, full (400) exactly when the current count (0 when the count read fails) reaches the maximum (10 when unset), 400 with the store's message exactly when it is not full and the insert fails, success otherwise with seats remaining max − count − 1 and free-course flag of the batch; every rejection leaves the table unchanged; success appends exactly one row whose status and permanence are both the free-course test of the batch |
| Batches.OnePerPairMatches | controllers/batchController.js:142-147 | with one row per pair the duplicate query matches at most one row |
| Batches.EnrollKeepsOnePerPair | controllers/batchController.js:142-207 | with a working duplicate check, enrolling keeps at most one row per (student, batch) |
| Batches.EnrollTwiceRejected | controllers/batchController.js:142-151 | a second enrollment of the same pair is rejected as a duplicate and leaves the table as the first left it |
| Batches.EnrollWithinCapacity | controllers/batchController.js:175-193 | with a working count, a successful enrollment adds exactly one row to the batch and never takes it past its capacity |
| Batches.FilterOrderDuplicate | controllers/batchController.js:142-147 | a query result can only repeat a row the table repeats |
| Batches.ExpireRowsSpec | controllers/batchController.js:253-265 | permanent rows are never touched; a row's status stays true exactly when it was true and the row is not both listed and expired (end date present and before today, not permanent); every other field of every row is unchanged |
| Batches.ExpireRows | controllers/batchController.js:253-265 | the table keeps its length and each position keeps its enrollment id |
| Batches.ExpireIdempotent | controllers/batchController.js:253-265 | expiring twice is expiring once |
| Batches.ExpireKeepsSeatCounts | controllers/batchController.js:85-95 | expiry changes no seat snapshot, since the count takes rows of any status |
| Batches.ExpiredByCalendar | controllers/batchController.js:249-256 | on zero-padded `YYYY-MM-DD` dates the string test is the calendar test |
| Batches.ExpireLoopStep | controllers/batchController.js:253-264 | one turn of the loop writes `status = false` to the listed row iff it is expired and its update does not fail, and clears the response object iff it is expired |
| Batches.FailedUpdateDiverges | controllers/batchController.js:253-262 | an expired listed row whose update fails keeps its status in the table while the response shows it as false |
| Batches.ExpireStep | controllers/batchController.js:258-261 | writing one expired row's status moves it into the expired set; a row that is not expired changes nothing |
| Batches.EnrollmentTable.Enroll | controllers/batchController.js:133-221 | the outcome and the new table are those of `EnrollSpec`, and an id is used only on success |
| Batches.EnrollmentTable.ListEnrolled | controllers/batchController.js:224-268 | on a failed query nothing changes; otherwise the response is the listed rows with the expired ones cleared, and the table has `status = false` written to each expired listed row whose update does not fail; a failing update is ignored |
| BatchesOptimized.FindRow | controllers/batchControllerOptimized.js:40-42 | a found view row is a row of the view for that batch; none means the view has no row for it |
| BatchesOptimized.MergeRow | controllers/batchControllerOptimized.js:44-52 | without a view row the batch shows its own capacity or 10, no one enrolled, all seats free and not full; it is full iff its view row says so |
| BatchesOptimized.ListByCenter | controllers/batchControllerOptimized.js:8-63 | 400 iff no center, 500 iff either read fails; total is the number of the center's listable batches; listed batches are the center's Approved, Started or Completed ones that are not full, every such batch is listed iff not full, available counts the listed ones and full is total minus available |
| BatchesOptimized.FullNeverListed | controllers/batchControllerOptimized.js:55-56 | a full batch is never listed, also to a student enrolled in it |
| BatchesOptimized.EnrollViaViewSpec | controllers/batchControllerOptimized.js:79-133 | 400 exactly when the id is missing; "already enrolled" exactly when the duplicate read works and finds a row; 404 exactly when neither of those and the view read fails or finds no single row; for a found view row, full exactly when `is_full` is true or the seat count is null or at most 0 (with the view's maximum), 500 exactly when not full and the insert fails, success otherwise with the view's name and seats remaining one less than the view's available seats; a rejection leaves the table unchanged; success appends one row with status false and not permanent |
| BatchesOptimized.ViewEnrollOrder | controllers/batchControllerOptimized.js:85-113 | the duplicate check precedes the not-found check, which precedes the full check (`is_full` or no seats left) |
| BatchesOptimized.EnrollViaView | controllers/batchControllerOptimized.js:75-141 | the outcome and new table are those of `EnrollViaViewSpec` |
| BatchesOptimized.GatedExpiryAgrees | controllers/batchControllerOptimized.js:174-187 | gating the write on `status` gives the same table and the same response as the unconditional expiry |
| BatchesOptimized.GatedStep | controllers/batchControllerOptimized.js:174-186 | one turn of the gated loop writes a row iff it is expired, still active and its update does not fail |
| BatchesOptimized.ListEnrolledGated | controllers/batchControllerOptimized.js:144-197 | on a failed query nothing changes; otherwise the response is the gated expiry of the listed rows and the table is the gated expiry of the listed rows whose update does not fail |
| MergeGroups.MembershipOf | controllers/classController.js:7-11 | exactly the membership rows of the batch |
| MergeGroups.GroupBatchIds | controllers/classController.js:19-28 | exactly the batch ids of the group's membership rows |
| MergeGroups.ResolveGroup | controllers/classController.js:4-33 | the caller is always in the result; any lookup failure or throw, and no single membership row, give just the caller; otherwise the result is exactly the batches sharing its merge group |
| MergeGroups.NoMembership | controllers/classController.js:13-16 | a batch with no row has no membership |
| MergeGroups.SoleMembership | controllers/classController.js:7-16 | in a consistent store a member's `.single()` finds its own row |
| MergeGroups.GroupMembersResolveAlike | controllers/classController.js:7-28 | every batch a resolution returns resolves to the very same list |
| MergeGroups.NotesByBatch | controllers/classController.js:36-58 | 500 iff the query fails; otherwise the notes of the resolved batches, newest first |
| MergeGroups.GMeetsByBatch | controllers/classController.js:61-84 | 500 iff the query fails; otherwise the meetings of the resolved batches, by date then time |
| MergeGroups.NotesExactlyOfGroup | controllers/classController.js:44-48 | a note is returned iff it belongs to a resolved batch |
| MergeGroups.GMeetsExactlyOfGroup | controllers/classController.js:69-74 | a meeting is returned iff it belongs to a resolved batch |
| MergeGroups.GroupMembersShareClasses | controllers/classController.js:41-74 | two batches of one group see the same notes and the same meetings |
| PaymentLock.MatchingLocks | controllers/paymentLockController.js:38-48 | exactly the rows of the student in the scope (batch equal, or batch null for the global scope) |
| PaymentLock.ResolveScope | controllers/paymentLockController.js:14-35 | no enrollment id gives the global scope; an enrollment id gives 404 iff its lookup fails or finds no single row; a per-batch scope is that enrollment's batch |
| PaymentLock.NewLock | controllers/paymentLockController.js:62-69 | the inserted row is in the requested scope, with the requested payment type |
| PaymentLock.LockSpec | controllers/paymentLockController.js:6-88 | 400 iff a field is missing; 404 iff the enrollment is missing; only a success changes the table; 409 iff the lookup works and one lock matches; success appends exactly the new lock; an insert error gives 500 |
| PaymentLock.LockedMode | controllers/paymentLockController.js:95-150 | 404 iff the enrollment is not found; with the scope resolved, not locked iff the lock read fails or does not find exactly one lock, and otherwise that lock; a found lock is the only lock of the student in the scope |
| PaymentLock.AtMostOneMatch | controllers/paymentLockController.js:50 | with one lock per key, at most one lock matches |
| PaymentLock.LockKeepsOneLockPerKey | controllers/paymentLockController.js:50-74 | with a working existence check, locking keeps one lock per student and scope |
| PaymentLock.LockOnce | controllers/paymentLockController.js:50-59 | after a lock is taken every later request for the same key gets 409, whatever mode it asks for |
| PaymentLock.LockThenRead | controllers/paymentLockController.js:62-144 | a lock just taken is what the read handler returns |
| PaymentLock.ScopesIndependent | controllers/paymentLockController.js:43-48 | a global lock never matches a per-batch query and the reverse |
| PaymentLock.LookupErrorAllowsSecondLock | controllers/paymentLockController.js:50 | the existence read ignores its error, so a failing read lets a second lock for the same key in |
| PaymentLock.LockTable.Lock | controllers/paymentLockController.js:6-88 | outcome and new table are those of `LockSpec` |
| PaymentLock.LockTable.GetLocked | controllers/paymentLockController.js:95-150 | the read returns `LockedMode`, whose contract gives every outcome, and changes nothing |
| Razorpay.CreateOrder | controllers/razorpayController.js:32-72 | 400 iff `final_fees` is falsy; an order iff the fee is truthy and the SDK works |
| Razorpay.CreateOrderFalsyFees | controllers/razorpayController.js:32 | 0, "", null and undefined are refused, while the text "0" is let through |
| Razorpay.Normalise | controllers/razorpayController.js:122-160 | status false; ids as given; payment type defaults to "full"; EMI fields only for "emi"; numeric fees default to 0; bank RRN is rrn, else the UPI id, else null |
| Razorpay.NormalisedTypeAgrees | controllers/razorpayController.js:154-156 | a row carrying EMI fields is an "emi" row; a row without a type is a full payment without EMI fields |
| Razorpay.WithPaymentId | controllers/razorpayController.js:128-132 | exactly the rows with that payment id |
| Razorpay.SoleWithPaymentId | controllers/razorpayController.js:128-132 | under the unique constraint a recorded payment is the only row with its id |
| Razorpay.AppendFreshKeepsOnePerPaymentId | controllers/razorpayController.js:140-162 | inserting an id not yet recorded keeps the constraint |
| Razorpay.InsertPayment | controllers/razorpayController.js:141-165 | the insert reports a duplicate (23505) iff the id is already recorded |
| Razorpay.VerifySpec | controllers/razorpayController.js:76-202 | 400 iff the signature is not the HMAC of `order|payment`; 500 iff a fetch fails or a needed insert fails; a recorded id is never inserted again; when the signature matches, the fetch works, the id is new and the insert works, the normalised row is appended and returned; the only change is appending that row |
| Razorpay.VerifyKeepsOnePerPaymentId | controllers/razorpayController.js:128-186 | verification keeps one row per payment id, whatever fails |
| Razorpay.VerifyRecordedPayment | controllers/razorpayController.js:128-191 | verifying a recorded payment inserts nothing and answers with the recorded row |
| Razorpay.VerifyTwice | controllers/razorpayController.js:128-186 | verifying the same payment twice leaves exactly one row for it |
| Razorpay.PaymentTable.Verify | controllers/razorpayController.js:76-202 | outcome and new table are those of `VerifySpec` |
| PaymentWebhook.WebhookRecord | controllers/paymentWebhookController.js:86-104 | the record is the verify handler's normalisation with a falsy enrollment id stored as null; status false |
| PaymentWebhook.WebhookSpec | controllers/paymentWebhookController.js:31-151 | 400 iff the secret or header is missing or the HMAC of the raw body differs, and 200 otherwise; for an accepted request, a 200 "error" reply iff the body does not parse, ignored iff the event is not `payment.captured`, a 200 "missing payment id" reply iff the payment has no id, processed otherwise; a processed payment not yet recorded whose insert works is appended as its webhook record; any other outcome changes nothing |
| PaymentWebhook.WebhookKeepsOnePerPaymentId | controllers/paymentWebhookController.js:106-141 | the webhook keeps one row per payment id |
| PaymentWebhook.VerifyThenWebhook | controllers/paymentWebhookController.js:106-119 | a payment the verify handler stored is not recorded again by its webhook |
| PaymentWebhook.WebhookThenVerify | controllers/razorpayController.js:128-140 | a payment the webhook stored is not recorded again by the verify handler |
| PaymentWebhook.HandleWebhook | controllers/paymentWebhookController.js:31-151 | outcome and new table are those of `WebhookSpec` |
| LsrwScoring.LookupAnswer | controllers/lsrwController.js:227-229 | a found answer is non-empty and stored under the key or its lower-case form; none means both are absent or empty |
| LsrwScoring.QuizScoreUpTo | controllers/lsrwController.js:223-235 | the score over the first n questions is at most n |
| LsrwScoring.QuizScore | controllers/lsrwController.js:223-235 | the quiz score is at most the number of questions |
| LsrwScoring.ScoreQuiz | controllers/lsrwController.js:223-235 | the scoring loop computes `QuizScore`, which is at most the number of questions |
| LsrwScoring.QuizAllCorrect | controllers/lsrwController.js:226-235 | every question answered correctly gives the full score |
| LsrwScoring.QuizNoAnswers | controllers/lsrwController.js:229-232 | no answers score nothing |
| LsrwScoring.QuizScoreCounts | controllers/lsrwController.js:226-235 | the score is exactly the number of correctly answered questions |
| LsrwScoring.QuizIgnoresCase | controllers/lsrwController.js:229-233 | an answer equal to the correct one up to letter case and surrounding blanks scores a point |
| LsrwScoring.QuizLowerCaseKey | controllers/lsrwController.js:229 | when the exact key is absent, the answer under the lower-cased key is the one judged |
| LsrwScoring.MaxMarks | controllers/lsrwController.js:254 | an unset or zero maximum falls back to the number of questions |
| LsrwScoring.Marks | controllers/lsrwController.js:255 | a non-positive maximum gives the raw score; a positive maximum with no questions gives NaN (None); otherwise the score scaled to the maximum, rounded half up |
| LsrwScoring.MarksBounds | controllers/lsrwController.js:254-255 | with a positive maximum, marks lie between 0 and the maximum; all correct gives the maximum and none correct gives 0 |
| LsrwScoring.MarksMonotone | controllers/lsrwController.js:255 | more correct answers never give fewer marks |
| LsrwScoring.ReadingScoreUpTo | controllers/lsrwController.js:880-889 | the reading score over the first n questions is at most n |
| LsrwScoring.ReadingScore | controllers/lsrwController.js:880-889 | the reading score is at most the number of questions |
| LsrwScoring.ScoreReading | controllers/lsrwController.js:880-889 | the scoring loop computes `ReadingScore`, which is at most the number of questions |
| LsrwScoring.ReadingAbsentMatchesAbsent | controllers/lsrwController.js:884-887 | a question with no correct answer scores when its answer is absent too |
| LsrwScoring.ReadingAllCorrect | controllers/lsrwController.js:882-889 | answers equal to the correct ones up to letter case give the full score |
| LsrwScoring.AudioUpload | controllers/lsrwController.js:648-662 | `.wav` iff the type is audio/wav or audio/wave, `.mp3` iff audio/mpeg or audio/mp3; the content type is always one the bucket accepts |
| LsrwScoring.AudioFallback | controllers/lsrwController.js:648-662 | WebM, Ogg and any unknown audio are stored as `.webm` labelled audio/mpeg |
| LsrwScoring.ImageUpload | controllers/lsrwController.js:1123-1132 | PNG stays PNG; every other type is stored as `.jpg` image/jpeg |
| LsrwAttempts.QuizStudent | controllers/lsrwController.js:195-199 | the body's student id wins; without one the token's is used |
| LsrwAttempts.QuizSpec | controllers/lsrwController.js:193-298 | 400 iff a field is missing; 404 iff the content is missing; "already completed" iff one row exists for (student, content, batch) and the lookup works; 500 exactly when none of those and the insert fails, submitted exactly when it works; any rejection leaves the table unchanged; a submission stores exactly one row with the quiz score, the marks for it and the maximum |
| LsrwAttempts.QuizKeepsOnePerKey | controllers/lsrwController.js:237-270 | with a working lookup the table keeps one answer row per (student, content, batch), and the stored row is the only one of its key |
| LsrwAttempts.QuizOnce | controllers/lsrwController.js:237-251 | once a submission is stored, a second one for the same key is refused and changes nothing |
| LsrwAttempts.QuizMarksWithinMax | controllers/lsrwController.js:253-266 | a stored mark lies between 0 and the maximum |
| LsrwAttempts.QuizAnswerTable.Submit | controllers/lsrwController.js:193-298 | outcome and new table are those of `QuizSpec` |
| LsrwAttempts.SaveStatus | controllers/lsrwController.js:531-544 | an absent status defaults to draft; only draft and submitted are accepted |
| LsrwAttempts.ClearDrafts | controllers/lsrwController.js:574-591 | after a working delete no draft of that student, material and batch remains, and every other row stays |
| LsrwAttempts.SpeakingSpec | controllers/lsrwController.js:529-624 | 401 without a student; 400 for missing fields; 400 for any other status; 403 iff the material is not visible to the batch; refused iff a submitted attempt exists; for a valid request with no submitted attempt, 500 exactly when the insert fails and saved exactly when it works; the saved attempt has the requested status and a submission time iff submitted; drafts are deleted before the insert |
| LsrwAttempts.SpeakingAtMostOneDraft | controllers/lsrwController.js:574-607 | after a save whose delete went through there is at most one draft: the new one for a draft save, none otherwise |
| LsrwAttempts.SpeakingSubmissionRecorded | controllers/lsrwController.js:593-607 | a first submission becomes the only submitted attempt of its key |
| LsrwAttempts.SpeakingResubmitRefused | controllers/lsrwController.js:559-572 | with a submitted attempt on record, a submission is refused and the table is unchanged |
| LsrwAttempts.SpeakingSubmitOnce | controllers/lsrwController.js:559-607 | after a first submission, a second changes nothing |
| LsrwAttempts.SpeakingAttemptTable.Save | controllers/lsrwController.js:529-624 | outcome and new table are those of `SpeakingSpec` |
| LsrwAttempts.ReadingRejection | controllers/lsrwController.js:840-877 | each check in order as an iff: 401 without a student, 400 exactly when a field is missing or the answers are falsy, 400 for non-object answers, 404 exactly when the material is missing, 400 exactly when its questions are not an array, then an empty question list or an answer count different from the question count |
| LsrwAttempts.ReadingSpec | controllers/lsrwController.js:835-956 | a rejected request leaves the table unchanged; "already submitted" exactly when the lookup works and the one existing row has a submission time; 500 exactly when not that and the write fails; otherwise the attempt carries the reading score, the question count as maximum, the answers and the time, belongs to the student and material, and either replaces the existing row at its index (keeping its batch) with every other row unchanged, or is appended |
| LsrwAttempts.ReadingKeepsOnePerOwner | controllers/lsrwController.js:891-944 | with a working lookup there is one attempt per material and student |
| LsrwAttempts.ReadingUpdatesInPlace | controllers/lsrwController.js:903-923 | an unsubmitted attempt is completed in place, keeping its original batch |
| LsrwAttempts.ReadingSingleSubmission | controllers/lsrwController.js:891-901 | after a stored submission, another for the same material and student changes nothing |
| LsrwAttempts.ReadingAttemptTable.Submit | controllers/lsrwController.js:835-956 | outcome and new table are those of `ReadingSpec` |
| LsrwAttempts.WritingSpec | controllers/lsrwController.js:1185-1270 | 401 without a student; 400 for missing fields; 403 iff the task is not visible; 500 iff the write fails; a stored submission carries the new image and time and either replaces the existing row at its index with every other row unchanged, or is appended |
| LsrwAttempts.WritingKeepsOnePerKey | controllers/lsrwController.js:1211-1258 | with a working lookup there is one submission per (student, task, batch) |
| LsrwAttempts.WritingResubmitOverwrites | controllers/lsrwController.js:1222-1238 | a resubmission does not grow the table, and the key's only row carries the new image and time |
| LsrwAttempts.WritingSubmissionTable.Submit | controllers/lsrwController.js:1185-1270 | outcome and new table are those of `WritingSpec` |
| LsrwViews.ListedScore | controllers/lsrwController.js:108-149 | a score is shown iff the submission is verified (`true`, `'true'`, `1`, `'1'` or a set `verified_at`); a verified submission without a score shows 0 |
| LsrwViews.ReviewScore | controllers/lsrwController.js:337-340 | the review hides the score exactly while `verified` is falsy |
| LsrwViews.ReviewAndListingDiverge | controllers/lsrwController.js:113-117 | the two views test verification differently: `verified_at` set with `verified` false is scored in the list but hidden in the review, and the text "false" is hidden in the list but scored in the review |
| LsrwViews.ReviewAgreesOnBooleans | controllers/lsrwController.js:113-117 | for a boolean `verified` with `verified_at` set exactly when it is true, the two views show the same score |
| LsrwViews.ReviewMatches | controllers/lsrwController.js:325-333 | exactly the student's rows for the content, within the batch when one is given |
| LsrwViews.ReviewSpec | controllers/lsrwController.js:304-389 | 401 without a student; 400 without a content id; 404 (no submission) iff not exactly one submission matches; 404 (no content) iff one matches and the content read returns no row; a review iff one matches and the content is found, showing that submission with its score hidden while unverified |
| LsrwViews.FirstWith | controllers/lsrwController.js:490-491 | a found element has the key; none means no element has it |
| LsrwViews.LastPreferred | controllers/lsrwController.js:491 | a found element has the key and is preferred; none means no such element |
| LsrwViews.ChooseAttempts | controllers/lsrwController.js:487-497 | the grouping loop builds the map `Chosen` |
| LsrwViews.ChosenIs | controllers/lsrwController.js:487-497 | a key has an entry iff some element has it; the entry is the last preferred element when there is one, otherwise the first element with the key |
| LsrwViews.PreferredWins | controllers/lsrwController.js:491 | a submitted attempt for a material guarantees that a submitted attempt is shown |
| LsrwViews.LastWins | controllers/lsrwController.js:1057-1063 | with a plain `Map.set` the last element with the key wins |
| LsrwViews.SessionValue | controllers/lsrwController.js:456-457 | an unset or zero session number falls back to the sentinel |
| LsrwViews.SortBySession | controllers/lsrwController.js:455-459 | the sorted list is a permutation of the items |
| LsrwViews.SessionAscending | controllers/lsrwController.js:455-459 | the sorted list ascends by session number (with the sentinel for missing ones) |
| LsrwViews.UnnumberedLast | controllers/lsrwController.js:455-459 | items with no session number come after every item numbered below the sentinel |
| LsrwViews.SpeakingListing | controllers/lsrwController.js:440-505 | one entry per material in session order (9999 when unset), each with the attempt the grouping chose for it |
| LsrwViews.SpeakingSubmittedIffAny | controllers/lsrwController.js:486-505 | a material shows as submitted iff the student has a submitted attempt for it, and as attempted iff there is any attempt |
| LsrwViews.ReadingListing | controllers/lsrwController.js:760-811 | one entry per material in session order (999999 when unset), each with the attempt chosen, one with `submitted_at` preferred |
| LsrwViews.ReadingSubmittedIffAny | controllers/lsrwController.js:790-811 | a material shows as submitted iff the student has an attempt with `submitted_at` for it |
| LsrwViews.WritingListing | controllers/lsrwController.js:1025-1070 | one entry per task in session order (9999 when unset), with the chosen submission, submitted iff there is one |
| LsrwViews.WritingShowsLast | controllers/lsrwController.js:1034-1063 | the submission shown for a task is the last of its rows in fetched order, which is the oldest |
| Attendance.Joined | controllers/attendanceController.js:22-31 | the joined batch row is the batch of the enrollment; none means the batch does not exist |
| Attendance.ActiveBatches | controllers/attendanceController.js:20-33 | exactly the batches the student has a status-true enrollment in that joins a batch |
| Attendance.NewestFirst | controllers/attendanceController.js:67-226 | a permutation of the sessions, in descending session date |
| Attendance.CountStatus | controllers/attendanceController.js:114-270 | the count is the number of positions in the records whose status is the given one |
| Attendance.CountIsPositions | controllers/attendanceController.js:114-117 | the length of the status filter is the number of record positions with that status |
| Attendance.Percentage | controllers/attendanceController.js:119-274 | 0 with no sessions; otherwise the nearest integer to present / total × 100 (half up) |
| Attendance.Summarize | controllers/attendanceController.js:113-121 | the total is the number of sessions; the present, absent, late and excused figures are the counts of the records with those statuses; the percentage is that of the present count over the total |
| Attendance.DetailOf | controllers/attendanceController.js:124-133 | a session with no record shows `not_marked` and no time; otherwise the status and time of its first record |
| Attendance.Details | controllers/attendanceController.js:124-133 | one line per session, in session order, each the session's detail line against the records (its first record's status and time, or `not_marked`) |
| Attendance.BatchAttendance | controllers/attendanceController.js:170-320 | 400 without a student or batch id; 404 iff the enrollment lookup fails or finds no single active enrollment in the batch; for an enrolled student, 500 iff the session read fails, then 500 iff the record read fails, and a report otherwise; a report is for an existing batch the student is actively enrolled in, counts exactly the batch's sessions, and its summary and lines are those of the batch's sessions newest first against the student's records for them |
| Attendance.BatchSessionsNewestFirst | controllers/attendanceController.js:217-286 | the report lists sessions newest first |
| Attendance.PresentWithinSessions | controllers/attendanceController.js:109-121 | with one record per session, present never exceeds the session count and the percentage lies in 0..100 |
| Attendance.StudentRecordsOnePerSession | controllers/attendanceController.js:81-91 | one record per student and session in the table gives one record per session in the student's fetch |
| Attendance.BatchPercentageBounded | controllers/attendanceController.js:265-274 | with one record per student and session, present ≤ total and the percentage lies in 0..100 |
| Attendance.UnmarkedSessionShown | controllers/attendanceController.js:124-133 | a session shows `not_marked` iff the student has no record for it, and then no time |
| Attendance.StatusCountsDisjoint | controllers/attendanceController.js:114-270 | the four status counts add up to at most the number of records |
| Attendance.Entry | controllers/attendanceController.js:104-148 | an entry belongs to its batch, counts exactly its listed sessions, and its summary and lines are those of the batch's fetched sessions against the student's records for those sessions |
| Attendance.StudentAttendance | controllers/attendanceController.js:6-165 | 400 without a student; 500 iff the enrollment read fails; an empty list iff there is no active enrollment; otherwise 500 iff the session read fails, then 500 iff the record read fails, and an overview otherwise; the overview holds one entry per active enrollment, in order, each computed from the fetched sessions and the student's records for them |
| Attendance.EntryCoversBatchSessions | controllers/attendanceController.js:56-106 | every session of an active batch has a line in its entry |
| Attendance.FetchedForBatch | controllers/attendanceController.js:56-106 | a session of an active batch is among the fetched sessions of that batch |
| Attendance.EntryOnlyBatchSessions | controllers/attendanceController.js:106-133 | every line of an entry is a session of that batch |
| Attendance.EntryNewestFirst | controllers/attendanceController.js:67-106 | an entry lists its sessions newest first |
| Attendance.EntryPercentageBounded | controllers/attendanceController.js:109-121 | with one record per session, an entry's percentage lies in 0..100 |
| Attendance.OverviewPercentageBounded | controllers/attendanceController.js:104-149 | with one record per student and session, every entry's percentage lies in 0..100 |
| EmiReminders.TextOr | cron/emiExpiryNotifications.js:66-67 | a present, non-empty name is kept; otherwise the fallback |
| EmiReminders.Message | cron/emiExpiryNotifications.js:77-84 | each of the three day counts has its own reminder, told apart by its leading symbol |
| EmiReminders.ReminderFor | cron/emiExpiryNotifications.js:65-84 | a due payment's reminder is non-empty and opens with the symbol of its day count (3, 2 or 1 days left) |
| EmiReminders.MessageTellsDaysApart | cron/emiExpiryNotifications.js:77-98 | equal messages mean equal day counts, whatever the names and the date, so the daily check tells the three reminders apart |
| EmiReminders.Step | cron/emiExpiryNotifications.js:49-131 | a payment adds a row iff it is due in 1 to 3 days with an enrollment, is not the final instalment, its dedup read works, no identical message went to the student today, and the insert works; the row added is that reminder, unread |
| EmiReminders.Run | cron/emiExpiryNotifications.js:49-132 | the loop over the fetched payments only appends, at most one row per payment |
| EmiReminders.RunAsWritten | cron/emiExpiryNotifications.js:49-135 | the loop as written only appends, at most one row per payment |
| EmiReminders.Reminders | cron/emiExpiryNotifications.js:10-135 | a failed payment query changes nothing; otherwise the job only appends, at most one row per payment |
| EmiReminders.RemindersAsWritten | cron/emiExpiryNotifications.js:10-135 | as written: a failed payment query changes nothing; otherwise the job only appends, at most one row per payment |
| EmiReminders.RunOnlyRemindsDue | cron/emiExpiryNotifications.js:49-131 | the job only appends, and every appended row is the reminder of a due payment it went through; the final instalment and payments due later are never reminded |
| EmiReminders.StepKeepsNoRepeat | cron/emiExpiryNotifications.js:86-120 | a turn of the loop keeps every student free of two identical messages on one day |
| EmiReminders.RunKeepsNoRepeat | cron/emiExpiryNotifications.js:86-120 | the whole job keeps reminders from repeating within a day |
| EmiReminders.RunRemindsEveryDue | cron/emiExpiryNotifications.js:49-131 | in the corrected job, every due payment processed without a store error leaves its student holding that reminder for today |
| EmiReminders.AsWrittenAddsAtMostOne | cron/emiExpiryNotifications.js:127-135 | as written, one run adds at most one notification |
| EmiReminders.SecondStudentCaseSteps | cron/emiExpiryNotifications.js:49-120 | both payments of the two-student case reach the insert |
| EmiReminders.AsWrittenMissesSecondStudent | cron/emiExpiryNotifications.js:127-135 | as written, with two students due in two days only the first is reminded |
| EmiReminders.IntendedRemindsBothStudents | cron/emiExpiryNotifications.js:49-132 | the corrected job reminds both students of that case |
| EmiReminders.SendReminders | cron/emiExpiryNotifications.js:10-132 | the corrected loop leaves the table as the job `Reminders` specifies |
| EmiReminders.SendRemindersAsWritten | cron/emiExpiryNotifications.js:10-135 | the loop as written leaves the table as `RemindersAsWritten` specifies, ending after the first successful insert |
| EmiReminders.StoppedStaysStopped | cron/emiExpiryNotifications.js:128-135 | once the run as written has ended, later payments change nothing |
| Notifications.NewestFirstOrder | controllers/notificationsController.js:29 | a list sorted on the creation key is in descending creation time |
| Notifications.NewestListing | controllers/notificationsController.js:19-29 | a permutation of the student's listed notifications, newest first |
| Notifications.ListingHoldsExactly | controllers/notificationsController.js:17-27 | a notification is listed iff it is the student's and it is unread or `all` is exactly `'true'` |
| Notifications.GetNotifications | controllers/notificationsController.js:9-41 | 401 iff no student; 500 iff the read fails; otherwise the newest-first listing |
| Notifications.UnreadWithinAll | controllers/notificationsController.js:17-27 | every notification of any listing is in the full listing |
| Notifications.MarkRead | controllers/notificationsController.js:56-60 | exactly the row with that id owned by the student becomes read; every other row is unchanged |
| Notifications.MarkAsReadSpec | controllers/notificationsController.js:47-72 | 401 iff no student; 500 iff the update fails, leaving the table unchanged; otherwise the table after `MarkRead` |
| Notifications.MarkReadIdempotent | controllers/notificationsController.js:56-60 | marking twice is marking once |
| Notifications.MarkedLeavesUnreadListing | controllers/notificationsController.js:25-60 | after marking, the unread listing no longer shows that notification |
| Notifications.MarkReadLeavesOthers | controllers/notificationsController.js:56-60 | another student's listing is the same before and after marking |
| Notifications.FreshId | cron/emiExpiryNotifications.js:114-120 | the new id is above every id in the table |
| Notifications.NotificationTable.MarkAsRead | controllers/notificationsController.js:47-72 | outcome and new table are those of `MarkAsReadSpec` |
| Notifications.NotificationTable.Insert | cron/emiExpiryNotifications.js:114-120 | appends exactly one unread notification for the student with that message, created now |
| Events.Take | controllers/eventController.js:29 | the first n events: at most n, a prefix, and everything when there are no more than n |
| Events.UpcomingEvents | controllers/eventController.js:4-62 | 500 iff the read fails; otherwise the count equals the number of events returned, which is at most the limit (10 by default) |
| Events.FirstUpcoming | controllers/eventController.js:12-29 | the fetch returns at most the limit |
| Events.UpcomingAreCurrent | controllers/eventController.js:25-50 | every upcoming event is an active event of the table that starts today or later and has not ended |
| Events.UpcomingHoldsExactly | controllers/eventController.js:25-50 | a fetched upcoming event is returned iff it has not ended |
| Events.UpcomingWithinLimit | controllers/eventController.js:25-50 | when at most `limit` events qualify, the list holds exactly the active events starting today or later that have not ended |
| Events.UpcomingWhenDatesConsistent | controllers/eventController.js:25-50 | when no event ends before it starts, the expiry filter drops nothing, so the limit applies before the filter without loss |
| Events.EventsInRange | controllers/eventController.js:65-134 | 400 iff either date is missing; 500 iff the read fails; otherwise the count equals the number of events returned |
| Events.RangeHoldsExactly | controllers/eventController.js:89-117 | an event is returned iff it is active, starts within the two dates inclusive, and has not ended |
| Events.RangeInStartOrder | controllers/eventController.js:92-93 | the range list is in start date then start time order |
| Events.UpcomingInStartOrder | controllers/eventController.js:27-28 | the upcoming list is in start date then start time order |
| Events.ExpiryFollowsCalendar | controllers/eventController.js:10-113 | for four-digit years, the zero-padded string test keeps an event exactly when it ends today or later on the calendar |
| Certificates.AssessmentMarks | controllers/studentCertificateController.js:13-27 | 500 exactly on a store error other than PGRST116; 404 exactly when the student does not have exactly one submitted marks row for the batch; a returned row is that student's submitted row for that batch |
| Certificates.UnsubmittedMarksNotFound | controllers/studentCertificateController.js:13-27 | a student whose marks for the batch are all drafts or absent gets 404, never a row |
| Certificates.NewestGeneratedFirst | controllers/studentCertificateController.js:56 | a list sorted descending by `generated_at` has non-increasing generation times |
| Certificates.CompletedListing | controllers/studentCertificateController.js:50-56 | the list is a permutation of the student's completed certificates of the batch, newest first |
| Certificates.StudentCertificates | controllers/studentCertificateController.js:50-65 | 500 exactly on a store error; otherwise the completed, newest-first listing |
| Certificates.CertificatesHoldExactly | controllers/studentCertificateController.js:50-56 | a certificate is listed iff it is a stored completed certificate of that student and batch |
| Certificates.NoCertificatesEmptyList | controllers/studentCertificateController.js:58-65 | without a completed certificate the answer is a success with the empty list, not an error |
| Certificates.LookupAsWritten | controllers/studentCertificateController.js:80-92 | as written the lookup never answers 404: it fails whenever the store fails or the id does not match exactly one row |
| Certificates.Lookup | controllers/studentCertificateController.js:80-92 | as intended: 500 exactly on a store error, 404 exactly when the id does not match exactly one row, else that certificate |
| Certificates.UnknownCertificateAsWritten | controllers/studentCertificateController.js:80-92 | an unknown certificate id gives 500 as written and 404 as intended |
| Certificates.LookupsAgreeOnKnownIds | controllers/studentCertificateController.js:80-92 | outside the unknown-id case the written and the intended lookups give the same answer |
| Certificates.StoragePath | controllers/studentCertificateController.js:165-173 | a URL without the public storage marker is used whole as the storage path |
| Certificates.MarkerSplits | controllers/studentCertificateController.js:166-169 | a URL holding the public storage marker always splits into more than one part at `public/`, so the extraction branch is always taken |
| Certificates.StoragePathIsPathIn | controllers/studentCertificateController.js:165-173 | for a public storage URL the path is what is taken from the text after the first `public/` |
| Certificates.PathInShape | controllers/studentCertificateController.js:170 | the extracted path is a prefix of its text, holds no `?` and no `public/`, and stops only at the end, at a `?` or at a `public/` |
| Certificates.StoragePathAfterPublic | controllers/studentCertificateController.js:165-173 | for a public storage URL the path is the prefix of the text after the first `public/` that stops at the end, the first `?` or the next `public/`, and holds neither |
| Certificates.FolderAndFileRebuildPath | controllers/studentCertificateController.js:180-182 | the file name holds no `/`, and with a `/` in the path, folder + `/` + file name gives the path back; the folder only feeds the storage listing, whose result is only logged |
| Certificates.FileName | controllers/studentCertificateController.js:180-181 | the file name holds no `/`, and is the whole path when the path has none |
| Certificates.FolderPath | controllers/studentCertificateController.js:182 | a path without `/` has an empty folder; this folder is the argument of the storage listing, whose result is only logged |
| Certificates.PathWithoutFolder | controllers/studentCertificateController.js:180-182 | a path without `/` is all file name with an empty folder, so the logged listing searches the bucket root for the whole path |
| Certificates.DownloadNameIsPlain | controllers/studentCertificateController.js:262-263 | the download name is a prefix of the URL's last segment and holds neither `/` nor `?` |
| Certificates.DownloadName | controllers/studentCertificateController.js:262-263 | the download name holds no `?` |
| Certificates.Download | controllers/studentCertificateController.js:114-278 | on the intended lookup: 500 exactly on a store error, 404 exactly for an unknown id, file-unavailable exactly for a certificate without a URL; a stored path is sent from storage, otherwise from the public URL when the fetch works, otherwise 500 naming the path; the sent name is the URL's plain file name |
| Certificates.SendFile | controllers/studentCertificateController.js:157-270 | file-unavailable exactly for a certificate without a URL; otherwise the file is sent or missing from storage, and a sent file carries the URL's plain file name |
| Certificates.DownloadAsWritten | controllers/studentCertificateController.js:114-128 | as written the download never answers 404: it fails with 500 whenever the store fails or the id does not match exactly one row |
| Certificates.UnknownCertificateDownloadAsWritten | controllers/studentCertificateController.js:114-128 | for an id no row carries, the written download gives 500 and the intended one gives 404 |
| Certificates.DownloadsAgreeOnKnownIds | controllers/studentCertificateController.js:114-128 | outside the unknown-id case the written and the intended downloads give the same answer |
| Certificates.SentNameIsPlain | controllers/studentCertificateController.js:231-239 | a sent file is named with neither `/` nor `?`, by either route |
| Certificates.BatchIdsOf | controllers/studentCertificateController.js:296-299 | the list names exactly the batches the student has an enrollment row for, one entry per row at most |
| Certificates.StudentBatches | controllers/studentCertificateController.js:296-308 | 500 exactly on a store error; otherwise the student's enrolled batch ids |
| Students.NewStudent | controllers/studentController.js:24-37 | a new student starts unapproved, stores the hash of the given password, keeps the referral flag, has a referring center exactly when referred, and has no reset code and no picture |
| Students.NoticesFor | controllers/studentController.js:59-65 | one unread notice per coordinator, in the coordinators' order, each naming the new student and saying it awaits approval |
| Students.RegisterSpec | controllers/studentController.js:11-85 | 400 exactly when a required field is missing, or, with them, when a referral lacks its center; a failed insert changes nothing; a registration appends exactly the new student, and notifies every coordinator unless the coordinator read or the notice insert fails, which do not undo the registration |
| Students.Login | controllers/studentController.js:88-118 | 400 exactly when a field is missing; `Invalid credentials` exactly when the lookup fails, finds no student or the password does not match the first one found; otherwise 403 iff that student is unapproved, and a token for that student's id, center and state iff approved |
| Students.UnknownAndWrongPasswordAlike | controllers/studentController.js:101-110 | an unknown registration number and a wrong password give the same answer |
| Students.RegisteredAwaitsApproval | controllers/studentController.js:34-114 | a student who has just registered is refused with 403 at login, even with the right password |
| Students.DigitCount | controllers/studentController.js:350 | a number from 10^(k-1) below 10^k prints as k digits |
| Students.ResetCodeShape | controllers/studentController.js:348-351 | a reset code is six decimal digits whose value lies in 100000..999999 |
| Students.ResetCode | controllers/studentController.js:348-351 | a reset code has six characters |
| Students.ResetCodeInjective | controllers/studentController.js:348-351 | different draws give different codes |
| Students.LastIndexOf | controllers/studentController.js:419 | the index found holds the character and no later index does; none means the character does not occur |
| Students.Stars | controllers/studentController.js:419 | n stars, nothing else |
| Students.MaskShape | controllers/studentController.js:419 | the masked e-mail keeps the length, the first two characters and everything from the last `@` on, and stars every character in between |
| Students.MaskEmail | controllers/studentController.js:419 | the masked e-mail has the length of the e-mail, and each character is the e-mail's own or a star |
| Students.MaskNeedsAt | controllers/studentController.js:419 | without an `@` at index 2 or later the e-mail is shown unchanged |
| Students.MaskIdempotent | controllers/studentController.js:419 | masking a masked e-mail changes nothing |
| Students.LastIndexIs | controllers/studentController.js:419 | the last index is the unique index holding the character with none after it |
| Students.ForgotSpec | controllers/studentController.js:354-424 | 400 exactly without a registration number; 404 exactly when the lookup fails or finds nobody; otherwise the first student found gets the drawn code with an expiry 15 minutes after now unless the update fails, and the answer is the masked e-mail iff neither the update nor the mail fails |
| Students.ResetSpec | controllers/studentController.js:427-467 | 400 exactly when a field is missing; `Invalid reset code` exactly when the lookup fails or no student holds the code; otherwise expired iff that student's expiry has passed, and a reset iff not expired and the update works, storing the new hash and clearing the code; any other answer changes nothing |
| Students.ResetClearsCode | controllers/studentController.js:452-459 | a successful reset sets the new hash and clears both reset fields of that student and leaves every other student as it was |
| Students.CodeSingleUse | controllers/studentController.js:441-459 | a code nobody else holds works once: a second reset with it is refused as invalid |
| Students.CodeValidForFifteenMinutes | controllers/studentController.js:373-449 | a code just issued resets the password exactly while 15 minutes have not passed |
| Students.ProfilePathShape | controllers/studentController.js:245-247 | a path exists iff the URL holds `/user-profiles/`; it is the prefix of the text after the first one that stops at the end or the next one, and holds none |
| Students.ProfilePath | controllers/studentController.js:245-247 | a path exists iff the URL holds `/user-profiles/`, and it holds no further `/user-profiles/` |
| Students.DeletePictureSpec | controllers/studentController.js:224-284 | 500 exactly when the read fails or does not find exactly one student; otherwise the picture is cleared iff the update works; the storage removal asked for is the picture's path, if it has one; nothing changes unless the picture is cleared |
| Students.StorageErrorIgnored | controllers/studentController.js:254-262 | a storage error does not change the answer or the table |
| Students.DeletedPictureIsGone | controllers/studentController.js:265-279 | after a successful delete the student has no picture and no other student changed |
| Students.StudentStore.Register | controllers/studentController.js:11-85 | the outcome, students and notices are those of the registration specification |
| Students.StudentStore.ForgotPassword | controllers/studentController.js:354-424 | the outcome and students are those of the forgot-password specification; notices are unchanged |
| Students.StudentStore.ResetPassword | controllers/studentController.js:427-467 | the outcome and students are those of the reset specification; notices are unchanged |
| Students.StudentStore.DeleteProfilePicture | controllers/studentController.js:224-284 | the outcome and students are those of the delete specification; notices are unchanged |

## Left out

- HTTP routing, middleware and response shaping: each handler returns an outcome datatype standing for its status code and body.
- Object storage (upload, download, list, remove, public URLs) and the `fetch` fallback of the certificate download: which paths the bucket serves and whether the fetch works are parameters, and only the string handling around them is modelled.
- E-mail sending: the mail step of `forgotPassword` is a fault parameter.
- bcrypt hashing and comparison, HMAC-SHA256 signatures, JWT issuance and the payment gateway SDK: uninterpreted function parameters or booleans.
- Scheduling and time zones of the reminder job, `Date.now`, `new Date()` and `Math.random`: today, now and random draws are integer parameters.
- Floating point: `Math.round(x / n * m)` is integer round-half-up, which can differ from IEEE rounding at exact .5 boundaries; the paise conversion `Math.round(final_fees * 100)` (controllers/razorpayController.js:37) is left out.
- Concurrency: every check-then-insert (enroll capacity, duplicate enrollment, payment lock, quiz one-shot, payment recording) is modelled as one sequential step; the code is not atomic and the model adds no atomicity.
- Order among rows with equal sort keys: the store leaves it unspecified; the model uses a stable sort.
- Case folding (Text.LowerChar, Text.UpperChar) is ASCII only; trimming uses the full ECMAScript whitespace set; `Number()` is modelled on digit strings only.
- Razorpay.InsertPayment: refuses a recorded payment id with code 23505, which assumes a UNIQUE constraint on `payments.payment_id`; the database schema is not part of this model, and the handlers only branch on the code; Razorpay.VerifyKeepsOnePerPaymentId and PaymentWebhook.WebhookKeepsOnePerPaymentId rest on that assumption.
- Events.UpcomingEvents: the `limit` query value is taken as already parsed; `parseInt` of a non-numeric, empty or negative value (controllers/eventController.js:6, controllers/eventController.js:29) and what the store then does with NaN or a negative limit are not modelled.
- Certificates.StudentBatches: it filters `enrollment` on `student_id` and returns `batch_id`, while every other handler uses the columns `student` and `batch`; the schema is not part of this model, so the query is modelled as written and not listed as a finding.
- Students.MaskEmail: the regular expression's `.` does not match line terminators; the model assumes e-mails without them.
- Students: the registration number and `student_id` are assigned by the store and are parameters; the reset expiry is stored as ISO text and modelled as milliseconds.
- Certificates.Download: the student-details read and the folder listing before the download only log, so their results are left out; FolderPath, FolderAndFileRebuildPath and PathWithoutFolder describe only the arguments that listing is called with.
- `uploadProfilePicture`, `getStudentDetails`, `updateStudent`, `deleteStudent`, `getStates`, `getCentersByState` and `getAllCenters`: single queries or storage I/O with no rule to model.
- `controllers/announcementController.js`, `controllers/paymentController.js`, `scripts/*.js`, `utils/emailService.js` and `config/supabaseClient.js`: pass-through queries, console instructions, templating or client setup; they are not part of this model.
- `manualSyncPayment`, wired in `routes/razorpayRoutes.js`, is not exported by `controllers/razorpayController.js`, so there is nothing to model.
- The feedback maps in the LSRW listings and the in-place mutation of list items in `getStudentLSRW`: the model computes the shown score and status per item instead.
- Events.TodayString has no contract of its own: it only formats the date; its order property is Events.ExpiryFollowsCalendar.
- Logging and the connection-test endpoints.

## Findings

| source | as written | input that shows it | evidently intended | confidence | as-written member | corrected member |
|---|---|---|---|---|---|---|
| cron/emiExpiryNotifications.js:128-136 | after a successful insert the log line reads the undeclared `dueDateStr`; the ReferenceError goes to the outer catch, so the run ends after its first reminder | two students, each with a non-final EMI due in 2 days and no reminder yet today: only the first is reminded | every due payment gets its reminder in one run | not executed | EmiReminders.AsWrittenMissesSecondStudent | EmiReminders.IntendedRemindsBothStudents |
| controllers/studentCertificateController.js:80-92 | `.single()` reports zero rows as error PGRST116, which the handler answers with 500, so its 404 branch is never taken | any certificate id with no row | an unknown certificate gives 404, as the marks read in the same file does by letting PGRST116 through | not executed | Certificates.UnknownCertificateAsWritten | Certificates.Lookup |
| controllers/studentCertificateController.js:114-128 | the download reads the certificate with the same `.single()` call and answers every error with 500, so its 404 branch is never taken either | any certificate id with no row | an unknown certificate gives 404 | not executed | Certificates.UnknownCertificateDownloadAsWritten | Certificates.Download |
