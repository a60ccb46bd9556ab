/** Student accounts (controllers/studentController.js): registration,
    login, the password-reset code and its use, the masked e-mail shown
    after a reset request, and removing the profile picture. Password
    hashing and comparison (bcrypt), token signing (JWT), the clock,
    `Math.random`, e-mail delivery and object storage are parameters. */
module Students {
  import opened Common
  import opened Text
  import opened JsValues

  /** A `students` row; `resetTokenExpires` is a time in milliseconds. */
  datatype Student = Student(studentId: Id, registrationNumber: string, name: string, state: Id, center: Id,
                             email: string, passwordHash: string, phone: string, status: bool,
                             isReferred: JsValue, referredByCenter: Option<string>,
                             resetToken: Option<string>, resetTokenExpires: Option<int>,
                             profilePicture: Option<string>)

  /** An `academic_notifications` row written for a coordinator. */
  datatype CoordinatorNotice = CoordinatorNotice(coordinatorId: Id, message: string, kind: string,
                                                 relatedId: Id, isRead: bool)

  // ---------------------------------------------------------------------
  // registerStudent
  // ---------------------------------------------------------------------

  /** The registration body. */
  datatype RegisterRequest = RegisterRequest(name: Option<string>, state: Option<string>, center: Option<string>,
                                             email: Option<string>, password: Option<string>,
                                             phone: Option<string>, isReferred: JsValue,
                                             referredByCenter: Option<string>)

  predicate HasRequiredFields(req: RegisterRequest) {
    Present(req.name) && Present(req.state) && Present(req.center) && Present(req.email)
    && Present(req.password) && Present(req.phone)
  }

  /** The row registration inserts; the store assigns `studentId` and the
      registration number. */
  function NewStudent(req: RegisterRequest, hash: string -> string, studentId: Id, registrationNumber: string)
    : (s: Student)
    requires HasRequiredFields(req)
    requires Truthy(req.isReferred) ==> Present(req.referredByCenter)
    ensures !s.status
    ensures s.passwordHash == hash(req.password.value)
    ensures Truthy(s.isReferred) <==> Truthy(req.isReferred)
    ensures s.referredByCenter.Some? <==> Truthy(req.isReferred)
    ensures s.resetToken.None? && s.resetTokenExpires.None? && s.profilePicture.None?
  {
    Student(studentId, registrationNumber, req.name.value, req.state.value, req.center.value, req.email.value,
            hash(req.password.value), req.phone.value, false,
            if Truthy(req.isReferred) then req.isReferred else Bool(false),
            if Truthy(req.isReferred) then req.referredByCenter else None,
            None, None, None)
  }

  /** The message coordinators receive about a new registration. */
  function RegisteredMessage(name: string): string {
    name + " registered, waiting for your approval"
  }

  /** One unread notice per coordinator, in the order they were read. */
  function NoticesFor(coordinators: seq<Id>, name: string, studentId: Id): (r: seq<CoordinatorNotice>)
    ensures |r| == |coordinators|
    ensures forall i :: 0 <= i < |r| ==>
              r[i].coordinatorId == coordinators[i] && r[i].relatedId == studentId && !r[i].isRead
              && r[i].message == RegisteredMessage(name)
  {
    seq(|coordinators|, i requires 0 <= i < |coordinators| =>
      CoordinatorNotice(coordinators[i], RegisteredMessage(name), "STUDENT_REGISTERED", studentId, false))
  }

  /** The store errors registration can meet: the student insert, and the
      coordinator read and notice insert, which are only logged. */
  datatype RegisterFaults = RegisterFaults(insert: bool, coordinatorRead: bool, noticeInsert: bool)

  datatype RegisterOutcome =
    | RegisterMissingFields               // 400
    | ReferralCenterRequired              // 400
    | RegisterFailed                      // 400, the insert error
    | Registered(student: Student)        // 201

  /** registerStudent: the outcome, the students and the coordinator notices. */
  function RegisterSpec(students: seq<Student>, notices: seq<CoordinatorNotice>, req: RegisterRequest,
                        coordinators: seq<Id>, hash: string -> string, studentId: Id, registrationNumber: string,
                        faults: RegisterFaults)
    : (r: (RegisterOutcome, seq<Student>, seq<CoordinatorNotice>))
    ensures r.0 == RegisterMissingFields <==> !HasRequiredFields(req)
    ensures r.0 == ReferralCenterRequired <==>
              HasRequiredFields(req) && Truthy(req.isReferred) && !Present(req.referredByCenter)
    ensures r.0 == RegisterFailed <==>
              HasRequiredFields(req) && !(Truthy(req.isReferred) && !Present(req.referredByCenter)) && faults.insert
    ensures !r.0.Registered? ==> r.1 == students && r.2 == notices
    ensures r.0.Registered? ==>
              r.0.student == NewStudent(req, hash, studentId, registrationNumber) && r.1 == students + [r.0.student]
    ensures r.0.Registered? && !faults.coordinatorRead && !faults.noticeInsert ==>
              r.2 == notices + NoticesFor(coordinators, req.name.value, studentId)
    ensures r.0.Registered? && (faults.coordinatorRead || faults.noticeInsert) ==> r.2 == notices
  {
    if !HasRequiredFields(req) then (RegisterMissingFields, students, notices)
    else if Truthy(req.isReferred) && !Present(req.referredByCenter) then (ReferralCenterRequired, students, notices)
    else if faults.insert then (RegisterFailed, students, notices)
    else
      var s := NewStudent(req, hash, studentId, registrationNumber);
      var notified :=
        if faults.coordinatorRead || |coordinators| == 0 || faults.noticeInsert then notices
        else notices + NoticesFor(coordinators, req.name.value, studentId);
      (Registered(s), students + [s], notified)
  }

  // ---------------------------------------------------------------------
  // loginStudent
  // ---------------------------------------------------------------------

  function WithRegistrationNumber(registrationNumber: string): Student -> bool {
    (s: Student) => s.registrationNumber == registrationNumber
  }

  /** What the signed token carries. */
  datatype TokenClaims = TokenClaims(studentId: Id, center: Id, state: Id)

  datatype LoginOutcome =
    | LoginMissingFields                  // 400
    | InvalidCredentials                  // 400
    | NotApproved                         // 403
    | LoggedIn(claims: TokenClaims)

  /** loginStudent. `matches(password, hash)` is bcrypt's comparison;
      `fails` is an error of the lookup, which `.limit(1)` answers with the
      first row holding the registration number. */
  function Login(students: seq<Student>, registrationNumber: Option<string>, password: Option<string>,
                 matches: (string, string) -> bool, fails: bool): (r: LoginOutcome)
    ensures r == LoginMissingFields <==> !Present(registrationNumber) || !Present(password)
    ensures r == InvalidCredentials <==>
              Present(registrationNumber) && Present(password)
              && var found := Filter(students, WithRegistrationNumber(registrationNumber.value));
                 fails || found == [] || !matches(password.value, found[0].passwordHash)
    ensures r == NotApproved || r.LoggedIn? ==>
              var s := Filter(students, WithRegistrationNumber(registrationNumber.value))[0];
              s in students && s.registrationNumber == registrationNumber.value
              && matches(password.value, s.passwordHash) && (r.LoggedIn? <==> s.status)
              && (r.LoggedIn? ==> r.claims == TokenClaims(s.studentId, s.center, s.state))
  {
    if !Present(registrationNumber) || !Present(password) then LoginMissingFields
    else
      var found := Filter(students, WithRegistrationNumber(registrationNumber.value));
      if fails || found == [] then InvalidCredentials
      else
        var s := found[0];
        assert s in found;
        if !matches(password.value, s.passwordHash) then InvalidCredentials
        else if !s.status then NotApproved
        else LoggedIn(TokenClaims(s.studentId, s.center, s.state))
  }

  /** An unknown registration number and a wrong password get the same
      answer, so a caller cannot tell which registration numbers exist. */
  lemma UnknownAndWrongPasswordAlike(students: seq<Student>, known: Student, unknown: string, password: string,
                                     matches: (string, string) -> bool)
    requires students == [known] && password != "" && unknown != "" && known.registrationNumber != ""
    requires unknown != known.registrationNumber && !matches(password, known.passwordHash)
    ensures Login(students, Some(unknown), Some(password), matches, false)
            == Login(students, Some(known.registrationNumber), Some(password), matches, false)
            == InvalidCredentials
  {
    assert Filter(students, WithRegistrationNumber(known.registrationNumber)) == [known];
    FilterNone(students, WithRegistrationNumber(unknown));
  }

  /** A student who has just registered cannot log in before approval,
      even with the right password. */
  lemma RegisteredAwaitsApproval(students: seq<Student>, notices: seq<CoordinatorNotice>, req: RegisterRequest,
                                 coordinators: seq<Id>, hash: string -> string, studentId: Id,
                                 registrationNumber: string, faults: RegisterFaults,
                                 matches: (string, string) -> bool)
    requires registrationNumber != "" && forall s :: s in students ==> s.registrationNumber != registrationNumber
    requires RegisterSpec(students, notices, req, coordinators, hash, studentId, registrationNumber, faults).0.Registered?
    requires matches(req.password.value, hash(req.password.value))
    ensures var after := RegisterSpec(students, notices, req, coordinators, hash, studentId, registrationNumber, faults).1;
            Login(after, Some(registrationNumber), req.password, matches, false) == NotApproved
  {
    var s := NewStudent(req, hash, studentId, registrationNumber);
    var p := WithRegistrationNumber(registrationNumber);
    FilterConcat(students, [s], p);
    FilterNone(students, p);
    assert Filter([s], p) == [s];
  }

  // ---------------------------------------------------------------------
  // generateResetToken and forgotPassword
  // ---------------------------------------------------------------------

  /** How long a reset code stays valid: 15 minutes, in milliseconds. */
  const ResetWindow: int := 15 * 60 * 1000

  function Pow10(k: nat): nat {
    if k == 0 then 1 else 10 * Pow10(k - 1)
  }

  /** A number from `10^(k-1)` up to `10^k` has `k` digits. */
  lemma {:induction false} DigitCount(n: nat, k: nat)
    requires 1 <= k && Pow10(k - 1) <= n < Pow10(k)
    ensures |NatToString(n)| == k
    decreases k
  {
    if k > 1 {
      DigitCount(n / 10, k - 1);
    }
  }

  /** generateResetToken. `draw` stands for `Math.floor(Math.random() * 900000)`,
      which lies below 900000. */
  function ResetCode(draw: nat): (r: string)
    requires draw < 900000
    ensures |r| == 6
  {
    assert Pow10(5) == 100000 && Pow10(6) == 1000000;
    DigitCount(100000 + draw, 6);
    NatToString(100000 + draw)
  }

  /** A reset code is six decimal digits whose value lies in 100000..999999. */
  lemma ResetCodeShape(draw: nat)
    requires draw < 900000
    ensures |ResetCode(draw)| == 6 && AllDigits(ResetCode(draw))
    ensures 100000 <= DigitsValue(ResetCode(draw)) <= 999999
  {
    assert Pow10(5) == 100000 && Pow10(6) == 1000000;
    DigitCount(100000 + draw, 6);
    NatToStringDigits(100000 + draw);
  }

  /** Different draws give different codes. */
  lemma ResetCodeInjective(d1: nat, d2: nat)
    requires d1 < 900000 && d2 < 900000 && ResetCode(d1) == ResetCode(d2)
    ensures d1 == d2
  {
    NatToStringDigits(100000 + d1);
    NatToStringDigits(100000 + d2);
  }

  /** The last index of `c` in `s`. */
  function LastIndexOf(s: string, c: char): (r: Option<nat>)
    ensures r.Some? ==> r.value < |s| && s[r.value] == c && forall j :: r.value < j < |s| ==> s[j] != c
    ensures r.None? ==> c !in s
  {
    if s == [] then None
    else if s[|s| - 1] == c then Some(|s| - 1)
    else LastIndexOf(s[..|s| - 1], c)
  }

  /** `'*'.repeat(n)` */
  function Stars(n: nat): (r: string)
    ensures |r| == n && forall i :: 0 <= i < n ==> r[i] == '*'
  {
    seq(n, _ => '*')
  }

  /** `email.replace(/(.{2})(.*)(?=@)/, ...)`: the greedy match runs from
      the start to the last `@`, which must stand at index 2 or later; the
      characters matched by `(.*)` become `*`. Without such an `@` the
      e-mail is returned unchanged. */
  function MaskEmail(email: string): (r: string)
    ensures |r| == |email|
    ensures forall i :: 0 <= i < |r| ==> r[i] == email[i] || r[i] == '*'
  {
    match LastIndexOf(email, '@')
    case Some(k) => if k >= 2 then email[..2] + Stars(k - 2) + email[k..] else email
    case None => email
  }

  /** The mask keeps the length, the first two characters and everything
      from the last `@` on, and stars every character in between. */
  lemma MaskShape(email: string, k: nat)
    requires LastIndexOf(email, '@') == Some(k) && k >= 2
    ensures var r := MaskEmail(email);
            |r| == |email| && r[..2] == email[..2] && r[k..] == email[k..]
            && forall i :: 2 <= i < k ==> r[i] == '*'
  {
  }

  /** Without an `@` at index 2 or later, the e-mail is shown as it is. */
  lemma MaskNeedsAt(email: string)
    requires forall i :: 2 <= i < |email| ==> email[i] != '@'
    ensures MaskEmail(email) == email
  {
  }

  /** Masking a masked address changes nothing. */
  lemma MaskIdempotent(email: string)
    ensures MaskEmail(MaskEmail(email)) == MaskEmail(email)
  {
    match LastIndexOf(email, '@')
    case None =>
    case Some(k) =>
      if k >= 2 {
        var r := MaskEmail(email);
        MaskShape(email, k);
        assert r[k] == '@';
        LastIndexIs(r, '@', k);
        assert r[..2] + Stars(k - 2) + r[k..] == r;
      }
  }

  /** The last index is the unique one with no later occurrence. */
  lemma LastIndexIs(s: string, c: char, k: nat)
    requires k < |s| && s[k] == c && forall j :: k < j < |s| ==> s[j] != c
    ensures LastIndexOf(s, c) == Some(k)
  {
    var r := LastIndexOf(s, c);
    assert c in s;
    assert r.value >= k;
  }

  /** The row update that stores a reset code and its expiry. */
  function WithResetCode(students: seq<Student>, studentId: Id, code: string, expires: int): (r: seq<Student>)
    ensures |r| == |students|
  {
    seq(|students|, i requires 0 <= i < |students| =>
      if students[i].studentId == studentId
      then students[i].(resetToken := Some(code), resetTokenExpires := Some(expires))
      else students[i])
  }

  /** The store and mail errors of a reset request. The code is stored
      before the mail is sent, so a mail error leaves it stored. */
  datatype ForgotFaults = ForgotFaults(lookup: bool, update: bool, mail: bool)

  datatype ForgotOutcome =
    | ForgotMissingNumber                 // 400
    | ForgotNotFound                      // 404
    | ForgotFailed                        // 500
    | CodeSent(maskedEmail: string)

  /** forgotPassword at time `now`, drawing `draw`. */
  function ForgotSpec(students: seq<Student>, registrationNumber: Option<string>, draw: nat, now: int,
                      faults: ForgotFaults): (r: (ForgotOutcome, seq<Student>))
    requires draw < 900000
    ensures r.0 == ForgotMissingNumber <==> !Present(registrationNumber)
    ensures r.0 == ForgotNotFound <==>
              Present(registrationNumber)
              && (faults.lookup || Filter(students, WithRegistrationNumber(registrationNumber.value)) == [])
    ensures r.0.CodeSent? || r.0 == ForgotFailed ==>
              var s := Filter(students, WithRegistrationNumber(registrationNumber.value))[0];
              && s in students && s.registrationNumber == registrationNumber.value
              && (r.0.CodeSent? <==> !faults.update && !faults.mail)
              && (r.0.CodeSent? ==> r.0.maskedEmail == MaskEmail(s.email))
              && r.1 == (if faults.update then students
                         else WithResetCode(students, s.studentId, ResetCode(draw), now + ResetWindow))
    ensures r.0 == ForgotMissingNumber || r.0 == ForgotNotFound ==> r.1 == students
  {
    if !Present(registrationNumber) then (ForgotMissingNumber, students)
    else
      var found := Filter(students, WithRegistrationNumber(registrationNumber.value));
      if faults.lookup || found == [] then (ForgotNotFound, students)
      else
        var s := found[0];
        assert s in found;
        if faults.update then (ForgotFailed, students)
        else
          var after := WithResetCode(students, s.studentId, ResetCode(draw), now + ResetWindow);
          if faults.mail then (ForgotFailed, after) else (CodeSent(MaskEmail(s.email)), after)
  }

  // ---------------------------------------------------------------------
  // resetPassword
  // ---------------------------------------------------------------------

  function WithToken(code: string): Student -> bool {
    (s: Student) => s.resetToken == Some(code)
  }

  /** `new Date(expires) < new Date()`: a missing expiry reads as time 0. */
  predicate Expired(s: Student, now: int) {
    s.resetTokenExpires.GetOr(0) < now
  }

  /** The row update of a successful reset: the new hash, and both reset
      fields cleared. */
  function WithNewPassword(students: seq<Student>, studentId: Id, passwordHash: string): (r: seq<Student>)
    ensures |r| == |students|
  {
    seq(|students|, i requires 0 <= i < |students| =>
      if students[i].studentId == studentId
      then students[i].(passwordHash := passwordHash, resetToken := None, resetTokenExpires := None)
      else students[i])
  }

  datatype ResetFaults = ResetFaults(lookup: bool, update: bool)

  datatype ResetOutcome =
    | ResetMissingFields                  // 400
    | InvalidCode                         // 400
    | CodeExpired                         // 400
    | ResetFailed                         // 500
    | PasswordReset

  /** resetPassword at time `now`. */
  function ResetSpec(students: seq<Student>, code: Option<string>, newPassword: Option<string>,
                     hash: string -> string, now: int, faults: ResetFaults): (r: (ResetOutcome, seq<Student>))
    ensures r.0 == ResetMissingFields <==> !Present(code) || !Present(newPassword)
    ensures r.0 == InvalidCode <==>
              Present(code) && Present(newPassword) && (faults.lookup || Filter(students, WithToken(code.value)) == [])
    ensures r.0 == CodeExpired || r.0 == ResetFailed || r.0 == PasswordReset ==>
              var s := Filter(students, WithToken(code.value))[0];
              && s in students && s.resetToken == code
              && (r.0 == CodeExpired <==> Expired(s, now))
              && (r.0 == PasswordReset <==> !Expired(s, now) && !faults.update)
              && (r.0 == PasswordReset ==> r.1 == WithNewPassword(students, s.studentId, hash(newPassword.value)))
    ensures r.0 != PasswordReset ==> r.1 == students
  {
    if !Present(code) || !Present(newPassword) then (ResetMissingFields, students)
    else
      var found := Filter(students, WithToken(code.value));
      if faults.lookup || found == [] then (InvalidCode, students)
      else
        var s := found[0];
        assert s in found;
        if Expired(s, now) then (CodeExpired, students)
        else if faults.update then (ResetFailed, students)
        else (PasswordReset, WithNewPassword(students, s.studentId, hash(newPassword.value)))
  }

  /** A successful reset stores the new hash and clears both reset fields
      of that student, and leaves every other student as it was. */
  lemma ResetClearsCode(students: seq<Student>, code: string, newPassword: string, hash: string -> string, now: int,
                        i: nat)
    requires code != "" && newPassword != "" && i < |students|
    requires ResetSpec(students, Some(code), Some(newPassword), hash, now, ResetFaults(false, false)).0 == PasswordReset
    ensures var s := Filter(students, WithToken(code))[0];
            var after := ResetSpec(students, Some(code), Some(newPassword), hash, now, ResetFaults(false, false)).1;
            |after| == |students|
            && (students[i].studentId == s.studentId ==>
                  after[i].passwordHash == hash(newPassword) && after[i].resetToken.None?
                  && after[i].resetTokenExpires.None?)
            && (students[i].studentId != s.studentId ==> after[i] == students[i])
  {
  }

  /** A code works once: when no other student holds it, a second reset
      with the same code is refused as invalid. */
  lemma CodeSingleUse(students: seq<Student>, code: string, newPassword: string, hash: string -> string,
                      now: int, later: int, again: string)
    requires code != "" && newPassword != "" && again != ""
    requires ResetSpec(students, Some(code), Some(newPassword), hash, now, ResetFaults(false, false)).0 == PasswordReset
    requires forall s :: s in students && s.resetToken == Some(code) ==>
               s.studentId == Filter(students, WithToken(code))[0].studentId
    ensures var after := ResetSpec(students, Some(code), Some(newPassword), hash, now, ResetFaults(false, false)).1;
            ResetSpec(after, Some(code), Some(again), hash, later, ResetFaults(false, false)).0 == InvalidCode
  {
    var id := Filter(students, WithToken(code))[0].studentId;
    var after := WithNewPassword(students, id, hash(newPassword));
    forall x | x in after ensures !WithToken(code)(x) {
      var i :| 0 <= i < |after| && after[i] == x;
      assert students[i] in students;
    }
    FilterNone(after, WithToken(code));
  }

  /** A code just issued to a student nobody else shares resets the
      password exactly while the 15 minutes have not passed. */
  lemma CodeValidForFifteenMinutes(students: seq<Student>, registrationNumber: string, draw: nat, now: int,
                                   mailFails: bool, newPassword: string, hash: string -> string, t: int)
    requires registrationNumber != "" && newPassword != "" && draw < 900000
    requires Filter(students, WithRegistrationNumber(registrationNumber)) != []
    requires forall s :: s in students && s.resetToken == Some(ResetCode(draw)) ==>
               s.studentId == Filter(students, WithRegistrationNumber(registrationNumber))[0].studentId
    ensures var after := ForgotSpec(students, Some(registrationNumber), draw, now, ForgotFaults(false, false, mailFails)).1;
            ResetSpec(after, Some(ResetCode(draw)), Some(newPassword), hash, t, ResetFaults(false, false)).0 == PasswordReset
            <==> t <= now + ResetWindow
  {
    var code := ResetCode(draw);
    var owner := Filter(students, WithRegistrationNumber(registrationNumber))[0];
    assert owner in Filter(students, WithRegistrationNumber(registrationNumber));
    var after := WithResetCode(students, owner.studentId, code, now + ResetWindow);
    assert after[..] == ForgotSpec(students, Some(registrationNumber), draw, now, ForgotFaults(false, false, mailFails)).1;
    var i :| 0 <= i < |students| && students[i] == owner;
    assert after[i].resetToken == Some(code);
    assert after[i] in Filter(after, WithToken(code));
    var s := Filter(after, WithToken(code))[0];
    assert s in Filter(after, WithToken(code));
    var j :| 0 <= j < |after| && after[j] == s;
    assert students[j] in students;
    assert s.resetTokenExpires == Some(now + ResetWindow);
  }

  // ---------------------------------------------------------------------
  // deleteProfilePicture
  // ---------------------------------------------------------------------

  const ProfileSep: string := "/user-profiles/"

  /** The storage path of a profile picture URL: the second piece of the
      split on `/user-profiles/`, when there is one. */
  function ProfilePath(url: string): (r: Option<string>)
    ensures r.Some? <==> Contains(url, ProfileSep)
    ensures r.Some? ==> !Contains(r.value, ProfileSep)
  {
    SplitSeveral(url, ProfileSep);
    var parts := Split(url, ProfileSep);
    if |parts| > 1 then
      SplitPiecesFree(url, ProfileSep, 1);
      Some(parts[1])
    else None
  }

  /** A URL with the folder marker gives the text after its first
      occurrence, up to a second one if any; a URL without it gives none. */
  lemma ProfilePathShape(url: string)
    ensures ProfilePath(url).Some? <==> Contains(url, ProfileSep)
    ensures Contains(url, ProfileSep) ==>
              var rest := url[IndexOf(url, ProfileSep).value + |ProfileSep|..];
              var r := ProfilePath(url).value;
              r <= rest && !Contains(r, ProfileSep) && (r == rest || OccursAt(rest, ProfileSep, |r|))
  {
    SplitSeveral(url, ProfileSep);
    if Contains(url, ProfileSep) {
      var i := IndexOf(url, ProfileSep).value;
      SplitUnfold(url, ProfileSep, i);
      FirstPieceShape(url[i + |ProfileSep|..], ProfileSep);
    }
  }

  function WithStudentId(studentId: Id): Student -> bool {
    (s: Student) => s.studentId == studentId
  }

  /** `update({ profile_picture: null })` on the student's rows. */
  function WithoutPicture(students: seq<Student>, studentId: Id): (r: seq<Student>)
    ensures |r| == |students|
  {
    seq(|students|, i requires 0 <= i < |students| =>
      if students[i].studentId == studentId then students[i].(profilePicture := None) else students[i])
  }

  datatype DeleteFaults = DeleteFaults(fetch: bool, storage: bool, update: bool)

  datatype DeleteOutcome =
    | DeleteFetchFailed                                // 500
    | DeleteUpdateFailed(removedPath: Option<string>)  // 500, after the storage removal
    | PictureDeleted(removedPath: Option<string>)

  /** deleteProfilePicture: the outcome, carrying the storage path whose
      removal was requested, and the students afterwards. */
  function DeletePictureSpec(students: seq<Student>, studentId: Id, faults: DeleteFaults)
    : (r: (DeleteOutcome, seq<Student>))
    ensures r.0 == DeleteFetchFailed <==>
              faults.fetch || |Filter(students, WithStudentId(studentId))| != 1
    ensures r.0.PictureDeleted? <==> r.0 != DeleteFetchFailed && !faults.update
    ensures r.0.PictureDeleted? ==> r.1 == WithoutPicture(students, studentId)
    ensures !r.0.PictureDeleted? ==> r.1 == students
    ensures r.0 != DeleteFetchFailed ==>
              var pic := Filter(students, WithStudentId(studentId))[0].profilePicture;
              r.0.removedPath == (if Present(pic) then ProfilePath(pic.value) else None)
  {
    var found := Filter(students, WithStudentId(studentId));
    if faults.fetch || |found| != 1 then (DeleteFetchFailed, students)
    else
      var pic := found[0].profilePicture;
      var removed := if Present(pic) then ProfilePath(pic.value) else None;
      if faults.update then (DeleteUpdateFailed(removed), students)
      else (PictureDeleted(removed), WithoutPicture(students, studentId))
  }

  /** A storage error does not stop the picture being cleared. */
  lemma StorageErrorIgnored(students: seq<Student>, studentId: Id, fetch: bool, update: bool)
    ensures DeletePictureSpec(students, studentId, DeleteFaults(fetch, true, update))
            == DeletePictureSpec(students, studentId, DeleteFaults(fetch, false, update))
  {
  }

  /** After a successful delete the student has no picture, and no other
      student changed. */
  lemma DeletedPictureIsGone(students: seq<Student>, studentId: Id, storage: bool, s: Student)
    requires DeletePictureSpec(students, studentId, DeleteFaults(false, storage, false)).0.PictureDeleted?
    requires s in DeletePictureSpec(students, studentId, DeleteFaults(false, storage, false)).1
    ensures s.studentId == studentId ==> s.profilePicture.None?
    ensures s.studentId != studentId ==> s in students
  {
    var after := WithoutPicture(students, studentId);
    var i :| 0 <= i < |after| && after[i] == s;
    assert students[i] in students;
  }

  // ---------------------------------------------------------------------
  // The students table
  // ---------------------------------------------------------------------

  /** The `students` table and the coordinators' notices. */
  class StudentStore {
    var students: seq<Student>
    var notices: seq<CoordinatorNotice>

    constructor(initialStudents: seq<Student>, initialNotices: seq<CoordinatorNotice>)
      ensures students == initialStudents && notices == initialNotices
    {
      students := initialStudents;
      notices := initialNotices;
    }

    /** registerStudent. */
    method Register(req: RegisterRequest, coordinators: seq<Id>, hash: string -> string, studentId: Id,
                    registrationNumber: string, faults: RegisterFaults) returns (r: RegisterOutcome)
      modifies this
      ensures (r, students, notices)
              == RegisterSpec(old(students), old(notices), req, coordinators, hash, studentId, registrationNumber, faults)
    {
      if !HasRequiredFields(req) {
        return RegisterMissingFields;
      }
      if Truthy(req.isReferred) && !Present(req.referredByCenter) {
        return ReferralCenterRequired;
      }
      if faults.insert {
        return RegisterFailed;
      }
      var s := NewStudent(req, hash, studentId, registrationNumber);
      students := students + [s];
      if !faults.coordinatorRead && |coordinators| > 0 && !faults.noticeInsert {
        notices := notices + NoticesFor(coordinators, req.name.value, studentId);
      }
      r := Registered(s);
    }

    /** forgotPassword. */
    method ForgotPassword(registrationNumber: Option<string>, draw: nat, now: int, faults: ForgotFaults)
      returns (r: ForgotOutcome)
      requires draw < 900000
      modifies this
      ensures (r, students) == ForgotSpec(old(students), registrationNumber, draw, now, faults)
      ensures notices == old(notices)
    {
      if !Present(registrationNumber) {
        return ForgotMissingNumber;
      }
      var found := Filter(students, WithRegistrationNumber(registrationNumber.value));
      if faults.lookup || found == [] {
        return ForgotNotFound;
      }
      var s := found[0];
      if faults.update {
        return ForgotFailed;
      }
      students := WithResetCode(students, s.studentId, ResetCode(draw), now + ResetWindow);
      if faults.mail {
        return ForgotFailed;
      }
      r := CodeSent(MaskEmail(s.email));
    }

    /** resetPassword. */
    method ResetPassword(code: Option<string>, newPassword: Option<string>, hash: string -> string, now: int,
                         faults: ResetFaults) returns (r: ResetOutcome)
      modifies this
      ensures (r, students) == ResetSpec(old(students), code, newPassword, hash, now, faults)
      ensures notices == old(notices)
    {
      if !Present(code) || !Present(newPassword) {
        return ResetMissingFields;
      }
      var found := Filter(students, WithToken(code.value));
      if faults.lookup || found == [] {
        return InvalidCode;
      }
      var s := found[0];
      if Expired(s, now) {
        return CodeExpired;
      }
      if faults.update {
        return ResetFailed;
      }
      students := WithNewPassword(students, s.studentId, hash(newPassword.value));
      r := PasswordReset;
    }

    /** deleteProfilePicture. */
    method DeleteProfilePicture(studentId: Id, faults: DeleteFaults) returns (r: DeleteOutcome)
      modifies this
      ensures (r, students) == DeletePictureSpec(old(students), studentId, faults)
      ensures notices == old(notices)
    {
      var found := Filter(students, WithStudentId(studentId));
      if faults.fetch || |found| != 1 {
        return DeleteFetchFailed;
      }
      var pic := found[0].profilePicture;
      var removed := if Present(pic) then ProfilePath(pic.value) else None;
      if faults.update {
        return DeleteUpdateFailed(removed);
      }
      students := WithoutPicture(students, studentId);
      r := PictureDeleted(removed);
    }
  }
}
