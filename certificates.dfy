/** What a student reads about assessments and certificates
    (controllers/studentCertificateController.js): the submitted marks of a
    batch, the completed certificates, one certificate's details, the
    download of its file, and the student's batches. Object storage and the
    public-URL fetch are parameters: the set of stored paths and whether the
    fetch succeeds. */
module Certificates {
  import opened Common
  import opened Text
  import O = Ordering

  /** An `assessment_marks` row; the mark columns themselves are carried
      through unread. */
  datatype AssessmentMark = AssessmentMark(id: Id, studentId: Id, batchId: Id, status: string, details: string)

  /** A `generated_certificates` row; `generatedAt` is a time in milliseconds. */
  datatype Certificate = Certificate(certificateId: Id, studentId: Id, batchId: Id, status: string,
                                     generatedAt: int, url: Option<string>)

  /** An `enrollment` row, as far as the batch list reads it. */
  datatype Enrollment = Enrollment(studentId: Id, batchId: Id)

  // ---------------------------------------------------------------------
  // getStudentAssessmentMarks
  // ---------------------------------------------------------------------

  function SubmittedMarksOf(studentId: Id, batchId: Id): AssessmentMark -> bool {
    (m: AssessmentMark) => m.studentId == studentId && m.batchId == batchId && m.status == "submitted"
  }

  datatype MarksOutcome =
    | MarksFailed                         // 500
    | MarksNotFound                       // 404
    | MarksFound(row: AssessmentMark)

  /** `fails` is a store error other than PGRST116, the error `.single()`
      reports when no row (or more than one) matches; that one ends in 404. */
  function AssessmentMarks(rows: seq<AssessmentMark>, studentId: Id, batchId: Id, fails: bool): (r: MarksOutcome)
    ensures r.MarksFailed? <==> fails
    ensures r.MarksNotFound? <==> !fails && |Filter(rows, SubmittedMarksOf(studentId, batchId))| != 1
    ensures r.MarksFound? ==>
              r.row in rows && r.row.studentId == studentId && r.row.batchId == batchId && r.row.status == "submitted"
  {
    if fails then MarksFailed
    else
      match Single(Filter(rows, SubmittedMarksOf(studentId, batchId)))
      case Some(m) => MarksFound(m)
      case None => MarksNotFound
  }

  /** A student whose marks for the batch are all still drafts (or absent)
      gets 404, never a row. */
  lemma UnsubmittedMarksNotFound(rows: seq<AssessmentMark>, studentId: Id, batchId: Id)
    requires forall m :: m in rows && m.studentId == studentId && m.batchId == batchId ==> m.status != "submitted"
    ensures AssessmentMarks(rows, studentId, batchId, false) == MarksNotFound
  {
    var matching := Filter(rows, SubmittedMarksOf(studentId, batchId));
    if |matching| > 0 {
      assert matching[0] in matching;
    }
  }

  // ---------------------------------------------------------------------
  // getStudentCertificates
  // ---------------------------------------------------------------------

  function CompletedFor(studentId: Id, batchId: Id): Certificate -> bool {
    (c: Certificate) => c.studentId == studentId && c.batchId == batchId && c.status == "completed"
  }

  /** `.order('generated_at', { ascending: false })` */
  function GeneratedKey(c: Certificate): O.Key {
    [O.Num(c.generatedAt)]
  }

  lemma NewestGeneratedFirst(certs: seq<Certificate>)
    requires O.SortedBy(certs, GeneratedKey, true)
    ensures forall i, j :: 0 <= i < j < |certs| ==> certs[i].generatedAt >= certs[j].generatedAt
  {
    forall i, j | 0 <= i < j < |certs| ensures certs[i].generatedAt >= certs[j].generatedAt {
      assert !O.Before(GeneratedKey(certs[j]), GeneratedKey(certs[i]), true);
      assert !O.KeyLess(GeneratedKey(certs[i]), GeneratedKey(certs[j]));
    }
  }

  /** The completed certificates of the student in the batch, newest first. */
  function CompletedListing(rows: seq<Certificate>, studentId: Id, batchId: Id): (r: seq<Certificate>)
    ensures multiset(r) == multiset(Filter(rows, CompletedFor(studentId, batchId)))
    ensures forall i, j :: 0 <= i < j < |r| ==> r[i].generatedAt >= r[j].generatedAt
  {
    var sorted := O.SortBy(Filter(rows, CompletedFor(studentId, batchId)), GeneratedKey, true);
    NewestGeneratedFirst(sorted);
    sorted
  }

  datatype CertificatesOutcome =
    | CertificatesFailed                  // 500
    | CertificateList(certs: seq<Certificate>)

  function StudentCertificates(rows: seq<Certificate>, studentId: Id, batchId: Id, fails: bool)
    : (r: CertificatesOutcome)
    ensures r.CertificatesFailed? <==> fails
    ensures r.CertificateList? ==> r.certs == CompletedListing(rows, studentId, batchId)
  {
    if fails then CertificatesFailed else CertificateList(CompletedListing(rows, studentId, batchId))
  }

  /** The list holds exactly the student's completed certificates of the batch. */
  lemma CertificatesHoldExactly(rows: seq<Certificate>, studentId: Id, batchId: Id, c: Certificate)
    ensures c in CompletedListing(rows, studentId, batchId) <==>
              c in rows && c.studentId == studentId && c.batchId == batchId && c.status == "completed"
  {
    var completed := Filter(rows, CompletedFor(studentId, batchId));
    assert c in CompletedListing(rows, studentId, batchId) <==> c in multiset(completed);
    assert CompletedFor(studentId, batchId)(c) <==>
             c.studentId == studentId && c.batchId == batchId && c.status == "completed";
  }

  /** Without a completed certificate the answer is the empty list. */
  lemma NoCertificatesEmptyList(rows: seq<Certificate>, studentId: Id, batchId: Id)
    requires forall c :: c in rows && c.studentId == studentId && c.batchId == batchId ==> c.status != "completed"
    ensures StudentCertificates(rows, studentId, batchId, false) == CertificateList([])
  {
    var listing := CompletedListing(rows, studentId, batchId);
    if |listing| > 0 {
      CertificatesHoldExactly(rows, studentId, batchId, listing[0]);
    }
  }

  // ---------------------------------------------------------------------
  // getCertificateDetails
  // ---------------------------------------------------------------------

  function WithCertificateId(certificateId: Id): Certificate -> bool {
    (c: Certificate) => c.certificateId == certificateId
  }

  datatype LookupOutcome =
    | LookupFailed                        // 500
    | CertificateNotFound                 // 404
    | CertificateFound(cert: Certificate)

  /** The certificate lookup as written: every error of `.single()` gives
      500, including PGRST116 for a certificate id with no row, so the 404
      branch that follows it is never taken. */
  function LookupAsWritten(rows: seq<Certificate>, certificateId: Id, fails: bool): (r: LookupOutcome)
    ensures !r.CertificateNotFound?
    ensures r.LookupFailed? <==> fails || |Filter(rows, WithCertificateId(certificateId))| != 1
    ensures r.CertificateFound? ==> r.cert in rows && r.cert.certificateId == certificateId
  {
    if fails then LookupFailed
    else
      match Single(Filter(rows, WithCertificateId(certificateId)))
      case Some(c) => CertificateFound(c)
      case None => LookupFailed
  }

  /** The lookup as intended, handling PGRST116 as the marks read does: an
      unknown certificate id gives 404; only other store errors give 500. */
  function Lookup(rows: seq<Certificate>, certificateId: Id, fails: bool): (r: LookupOutcome)
    ensures r.LookupFailed? <==> fails
    ensures r.CertificateNotFound? <==> !fails && |Filter(rows, WithCertificateId(certificateId))| != 1
    ensures r.CertificateFound? ==> r.cert in rows && r.cert.certificateId == certificateId
  {
    if fails then LookupFailed
    else
      match Single(Filter(rows, WithCertificateId(certificateId)))
      case Some(c) => CertificateFound(c)
      case None => CertificateNotFound
  }

  /** An unknown certificate id: 500 as written, 404 as intended. */
  lemma UnknownCertificateAsWritten(rows: seq<Certificate>, certificateId: Id)
    requires forall c :: c in rows ==> c.certificateId != certificateId
    ensures LookupAsWritten(rows, certificateId, false) == LookupFailed
    ensures Lookup(rows, certificateId, false) == CertificateNotFound
  {
    var matching := Filter(rows, WithCertificateId(certificateId));
    if |matching| > 0 {
      assert matching[0] in matching;
    }
  }

  /** The two lookups differ only in the unknown-id case. */
  lemma LookupsAgreeOnKnownIds(rows: seq<Certificate>, certificateId: Id, fails: bool)
    requires !Lookup(rows, certificateId, fails).CertificateNotFound?
    ensures LookupAsWritten(rows, certificateId, fails) == Lookup(rows, certificateId, fails)
  {
  }

  // ---------------------------------------------------------------------
  // downloadCertificate: paths and file names
  // ---------------------------------------------------------------------

  /** The URL prefix of a public object in the store's storage API. */
  const PublicMarker: string := "supabase.co/storage/v1/object/public/"
  const PublicSep: string := "public/"

  /** The storage path of a certificate URL: for a public storage URL, the
      text after the first `public/` up to the next one, cut at the first
      `?`; any other URL is used whole. */
  function StoragePath(url: string): (r: string)
    ensures !Contains(url, PublicMarker) ==> r == url
  {
    if Contains(url, PublicMarker) then
      var parts := Split(url, PublicSep);
      if |parts| > 1 then Split(parts[1], "?")[0] else url
    else url
  }

  /** The marker ends with `public/`, so a public URL always splits. */
  lemma MarkerSplits(url: string)
    requires Contains(url, PublicMarker)
    ensures Contains(url, PublicSep)
    ensures |Split(url, PublicSep)| > 1
  {
    var k := IndexOf(url, PublicMarker).value;
    var j := k + |PublicMarker| - |PublicSep|;
    assert url[j..j + |PublicSep|] == url[k..k + |PublicMarker|][|PublicMarker| - |PublicSep|..];
    assert OccursAt(url, PublicSep, j);
    IndexOfFirst(url, PublicSep, j);
    SplitSeveral(url, PublicSep);
  }

  /** The text after the first `public/`. */
  function AfterPublic(url: string): string
    requires Contains(url, PublicSep)
  {
    url[IndexOf(url, PublicSep).value + |PublicSep|..]
  }

  /** The path taken from the text after the first `public/`: up to the
      next `public/`, then up to the first `?`. */
  function PathIn(rest: string): string {
    Split(Split(rest, PublicSep)[0], "?")[0]
  }

  lemma StoragePathIsPathIn(url: string)
    requires Contains(url, PublicMarker)
    ensures Contains(url, PublicSep)
    ensures StoragePath(url) == PathIn(AfterPublic(url))
  {
    MarkerSplits(url);
    var i := IndexOf(url, PublicSep).value;
    var parts := Split(url, PublicSep);
    assert StoragePath(url) == Split(parts[1], "?")[0];
    SplitUnfold(url, PublicSep, i);
    assert parts[1] == Split(AfterPublic(url), PublicSep)[0];
  }

  /** The path is a prefix of the text it is taken from, holds no `?` and
      no `public/`, and stops only at the end, at a `?` or at a `public/`. */
  lemma PathInShape(rest: string)
    ensures var r := PathIn(rest);
            r <= rest && '?' !in r && !Contains(r, PublicSep)
            && (r == rest || rest[|r|] == '?' || OccursAt(rest, PublicSep, |r|))
  {
    var piece := Split(rest, PublicSep)[0];
    FirstPieceShape(rest, PublicSep);
    var r := Split(piece, "?")[0];
    FirstPieceShape(piece, "?");
    ContainsChar(r, '?');
    NotContainsPrefix(r, piece, PublicSep);
    if r != piece {
      assert piece[|r|..|r| + 1] == "?";
      assert rest[|r|] == piece[|r|];
    }
  }

  /** For a public storage URL, the path is a prefix of the text after the
      first `public/`, holds no `?` and no further `public/`, and stops
      only at the end, at a `?` or at the next `public/`. */
  lemma StoragePathAfterPublic(url: string)
    requires Contains(url, PublicMarker)
    ensures Contains(url, PublicSep)
    ensures var rest := AfterPublic(url);
            var r := StoragePath(url);
            r <= rest && '?' !in r && !Contains(r, PublicSep)
            && (r == rest || rest[|r|] == '?' || OccursAt(rest, PublicSep, |r|))
  {
    StoragePathIsPathIn(url);
    PathInShape(AfterPublic(url));
  }

  /** `pathParts[pathParts.length - 1]`: the last `/`-segment. */
  function FileName(path: string): (r: string)
    ensures '/' !in r
    ensures '/' !in path ==> r == path
  {
    var parts := Split(path, "/");
    FirstPieceShape(path, "/");
    SplitPiecesFree(path, "/", |parts| - 1);
    ContainsChar(parts[|parts| - 1], '/');
    ContainsChar(path, '/');
    SplitSeveral(path, "/");
    Last(parts)
  }

  /** `pathParts.slice(0, -1).join('/')`: the segments before it. */
  function FolderPath(path: string): (r: string)
    ensures '/' !in path ==> r == ""
  {
    ContainsChar(path, '/');
    SplitSeveral(path, "/");
    var parts := Split(path, "/");
    Join(parts[..|parts| - 1], "/")
  }

  /** The file name holds no `/`; with a `/` in the path, folder, `/` and
      file name give the path back. */
  lemma FolderAndFileRebuildPath(path: string)
    requires '/' in path
    ensures '/' !in FileName(path)
    ensures FolderPath(path) + "/" + FileName(path) == path
  {
    var parts := Split(path, "/");
    SplitPiecesFree(path, "/", |parts| - 1);
    ContainsChar(FileName(path), '/');
    ContainsChar(path, '/');
    SplitSeveral(path, "/");
    JoinSnoc(parts, "/");
    JoinSplit(path, "/");
  }

  /** A path without `/` is all file name, with an empty folder. */
  lemma PathWithoutFolder(path: string)
    requires '/' !in path
    ensures FileName(path) == path && FolderPath(path) == ""
  {
    ContainsChar(path, '/');
    SplitSeveral(path, "/");
    FirstPieceShape(path, "/");
  }

  /** The `filename` of the download: the last `/`-segment of the URL, cut
      at the first `?`. */
  function DownloadName(url: string): (r: string)
    ensures '?' !in r
  {
    SplitPiecesFree(FileName(url), "?", 0);
    ContainsChar(Split(FileName(url), "?")[0], '?');
    Split(FileName(url), "?")[0]
  }

  /** The download name is a prefix of the URL's last segment and holds
      neither `/` nor `?`. */
  lemma DownloadNameIsPlain(url: string)
    ensures DownloadName(url) <= FileName(url)
    ensures '/' !in DownloadName(url) && '?' !in DownloadName(url)
  {
    var parts := Split(url, "/");
    var last := FileName(url);
    SplitPiecesFree(url, "/", |parts| - 1);
    FirstPieceShape(last, "?");
    var name := DownloadName(url);
    NotContainsPrefix(name, last, "/");
    ContainsChar(name, '/');
    ContainsChar(name, '?');
  }

  // ---------------------------------------------------------------------
  // downloadCertificate: outcome
  // ---------------------------------------------------------------------

  datatype DownloadOutcome =
    | DownloadFailed                      // 500, lookup error
    | DownloadNotFound                    // 404, no such certificate
    | FileUnavailable                     // 404, no certificate_url
    | NotInStorage(filePath: string)      // 500, neither storage nor the public URL served it
    | Sent(fileName: string, fromPublicUrl: bool)

  /** The download, on the intended lookup. `stored` holds the paths the
      `completion-certificates` bucket can serve and `fetchOk` says whether
      the fallback fetch of the URL succeeds. The student-details read and
      the folder listing before the download only log and are not modelled. */
  function Download(rows: seq<Certificate>, certificateId: Id, fails: bool, stored: set<string>, fetchOk: bool)
    : (r: DownloadOutcome)
    ensures r.DownloadFailed? <==> fails
    ensures r.DownloadNotFound? <==> Lookup(rows, certificateId, fails).CertificateNotFound?
    ensures r.FileUnavailable? <==>
              Lookup(rows, certificateId, fails).CertificateFound? && !Present(Lookup(rows, certificateId, fails).cert.url)
    ensures r.Sent? || r.NotInStorage? ==>
              var url := Lookup(rows, certificateId, fails).cert.url.value;
              && (r.Sent? ==> r.fileName == DownloadName(url) && (r.fromPublicUrl <==> StoragePath(url) !in stored))
              && (r.NotInStorage? <==> StoragePath(url) !in stored && !fetchOk)
              && (r.NotInStorage? ==> r.filePath == StoragePath(url))
  {
    match Lookup(rows, certificateId, fails)
    case LookupFailed => DownloadFailed
    case CertificateNotFound => DownloadNotFound
    case CertificateFound(c) => SendFile(c, stored, fetchOk)
  }

  /** The download once the certificate row is in hand: storage first, then
      the public URL. */
  function SendFile(c: Certificate, stored: set<string>, fetchOk: bool): (r: DownloadOutcome)
    ensures r.FileUnavailable? || r.NotInStorage? || r.Sent?
    ensures r.FileUnavailable? <==> !Present(c.url)
    ensures r.Sent? ==> r.fileName == DownloadName(c.url.value)
  {
    if !Present(c.url) then FileUnavailable
    else
      var url := c.url.value;
      var filePath := StoragePath(url);
      if filePath in stored then Sent(DownloadName(url), false)
      else if fetchOk then Sent(DownloadName(url), true)
      else NotInStorage(filePath)
  }

  /** The download as written: it reads the certificate with the same
      `.single()` call as the details handler, so an unknown id is a lookup
      error (500) and the 404 branch is never taken. */
  function DownloadAsWritten(rows: seq<Certificate>, certificateId: Id, fails: bool, stored: set<string>, fetchOk: bool)
    : (r: DownloadOutcome)
    ensures !r.DownloadNotFound?
    ensures r.DownloadFailed? <==> fails || |Filter(rows, WithCertificateId(certificateId))| != 1
  {
    match LookupAsWritten(rows, certificateId, fails)
    case LookupFailed => DownloadFailed
    case CertificateNotFound => DownloadNotFound
    case CertificateFound(c) => SendFile(c, stored, fetchOk)
  }

  /** An unknown certificate id: the download fails with 500 as written and
      answers 404 as intended. */
  lemma UnknownCertificateDownloadAsWritten(rows: seq<Certificate>, certificateId: Id, stored: set<string>, fetchOk: bool)
    requires forall c :: c in rows ==> c.certificateId != certificateId
    ensures DownloadAsWritten(rows, certificateId, false, stored, fetchOk) == DownloadFailed
    ensures Download(rows, certificateId, false, stored, fetchOk) == DownloadNotFound
  {
    UnknownCertificateAsWritten(rows, certificateId);
  }

  /** The two downloads differ only in the unknown-id case. */
  lemma DownloadsAgreeOnKnownIds(rows: seq<Certificate>, certificateId: Id, fails: bool, stored: set<string>, fetchOk: bool)
    requires !Download(rows, certificateId, fails, stored, fetchOk).DownloadNotFound?
    ensures DownloadAsWritten(rows, certificateId, fails, stored, fetchOk) == Download(rows, certificateId, fails, stored, fetchOk)
  {
    LookupsAgreeOnKnownIds(rows, certificateId, fails);
  }

  /** A file that is sent is named with neither `/` nor `?`, whichever way
      it was fetched. */
  lemma SentNameIsPlain(rows: seq<Certificate>, certificateId: Id, fails: bool, stored: set<string>, fetchOk: bool)
    ensures var r := Download(rows, certificateId, fails, stored, fetchOk);
            r.Sent? ==> '/' !in r.fileName && '?' !in r.fileName
  {
    var l := Lookup(rows, certificateId, fails);
    if l.CertificateFound? && Present(l.cert.url) {
      DownloadNameIsPlain(l.cert.url.value);
    }
  }

  // ---------------------------------------------------------------------
  // getStudentBatches
  // ---------------------------------------------------------------------

  /** The `batch_id` of every enrollment row of the student, in table order. */
  function BatchIdsOf(enrollments: seq<Enrollment>, studentId: Id): (r: seq<Id>)
    ensures |r| <= |enrollments|
    ensures forall b :: b in r <==> exists e :: e in enrollments && e.studentId == studentId && e.batchId == b
  {
    if enrollments == [] then []
    else
      var e := enrollments[0];
      var rest := BatchIdsOf(enrollments[1..], studentId);
      assert forall x :: x in enrollments <==> x == e || x in enrollments[1..];
      if e.studentId == studentId then [e.batchId] + rest else rest
  }

  datatype BatchesOutcome =
    | BatchesFailed                       // 500
    | StudentBatchList(batchIds: seq<Id>)

  function StudentBatches(enrollments: seq<Enrollment>, studentId: Id, fails: bool): (r: BatchesOutcome)
    ensures r.BatchesFailed? <==> fails
    ensures r.StudentBatchList? ==> r.batchIds == BatchIdsOf(enrollments, studentId)
  {
    if fails then BatchesFailed else StudentBatchList(BatchIdsOf(enrollments, studentId))
  }
}
