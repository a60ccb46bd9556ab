/** The `notifications` table as a student reads it
    (controllers/notificationsController.js): the listing of one's own
    notifications, newest first and unread only unless `all=true`, and
    marking one as read. The reminder job also appends to this table. */
module Notifications {
  import opened Common
  import O = Ordering

  /** A `notifications` row; `createdAt` is a time in milliseconds. */
  datatype Notification = Notification(id: nat, student: Id, message: string, isRead: bool, createdAt: int)

  /** `req.query.all === 'true'`: any other value, or none, lists unread
      notifications only. */
  predicate ShowAll(all: Option<string>) {
    all == Some("true")
  }

  function ListedFor(studentId: Id, all: Option<string>): Notification -> bool {
    (n: Notification) => n.student == studentId && (ShowAll(all) || !n.isRead)
  }

  /** `.order("created_at", { ascending: false })` */
  function CreatedKey(n: Notification): O.Key {
    [O.Num(n.createdAt)]
  }

  lemma NewestFirstOrder(rows: seq<Notification>)
    requires O.SortedBy(rows, CreatedKey, true)
    ensures forall i, j :: 0 <= i < j < |rows| ==> rows[i].createdAt >= rows[j].createdAt
  {
    forall i, j | 0 <= i < j < |rows| ensures rows[i].createdAt >= rows[j].createdAt {
      assert !O.Before(CreatedKey(rows[j]), CreatedKey(rows[i]), true);
      assert !O.KeyLess(CreatedKey(rows[i]), CreatedKey(rows[j]));
    }
  }

  datatype ListOutcome =
    | ListUnauthorized                    // 401
    | ListFailed                          // 500
    | Listing(rows: seq<Notification>)

  /** The student's notifications the listing shows, newest first. */
  function NewestListing(rows: seq<Notification>, studentId: Id, all: Option<string>): (r: seq<Notification>)
    ensures multiset(r) == multiset(Filter(rows, ListedFor(studentId, all)))
    ensures forall i, j :: 0 <= i < j < |r| ==> r[i].createdAt >= r[j].createdAt
  {
    var sorted := O.SortBy(Filter(rows, ListedFor(studentId, all)), CreatedKey, true);
    NewestFirstOrder(sorted);
    sorted
  }

  /** The listing holds exactly the student's notifications, unread ones
      only unless `all` is `'true'`. */
  lemma ListingHoldsExactly(rows: seq<Notification>, studentId: Id, all: Option<string>, n: Notification)
    ensures n in NewestListing(rows, studentId, all) <==>
              n in rows && n.student == studentId && (ShowAll(all) || !n.isRead)
  {
    var listed := Filter(rows, ListedFor(studentId, all));
    assert n in NewestListing(rows, studentId, all) <==> n in multiset(listed);
    assert ListedFor(studentId, all)(n) <==> n.student == studentId && (ShowAll(all) || !n.isRead);
  }

  /** getNotifications; `fails` is a store error of the read. */
  function GetNotifications(rows: seq<Notification>, studentId: Option<Id>, all: Option<string>, fails: bool)
    : (r: ListOutcome)
    ensures r == ListUnauthorized <==> !Present(studentId)
    ensures r == ListFailed <==> Present(studentId) && fails
    ensures r.Listing? ==> r.rows == NewestListing(rows, studentId.value, all)
  {
    if !Present(studentId) then ListUnauthorized
    else if fails then ListFailed
    else Listing(NewestListing(rows, studentId.value, all))
  }

  /** The full listing holds every notification of the unread one. */
  lemma UnreadWithinAll(rows: seq<Notification>, studentId: Id, all: Option<string>)
    ensures forall n :: n in NewestListing(rows, studentId, all) ==> n in NewestListing(rows, studentId, Some("true"))
  {
    forall n | n in NewestListing(rows, studentId, all) ensures n in NewestListing(rows, studentId, Some("true")) {
      ListingHoldsExactly(rows, studentId, all, n);
      ListingHoldsExactly(rows, studentId, Some("true"), n);
    }
  }

  /** The update `is_read = true` where `id` and `student` match. */
  function MarkRead(rows: seq<Notification>, studentId: Id, id: nat): (r: seq<Notification>)
    ensures |r| == |rows|
    ensures forall i :: 0 <= i < |r| ==>
              r[i] == rows[i].(isRead := rows[i].isRead || (rows[i].id == id && rows[i].student == studentId))
  {
    if rows == [] then []
    else
      var n := rows[0];
      [if n.id == id && n.student == studentId then n.(isRead := true) else n] + MarkRead(rows[1..], studentId, id)
  }

  datatype MarkOutcome =
    | MarkUnauthorized                    // 401
    | MarkFailed                          // 500
    | Marked

  /** markAsRead: the outcome and the table afterwards. A store error leaves
      the table unchanged. */
  function MarkAsReadSpec(rows: seq<Notification>, studentId: Option<Id>, id: nat, fails: bool)
    : (r: (MarkOutcome, seq<Notification>))
    ensures r.0 == MarkUnauthorized <==> !Present(studentId)
    ensures r.0 == MarkFailed <==> Present(studentId) && fails
    ensures r.0 != Marked ==> r.1 == rows
    ensures r.0 == Marked ==> r.1 == MarkRead(rows, studentId.value, id)
  {
    if !Present(studentId) then (MarkUnauthorized, rows)
    else if fails then (MarkFailed, rows)
    else (Marked, MarkRead(rows, studentId.value, id))
  }

  /** Marking twice is marking once. */
  lemma MarkReadIdempotent(rows: seq<Notification>, studentId: Id, id: nat)
    ensures MarkRead(MarkRead(rows, studentId, id), studentId, id) == MarkRead(rows, studentId, id)
  {
  }

  /** After marking, the student's unread listing no longer shows that
      notification. */
  lemma MarkedLeavesUnreadListing(rows: seq<Notification>, studentId: Id, id: nat, all: Option<string>)
    requires !ShowAll(all)
    ensures forall n :: n in NewestListing(MarkRead(rows, studentId, id), studentId, all) ==> n.id != id
  {
    var marked := MarkRead(rows, studentId, id);
    forall n | n in NewestListing(marked, studentId, all) ensures n.id != id {
      ListingHoldsExactly(marked, studentId, all, n);
      var i :| 0 <= i < |marked| && marked[i] == n;
    }
  }

  /** Another student's listing is the same before and after marking. */
  lemma {:induction false} MarkReadLeavesOthers(rows: seq<Notification>, studentId: Id, id: nat, other: Id,
                                                all: Option<string>)
    requires other != studentId
    ensures Filter(MarkRead(rows, studentId, id), ListedFor(other, all)) == Filter(rows, ListedFor(other, all))
  {
    if rows != [] {
      MarkReadLeavesOthers(rows[1..], studentId, id, other, all);
      assert MarkRead(rows, studentId, id)[1..] == MarkRead(rows[1..], studentId, id);
    }
  }

  /** An id above every id in the table: the next value of the id sequence. */
  function FreshId(rows: seq<Notification>): (k: nat)
    ensures forall n :: n in rows ==> n.id < k
  {
    if rows == [] then 0
    else
      var rest := FreshId(rows[1..]);
      assert forall n :: n in rows ==> n == rows[0] || n in rows[1..];
      if rows[0].id + 1 > rest then rows[0].id + 1 else rest
  }

  /** The stored notifications. */
  class NotificationTable {
    var rows: seq<Notification>

    constructor (initial: seq<Notification>)
      ensures rows == initial
    {
      rows := initial;
    }

    /** markAsRead against the table. */
    method MarkAsRead(studentId: Option<Id>, id: nat, fails: bool) returns (r: MarkOutcome)
      modifies this
      ensures (r, rows) == MarkAsReadSpec(old(rows), studentId, id, fails)
    {
      if !Present(studentId) {
        return MarkUnauthorized;
      }
      if fails {
        return MarkFailed;
      }
      rows := MarkRead(rows, studentId.value, id);
      r := Marked;
    }

    /** An insert of `{ student, message, is_read: false }`; the store sets
        the id and `created_at` to `now`. */
    method Insert(student: Id, message: string, now: int) returns (n: Notification)
      modifies this
      ensures n == Notification(FreshId(old(rows)), student, message, false, now)
      ensures rows == old(rows) + [n]
    {
      n := Notification(FreshId(rows), student, message, false, now);
      rows := rows + [n];
    }
  }
}
