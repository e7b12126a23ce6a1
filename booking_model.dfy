/** The `bookings` table and the queries over it (backend/models/bookingModel.js).
    Dates are day numbers and times minutes since midnight, so the SQL `DATE`
    and `TIME` comparisons are integer comparisons. */
module BookingModel {

  import opened Common
  import opened Seqs

  datatype Status = Pending | Approved | Rejected | Cancelled

  /** The text stored in the `status` column. */
  function StatusName(s: Status): (r: string)
    ensures s == Pending <==> r == "pending"
    ensures s == Approved <==> r == "approved"
    ensures s == Rejected <==> r == "rejected"
    ensures s == Cancelled <==> r == "cancelled"
  {
    match s
    case Pending => "pending"
    case Approved => "approved"
    case Rejected => "rejected"
    case Cancelled => "cancelled"
  }

  /** One row of `bookings`. */
  datatype Booking = Booking(
    id: nat,
    resourceId: int,
    userId: int,
    date: int,
    start: int,
    end: int,
    status: Status,
    createdAt: int)

  /** The fields createBooking reads from its argument; `title` is read and then dropped. */
  datatype BookingRequest = BookingRequest(
    resourceId: int,
    userId: int,
    date: int,
    start: int,
    end: int,
    title: Option<string>)

  /** The half-open intervals [b.start, b.end) and [start, end) share a minute. */
  predicate Overlaps(b: Booking, start: int, end: int) {
    b.start < end && start < b.end
  }

  /** The `WHERE` clause of checkConflict for one row: same resource and date,
      not cancelled, and one of three interval tests. */
  predicate ConflictsWith(b: Booking, resourceId: int, date: int, start: int, end: int) {
    && b.resourceId == resourceId
    && b.date == date
    && b.status != Cancelled
    && ((b.start < end && b.end > start)
        || (b.start >= start && b.start < end)
        || (b.end > start && b.end <= end))
  }

  /** checkConflict: whether the query returns at least one row. */
  function CheckConflict(rows: seq<Booking>, resourceId: int, date: int, start: int, end: int): (r: bool)
    ensures r <==> exists i :: 0 <= i < |rows| && ConflictsWith(rows[i], resourceId, date, start, end)
  {
    if rows == [] then false
    else
      ConflictsWith(rows[0], resourceId, date, start, end)
      || (assert forall i :: 1 <= i < |rows| ==> rows[1..][i - 1] == rows[i];
          CheckConflict(rows[1..], resourceId, date, start, end))
  }

  /** For an existing row with start < end, the three-way test is exactly
      half-open overlap. */
  lemma ConflictIsHalfOpenOverlap(b: Booking, start: int, end: int)
    requires b.start < b.end
    ensures ConflictsWith(b, b.resourceId, b.date, start, end)
        <==> b.status != Cancelled && Overlaps(b, start, end)
  {
  }

  /** Whatever the rows' times, half-open overlap always makes the test fire. */
  lemma OverlapImpliesConflict(b: Booking, start: int, end: int)
    ensures b.status != Cancelled && Overlaps(b, start, end) ==> ConflictsWith(b, b.resourceId, b.date, start, end)
  {
  }

  /** Touching intervals do not conflict, on either side. */
  lemma TouchingDoesNotConflict(b: Booking, start: int, end: int)
    requires b.start < b.end
    requires b.end == start || b.start == end
    ensures !ConflictsWith(b, b.resourceId, b.date, start, end)
  {
  }

  /** Only the resource, the date and the `cancelled` status exclude a row:
      pending, approved and rejected rows all block. */
  lemma WhatBlocks(b: Booking, resourceId: int, date: int, start: int, end: int)
    requires b.start < b.end && Overlaps(b, start, end)
    ensures ConflictsWith(b, resourceId, date, start, end)
        <==> b.resourceId == resourceId && b.date == date && b.status in {Pending, Approved, Rejected}
  {
  }

  /** Two rows that both hold their slot (anything but cancelled) on the same
      resource and date. */
  predicate Competing(a: Booking, b: Booking) {
    a.resourceId == b.resourceId && a.date == b.date && a.status != Cancelled && b.status != Cancelled
  }

  /** The ledger's safety property: competing rows have disjoint intervals. */
  ghost predicate NoOverlap(rows: seq<Booking>) {
    forall i, j :: 0 <= i < |rows| && 0 <= j < |rows| && i != j && Competing(rows[i], rows[j])
      ==> !Overlaps(rows[i], rows[j].start, rows[j].end)
  }

  /** The rows that `UPDATE bookings SET status = st WHERE sel` leaves. */
  function WithStatus(rows: seq<Booking>, sel: Booking -> bool, st: Status): seq<Booking> {
    seq(|rows|, i requires 0 <= i < |rows| => if sel(rows[i]) then rows[i].(status := st) else rows[i])
  }

  /** An update that touches nothing leaves the table as it was. */
  lemma {:induction false} WithStatusNoMatch(rows: seq<Booking>, sel: Booking -> bool, st: Status)
    requires forall i :: 0 <= i < |rows| ==> !sel(rows[i])
    ensures WithStatus(rows, sel, st) == rows
  {
  }

  /** Cancelling rows never breaks NoOverlap: it only frees slots. */
  lemma CancelPreservesNoOverlap(rows: seq<Booking>, sel: Booking -> bool)
    requires NoOverlap(rows)
    ensures NoOverlap(WithStatus(rows, sel, Cancelled))
  {
    var r := WithStatus(rows, sel, Cancelled);
    forall i, j | 0 <= i < |r| && 0 <= j < |r| && i != j && Competing(r[i], r[j])
      ensures !Overlaps(r[i], r[j].start, r[j].end)
    {
      assert Competing(rows[i], rows[j]);
    }
  }

  /** Moving a row between two statuses that both hold the slot keeps NoOverlap. */
  lemma RestatusPreservesNoOverlap(rows: seq<Booking>, sel: Booking -> bool, st: Status)
    requires NoOverlap(rows) && st != Cancelled
    requires forall i :: 0 <= i < |rows| && sel(rows[i]) ==> rows[i].status != Cancelled
    ensures NoOverlap(WithStatus(rows, sel, st))
  {
    var r := WithStatus(rows, sel, st);
    forall i, j | 0 <= i < |r| && 0 <= j < |r| && i != j && Competing(r[i], r[j])
      ensures !Overlaps(r[i], r[j].start, r[j].end)
    {
      assert Competing(rows[i], rows[j]);
    }
  }

  /** A row that passed checkConflict can be appended without breaking NoOverlap. */
  lemma {:induction false} InsertPreservesNoOverlap(rows: seq<Booking>, b: Booking)
    requires NoOverlap(rows)
    requires !CheckConflict(rows, b.resourceId, b.date, b.start, b.end)
    ensures NoOverlap(rows + [b])
  {
    var r := rows + [b];
    forall i, j | 0 <= i < |r| && 0 <= j < |r| && i != j && Competing(r[i], r[j])
      ensures !Overlaps(r[i], r[j].start, r[j].end)
    {
      if i == |rows| {
        assert !ConflictsWith(rows[j], b.resourceId, b.date, b.start, b.end);
        OverlapImpliesConflict(r[j], b.start, b.end);
      } else if j == |rows| {
        assert !ConflictsWith(rows[i], b.resourceId, b.date, b.start, b.end);
        OverlapImpliesConflict(r[i], b.start, b.end);
      } else {
        assert Competing(rows[i], rows[j]);
      }
    }
  }

  /** The `ORDER BY booking_date DESC, start_time DESC` relation. */
  predicate NewerFirst(a: Booking, b: Booking) {
    a.date > b.date || (a.date == b.date && a.start >= b.start)
  }

  lemma NewerFirstIsTotalPreorder()
    ensures Total(NewerFirst) && Transitive(NewerFirst)
  {
  }

  /** The rows the inner joins keep: the booking's user and resource exist. */
  predicate Joined(b: Booking, userIds: set<int>, resourceIds: set<int>) {
    b.userId in userIds && b.resourceId in resourceIds
  }

  function UserSelector(userId: int, resourceIds: set<int>): Booking -> bool {
    (b: Booking) => b.userId == userId && b.resourceId in resourceIds
  }

  function ResourceSelector(resourceId: int, userIds: set<int>): Booking -> bool {
    (b: Booking) => b.resourceId == resourceId && b.userId in userIds
  }

  /** getBookingsByUser: that user's rows (joined with `resources`), newest first.
      Ties in the ordering keep table order, one of the orders SQL allows. */
  function BookingsByUser(rows: seq<Booking>, userId: int, resourceIds: set<int>): (r: seq<Booking>)
    ensures multiset(r) == multiset(Filter(rows, UserSelector(userId, resourceIds)))
    ensures forall b :: b in r <==> b in rows && b.userId == userId && b.resourceId in resourceIds
    ensures Sorted(r, NewerFirst)
  {
    var picked := Filter(rows, UserSelector(userId, resourceIds));
    assert forall b :: UserSelector(userId, resourceIds)(b) <==> b.userId == userId && b.resourceId in resourceIds;
    NewerFirstIsTotalPreorder();
    SortBySorted(picked, NewerFirst);
    var r := SortBy(picked, NewerFirst);
    assert forall b :: b in r <==> b in multiset(r);
    r
  }

  /** getBookingsByResource: that resource's rows (joined with `users`), newest first. */
  function BookingsByResource(rows: seq<Booking>, resourceId: int, userIds: set<int>): (r: seq<Booking>)
    ensures multiset(r) == multiset(Filter(rows, ResourceSelector(resourceId, userIds)))
    ensures forall b :: b in r <==> b in rows && b.resourceId == resourceId && b.userId in userIds
    ensures Sorted(r, NewerFirst)
  {
    var picked := Filter(rows, ResourceSelector(resourceId, userIds));
    assert forall b :: ResourceSelector(resourceId, userIds)(b) <==> b.resourceId == resourceId && b.userId in userIds;
    NewerFirstIsTotalPreorder();
    SortBySorted(picked, NewerFirst);
    var r := SortBy(picked, NewerFirst);
    assert forall b :: b in r <==> b in multiset(r);
    r
  }

  /** Under referential integrity the join drops nothing: every row of that user comes back. */
  lemma ByUserIsComplete(rows: seq<Booking>, userId: int, resourceIds: set<int>)
    requires forall i :: 0 <= i < |rows| ==> rows[i].resourceId in resourceIds
    ensures |BookingsByUser(rows, userId, resourceIds)| == |Filter(rows, (b: Booking) => b.userId == userId)|
  {
    FilterCongruent(rows, UserSelector(userId, resourceIds), (b: Booking) => b.userId == userId);
  }

  /** The rows cancelBooking's `WHERE booking_id = ? AND user_id = ?` selects. */
  function OwnedRow(bookingId: nat, userId: int): Booking -> bool {
    (b: Booking) => b.id == bookingId && b.userId == userId
  }

  /** Some row matches `sel`. */
  predicate AnyRow(rows: seq<Booking>, sel: Booking -> bool) {
    exists i | 0 <= i < |rows| :: sel(rows[i])
  }

  /** The in-memory `bookings` table: rows in insertion order and the next
      AUTO_INCREMENT value. */
  class BookingTable {
    var rows: seq<Booking>
    var nextId: nat

    ghost predicate Valid()
      reads this
    {
      && (forall i :: 0 <= i < |rows| ==> rows[i].id < nextId)
      && (forall i, j :: 0 <= i < j < |rows| ==> rows[i].id != rows[j].id)
    }

    constructor ()
      ensures Valid() && rows == [] && nextId == 1
    {
      rows := [];
      nextId := 1;
    }

    /** createBooking: one new `pending` row with a fresh id; `title` is not stored. */
    method CreateBooking(req: BookingRequest, createdAt: int) returns (id: nat)
      requires Valid()
      modifies this
      ensures Valid()
      ensures id == old(nextId) && nextId == id + 1
      ensures forall i :: 0 <= i < |old(rows)| ==> old(rows)[i].id != id
      ensures rows == old(rows) + [Booking(id, req.resourceId, req.userId, req.date, req.start, req.end, Pending, createdAt)]
    {
      id := nextId;
      rows := rows + [Booking(id, req.resourceId, req.userId, req.date, req.start, req.end, Pending, createdAt)];
      nextId := nextId + 1;
    }

    /** `UPDATE bookings SET status = st WHERE sel`; reports whether a row matched. */
    method UpdateStatus(sel: Booking -> bool, st: Status) returns (matched: bool)
      requires Valid()
      modifies this
      ensures Valid() && nextId == old(nextId)
      ensures matched == AnyRow(old(rows), sel)
      ensures rows == WithStatus(old(rows), sel, st)
      ensures !matched ==> rows == old(rows)
    {
      matched := AnyRow(rows, sel);
      if !matched {
        WithStatusNoMatch(rows, sel, st);
      }
      rows := WithStatus(rows, sel, st);
    }

    /** cancelBooking: cancels the row with that id only if `userId` owns it. */
    method CancelBooking(bookingId: nat, userId: int) returns (cancelled: bool)
      requires Valid()
      modifies this
      ensures Valid() && nextId == old(nextId)
      ensures cancelled <==> exists i :: 0 <= i < |old(rows)| && old(rows)[i].id == bookingId && old(rows)[i].userId == userId
      ensures |rows| == |old(rows)|
      ensures forall i :: 0 <= i < |rows| ==>
        rows[i] == if old(rows)[i].id == bookingId && old(rows)[i].userId == userId
                   then old(rows)[i].(status := Cancelled) else old(rows)[i]
      ensures rows == WithStatus(old(rows), OwnedRow(bookingId, userId), Cancelled)
      ensures !cancelled ==> rows == old(rows)
      ensures NoOverlap(old(rows)) ==> NoOverlap(rows)
    {
      var sel := OwnedRow(bookingId, userId);
      ghost var before := rows;
      cancelled := UpdateStatus(sel, Cancelled);
      assert NoOverlap(before) ==> NoOverlap(rows) by {
        if NoOverlap(before) {
          CancelPreservesNoOverlap(before, sel);
        }
      }
    }
  }
}
