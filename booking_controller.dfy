/** The booking request handlers (backend/controllers/bookingController.js).
    The handlers call `Booking.findByFilters`, `Booking.checkConflict(booking)`,
    `Booking.create` and `Booking.cancel(id)`, which the booking model does not
    export under those names or shapes; the model reads them as: checkConflict
    on the request's resource, date and times; createBooking on the request;
    cancelBooking on the id and the acting user; and an abstract `find`
    function for findByFilters. A storage call that throws is a parameter. */
module BookingController {

  import opened Common
  import opened BookingModel

  /** What a handler does: write a reply, or pass the thrown error to `next`
      without writing anything. */
  datatype Outcome<+T> = Respond(reply: Reply<T>) | PassToNext

  /** Which storage call throws during createBooking, if any. */
  datatype Fault = NoFault | FailsAtCheck | FailsAtInsert

  /** The query string of `GET /bookings`: `date`, `resource_id` and anything else. */
  datatype BookingQuery = BookingQuery(date: Option<string>, resourceId: Option<string>, others: map<string, string>)

  /** The object handed to findByFilters. */
  datatype Filters = Filters(date: Option<string>, resourceId: Option<string>)

  /** getBookings forwards exactly `date` and `resource_id`. */
  function ForwardedFilters(q: BookingQuery): (f: Filters)
    ensures f.date == q.date && f.resourceId == q.resourceId
  {
    Filters(q.date, q.resourceId)
  }

  /** getBookings: the rows findByFilters returns as JSON, or `next` when it throws
      (`find` answering None). */
  function GetBookings(q: BookingQuery, find: Filters -> Option<seq<Booking>>): (out: Outcome<seq<Booking>>)
    ensures find(Filters(q.date, q.resourceId)).None? <==> out == PassToNext
    ensures find(Filters(q.date, q.resourceId)).Some? ==>
      out == Respond(Reply(200, "", Some(find(Filters(q.date, q.resourceId)).value)))
  {
    match find(ForwardedFilters(q))
    case None => PassToNext
    case Some(rows) => Respond(Reply(200, "", Some(rows)))
  }

  /** No query parameter other than `date` and `resource_id` changes the answer. */
  lemma GetBookingsIgnoresOtherParameters(q1: BookingQuery, q2: BookingQuery, find: Filters -> Option<seq<Booking>>)
    requires q1.date == q2.date && q1.resourceId == q2.resourceId
    ensures GetBookings(q1, find) == GetBookings(q2, find)
  {
  }

  /** createBooking: check, then insert. A conflict answers 409 and leaves the
      table alone; otherwise exactly one pending row is appended and 201 carries
      its id. A throwing storage call goes to `next` with nothing written.
      Run one request at a time, a successful create keeps NoOverlap. */
  method CreateBooking(t: BookingTable, req: BookingRequest, createdAt: int, fault: Fault)
    returns (out: Outcome<nat>)
    requires t.Valid()
    modifies t
    ensures t.Valid()
    ensures fault == FailsAtCheck ==> out == PassToNext && t.rows == old(t.rows) && t.nextId == old(t.nextId)
    ensures fault != FailsAtCheck && CheckConflict(old(t.rows), req.resourceId, req.date, req.start, req.end) ==>
      out == Respond(Reply(409, "Conflict detected", None)) && t.rows == old(t.rows) && t.nextId == old(t.nextId)
    ensures fault == FailsAtInsert && !CheckConflict(old(t.rows), req.resourceId, req.date, req.start, req.end) ==>
      out == PassToNext && t.rows == old(t.rows) && t.nextId == old(t.nextId)
    ensures fault == NoFault && !CheckConflict(old(t.rows), req.resourceId, req.date, req.start, req.end) ==>
      && out == Respond(Reply(201, "", Some(old(t.nextId))))
      && t.rows == old(t.rows) + [Booking(old(t.nextId), req.resourceId, req.userId, req.date, req.start, req.end, Pending, createdAt)]
    ensures NoOverlap(old(t.rows)) ==> NoOverlap(t.rows)
  {
    if fault == FailsAtCheck {
      return PassToNext;
    }
    var conflict := CheckConflict(t.rows, req.resourceId, req.date, req.start, req.end);
    if conflict {
      return Respond(Reply(409, "Conflict detected", None));
    }
    if fault == FailsAtInsert {
      return PassToNext;
    }
    ghost var before := t.rows;
    var id := t.CreateBooking(req, createdAt);
    assert t.rows == before + [t.rows[|before|]];
    assert NoOverlap(before) ==> NoOverlap(t.rows) by {
      if NoOverlap(before) {
        InsertPreservesNoOverlap(before, t.rows[|before|]);
      }
    }
    out := Respond(Reply(201, "", Some(id)));
  }

  /** cancelBooking: answers 204 whenever the cancel does not throw, whether or
      not a row was cancelled; a throw goes to `next`. */
  method CancelBooking(t: BookingTable, bookingId: nat, actingUser: int, fails: bool)
    returns (out: Outcome<nat>)
    requires t.Valid()
    modifies t
    ensures t.Valid() && t.nextId == old(t.nextId)
    ensures fails ==> out == PassToNext && t.rows == old(t.rows)
    ensures !fails ==> out == Respond(Reply(204, "", None))
    ensures !fails ==> t.rows == WithStatus(old(t.rows), OwnedRow(bookingId, actingUser), Cancelled)
  {
    if fails {
      return PassToNext;
    }
    var _ := t.CancelBooking(bookingId, actingUser);
    out := Respond(Reply(204, "", None));
  }

  /** Sequential requests: bookings created one after another by CreateBooking
      never overlap, starting from an empty table. */
  method CreateAll(reqs: seq<BookingRequest>, now: int) returns (t: BookingTable)
    ensures fresh(t) && t.Valid() && NoOverlap(t.rows)
    ensures |t.rows| <= |reqs|
  {
    t := new BookingTable();
    for k := 0 to |reqs|
      invariant t.Valid() && NoOverlap(t.rows) && |t.rows| <= k
    {
      var _ := CreateBooking(t, reqs[k], now, NoFault);
    }
  }
}
