/** The Postgres admin router (backend/routes/adminRoute.js). Its stats,
    pending list and utilisation queries select what the MySQL router's do
    (AdminRoutes); what differs is modelled here: `UPDATE ... RETURNING`,
    the interval text and the fixed display range, and the role update
    through `userType`. */
module AdminRoutePg {

  import opened Common
  import opened Seqs
  import opened Text
  import opened BookingModel
  import opened AuthController
  import opened AdminRoutes

  /** The rows `UPDATE bookings SET status = ... WHERE booking_id = $1
      RETURNING *` returns first: the updated row with that id. */
  function Returned(rows: seq<Booking>, id: nat): (r: Option<Booking>)
    ensures r.None? <==> forall i :: 0 <= i < |rows| ==> rows[i].id != id
    ensures r.Some? ==> r.value in rows && r.value.id == id
  {
    FirstWith(rows, (row: Booking) => row.id, id)
  }

  /** Approve and reject: the status is set by id whatever it was; 404 when
      nothing is returned, otherwise 200 with the updated row itself. */
  method DecidePg(t: BookingTable, id: nat, verdict: Verdict) returns (reply: Reply<Booking>)
    requires t.Valid()
    modifies t
    ensures t.Valid() && t.nextId == old(t.nextId)
    ensures t.rows == WithStatus(old(t.rows), BookingId(id), VerdictStatus(verdict))
    ensures !AnyRow(old(t.rows), BookingId(id)) <==> reply == Reply(404, "Booking not found", None)
    ensures reply.status == 404 ==> t.rows == old(t.rows)
    ensures reply.status != 404 ==>
      && reply.status == 200 && reply.message == VerdictMessage(verdict)
      && reply.data.Some? && reply.data.value in t.rows
      && reply.data.value.id == id && reply.data.value.status == VerdictStatus(verdict)
  {
    var matched := t.UpdateStatus(BookingId(id), VerdictStatus(verdict));
    var row := Returned(t.rows, id);
    if row.None? {
      assert forall i :: 0 <= i < |old(t.rows)| ==> t.rows[i].id == old(t.rows)[i].id != id;
      assert !AnyRow(old(t.rows), BookingId(id));
      return Reply(404, "Booking not found", None);
    }
    var k :| 0 <= k < |t.rows| && t.rows[k] == row.value;
    assert BookingId(id)(old(t.rows)[k]);
    reply := Reply(200, VerdictMessage(verdict), row);
  }

  /** The interval text interpolated into the utilisation queries. */
  function IntervalText(period: Option<string>): (s: string)
    ensures s == "7 days" || s == "30 days" || s == "365 days"
  {
    if period == Some("year") then "365 days"
    else if period == Some("month") then "30 days"
    else "7 days"
  }

  /** The interval spans the same number of days as the MySQL router's
      period, for every `period` (absent included). */
  lemma IntervalIsPeriodDays(period: Option<string>)
    ensures IntervalText(period) == NatToString(PeriodDays(period)) + " days"
  {
    if period == Some("year") {
      YearDigits();
    } else if period == Some("month") {
      assert NatToString(30) == NatToString(3) + [DigitChar(0)];
    } else {
      assert NatToString(7) == "7";
    }
  }

  lemma YearDigits()
    ensures NatToString(365) == "365"
  {
    assert NatToString(36) == NatToString(3) + [DigitChar(6)];
    assert NatToString(365) == NatToString(36) + [DigitChar(5)];
  }

  /** The displayed `weekRange`: always the last 7 days, whatever the period. */
  function WeekRangePg(today: int, period: Option<string>): (r: (int, int))
    ensures r == (today - 7, today)
  {
    (today - 7, today)
  }

  /** For a month or a year, the displayed range is shorter than the counted
      period, where the MySQL router shows the counted period. */
  lemma WeekRangeIgnoresPeriod(today: int, period: Option<string>)
    ensures WeekRangePg(today, period).1 - WeekRangePg(today, period).0 == 7
    ensures (period == Some("month") || period == Some("year")) ==>
      WeekRangePg(today, period) != WeekRange(today, period)
      && WeekRangePg(today, period).0 > today - PeriodDays(period)
  {
  }

  /** The columns `RETURNING user_id, email, first_name, last_name,
      user_type` gives back. The model's user row keeps one name, which
      stands for the first and last names together. */
  datatype TypeView = TypeView(userId: nat, email: string, name: string, userType: string)

  function TypeViewOf(u: User): TypeView {
    TypeView(u.id, u.email, u.fullName, u.role)
  }

  /** The returned columns carry neither the password hash nor the student
      id: changing those leaves the view unchanged, and the view keeps the
      id, email, name and type. */
  lemma TypeViewHidesSecrets(u: User, w: User)
    ensures TypeViewOf(u).userId == u.id && TypeViewOf(u).email == u.email
         && TypeViewOf(u).name == u.fullName && TypeViewOf(u).userType == u.role
    ensures TypeViewOf(u) == TypeViewOf(u.(password := w.password, studentId := w.studentId))
  {
  }

  /** `PUT /users/:id/role` with `userType`: 400 "Invalid user type" outside
      the three roles, 404 when nothing is returned, otherwise that user's
      role alone changes and 200 carries the returned columns. */
  method UpdateUserTypePg(t: UserTable, id: nat, userType: string) returns (reply: Reply<TypeView>)
    requires t.Valid()
    modifies t
    ensures t.Valid() && t.nextId == old(t.nextId) && |t.rows| == |old(t.rows)|
    ensures reply.status != 200 ==> t.rows == old(t.rows)
    ensures !ValidRole(userType) ==> reply == Reply(400, "Invalid user type", None)
    ensures ValidRole(userType) && FindById(old(t.rows), id).None? ==> reply == Reply(404, "User not found", None)
    ensures ValidRole(userType) && FindById(old(t.rows), id).Some? ==>
      && reply.status == 200 && reply.message == "User role updated"
      && reply.data == Some(TypeViewOf(FindById(old(t.rows), id).value.(role := userType)))
      && forall i :: 0 <= i < |t.rows| ==>
           t.rows[i] == if old(t.rows)[i].id == id then old(t.rows)[i].(role := userType) else old(t.rows)[i]
  {
    if !ValidRole(userType) {
      return Reply(400, "Invalid user type", None);
    }
    ghost var before := t.rows;
    var matched := t.UpdateById(id, SetRole(userType));
    if !matched {
      return Reply(404, "User not found", None);
    }
    ghost var u := FindById(before, id).value;
    ghost var j :| 0 <= j < |before| && before[j] == u;
    FindByIdDistinct(t.rows, j);
    var updated := FindById(t.rows, id);
    reply := Reply(200, "User role updated", Some(TypeViewOf(updated.value)));
  }
}
