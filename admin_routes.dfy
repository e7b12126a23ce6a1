/** The MySQL admin router (backend/routes/adminRoutes.js). Every handler
    first passes the requireAdmin gate; `CURDATE()` and `CURTIME()` are the
    parameters `today` (a day number) and `now` (minutes since midnight). */
module AdminRoutes {

  import opened Common
  import opened Seqs
  import opened BookingModel
  import opened AuthController
  import opened ResourceModel

  // ---------------------------------------------------------------- gate

  /** What requireAdmin decides: pass to the handler, or answer. */
  datatype Gate = Pass | Deny(status: nat, message: string)

  /** requireAdmin: 401 without a session user, 403 unless its `role` is
      exactly "admin", otherwise the request reaches the handler. */
  function RequireAdmin(session: Option<SessionUser>): (g: Gate)
    ensures g.Pass? <==> session.Some? && session.value.role == Some("admin")
    ensures session.None? ==> g == Deny(401, "Not authenticated")
    ensures session.Some? && !g.Pass? ==> g == Deny(403, "Admin access required")
  {
    if session.None? then Deny(401, "Not authenticated")
    else if session.value.role != Some("admin") then Deny(403, "Admin access required")
    else Pass
  }

  /** The reply a denying gate writes. */
  function Denied<T>(g: Gate): Reply<T>
    requires g.Deny?
  {
    Reply(g.status, g.message, None)
  }

  /** Every session loginUser stores is turned away by requireAdmin with 403:
      the record it writes has no `role`. */
  lemma LoginSessionNeverAdmin(rows: seq<User>, session: Option<SessionUser>, email: string, password: string,
                               compare: (string, string) -> bool)
    requires LoginUser(rows, session, email, password, compare).reply.status == 200
    ensures RequireAdmin(LoginUser(rows, session, email, password, compare).session) == Deny(403, "Admin access required")
  {
  }

  /** With the row's role copied into the session record, the gate admits
      exactly the admins and still answers 403 to everyone else. */
  lemma RoleSessionGate(u: User)
    ensures RequireAdmin(Some(SessionRecordWithRole(u))).Pass? <==> u.role == "admin"
    ensures u.role != "admin" ==> RequireAdmin(Some(SessionRecordWithRole(u))) == Deny(403, "Admin access required")
  {
  }

  // ------------------------------------------------------ approve / reject

  /** The two decisions an admin can take on a booking. */
  datatype Verdict = Approve | Reject

  function VerdictStatus(v: Verdict): (s: Status)
    ensures s == Approved || s == Rejected
    ensures s == Approved <==> v == Approve
  {
    match v
    case Approve => Approved
    case Reject => Rejected
  }

  function VerdictMessage(v: Verdict): string {
    match v
    case Approve => "Booking approved successfully"
    case Reject => "Booking rejected successfully"
  }

  /** `WHERE booking_id = ?`. */
  function BookingId(id: nat): Booking -> bool {
    (b: Booking) => b.id == id
  }

  /** The row `SELECT b.*, ... JOIN resources JOIN users WHERE b.booking_id = ?`
      returns first: the row with that id, if its user and resource exist. */
  function FindJoined(rows: seq<Booking>, id: nat, userIds: set<int>, resourceIds: set<int>): (r: Option<Booking>)
    ensures r.None? <==> forall i :: 0 <= i < |rows| && rows[i].id == id ==> !Joined(rows[i], userIds, resourceIds)
    ensures r.Some? ==> r.value in rows && r.value.id == id && Joined(r.value, userIds, resourceIds)
  {
    if rows == [] then None
    else if rows[0].id == id && Joined(rows[0], userIds, resourceIds) then Some(rows[0])
    else
      assert forall i :: 1 <= i < |rows| ==> rows[1..][i - 1] == rows[i];
      FindJoined(rows[1..], id, userIds, resourceIds)
  }

  /** `PUT /bookings/:id/approve` and `/reject`: the status is set by id
      whatever it was before; 404 when no row has that id, otherwise 200 with
      the joined row (None once its user or resource is gone). */
  method Decide(t: BookingTable, session: Option<SessionUser>, id: nat, verdict: Verdict,
                userIds: set<int>, resourceIds: set<int>) returns (reply: Reply<Booking>)
    requires t.Valid()
    modifies t
    ensures t.Valid() && t.nextId == old(t.nextId)
    ensures RequireAdmin(session).Deny? ==> reply == Denied(RequireAdmin(session)) && t.rows == old(t.rows)
    ensures RequireAdmin(session).Pass? ==> t.rows == WithStatus(old(t.rows), BookingId(id), VerdictStatus(verdict))
    ensures RequireAdmin(session).Pass? && !AnyRow(old(t.rows), BookingId(id)) ==>
      reply == Reply(404, "Booking not found", None) && t.rows == old(t.rows)
    ensures RequireAdmin(session).Pass? && AnyRow(old(t.rows), BookingId(id)) ==>
      && reply.status == 200 && reply.message == VerdictMessage(verdict)
      && reply.data == FindJoined(t.rows, id, userIds, resourceIds)
      && (reply.data.Some? ==> reply.data.value.status == VerdictStatus(verdict))
  {
    var gate := RequireAdmin(session);
    if gate.Deny? {
      return Denied(gate);
    }
    var matched := t.UpdateStatus(BookingId(id), VerdictStatus(verdict));
    if !matched {
      return Reply(404, "Booking not found", None);
    }
    var row := FindJoined(t.rows, id, userIds, resourceIds);
    if row.Some? {
      var k :| 0 <= k < |t.rows| && t.rows[k] == row.value;
      assert BookingId(id)(old(t.rows)[k]);
    }
    reply := Reply(200, VerdictMessage(verdict), row);
  }

  /** Deciding on a row that is not cancelled keeps the ledger free of overlaps. */
  lemma DecideLiveRowPreservesNoOverlap(rows: seq<Booking>, id: nat, verdict: Verdict)
    requires NoOverlap(rows)
    requires forall i :: 0 <= i < |rows| && rows[i].id == id ==> rows[i].status != Cancelled
    ensures NoOverlap(WithStatus(rows, BookingId(id), VerdictStatus(verdict)))
  {
    RestatusPreservesNoOverlap(rows, BookingId(id), VerdictStatus(verdict));
  }

  /** A cancelled booking frees its slot, a second booking takes it, and
      approving the cancelled one revives it on top of the second. */
  lemma ApproveCancelledBreaksNoOverlap()
    ensures var a := Booking(1, 7, 1, 100, 600, 660, Pending, 0);
      var b := Booking(2, 7, 2, 100, 600, 660, Pending, 1);
      var cancelled := WithStatus([a], OwnedRow(1, 1), Cancelled);
      && !CheckConflict(cancelled, 7, 100, 600, 660)
      && NoOverlap(cancelled + [b])
      && !NoOverlap(WithStatus(cancelled + [b], BookingId(1), VerdictStatus(Approve)))
  {
    var a := Booking(1, 7, 1, 100, 600, 660, Pending, 0);
    var b := Booking(2, 7, 2, 100, 600, 660, Pending, 1);
    var cancelled := WithStatus([a], OwnedRow(1, 1), Cancelled);
    assert cancelled == [a.(status := Cancelled)];
    var after := WithStatus(cancelled + [b], BookingId(1), Approved);
    assert after[0] == a.(status := Approved) && after[1] == b;
    assert Competing(after[0], after[1]) && Overlaps(after[0], after[1].start, after[1].end);
  }

  /** `WHERE booking_id = ? AND status = 'pending'`. */
  function PendingWithId(id: nat): Booking -> bool {
    (b: Booking) => b.id == id && b.status == Pending
  }

  /** Approve and reject restricted to pending rows: 404 unless a pending row
      has that id; the ledger stays free of overlaps. */
  method DecidePending(t: BookingTable, session: Option<SessionUser>, id: nat, verdict: Verdict,
                       userIds: set<int>, resourceIds: set<int>) returns (reply: Reply<Booking>)
    requires t.Valid()
    modifies t
    ensures t.Valid() && t.nextId == old(t.nextId)
    ensures NoOverlap(old(t.rows)) ==> NoOverlap(t.rows)
    ensures RequireAdmin(session).Deny? ==> reply == Denied(RequireAdmin(session)) && t.rows == old(t.rows)
    ensures RequireAdmin(session).Pass? ==> t.rows == WithStatus(old(t.rows), PendingWithId(id), VerdictStatus(verdict))
    ensures RequireAdmin(session).Pass? && !AnyRow(old(t.rows), PendingWithId(id)) ==>
      reply == Reply(404, "Booking not found", None) && t.rows == old(t.rows)
    ensures RequireAdmin(session).Pass? && AnyRow(old(t.rows), PendingWithId(id)) ==>
      reply.status == 200 && reply.message == VerdictMessage(verdict)
      && reply.data == FindJoined(t.rows, id, userIds, resourceIds)
  {
    var gate := RequireAdmin(session);
    if gate.Deny? {
      return Denied(gate);
    }
    ghost var before := t.rows;
    var matched := t.UpdateStatus(PendingWithId(id), VerdictStatus(verdict));
    assert NoOverlap(before) ==> NoOverlap(t.rows) by {
      if NoOverlap(before) {
        RestatusPreservesNoOverlap(before, PendingWithId(id), VerdictStatus(verdict));
      }
    }
    if !matched {
      return Reply(404, "Booking not found", None);
    }
    reply := Reply(200, VerdictMessage(verdict), FindJoined(t.rows, id, userIds, resourceIds));
  }

  // ------------------------------------------------------- pending list

  /** `ORDER BY b.created_at ASC`. */
  predicate CreatedFirst(a: Booking, b: Booking) {
    a.createdAt <= b.createdAt
  }

  lemma CreatedFirstIsTotalPreorder()
    ensures Total(CreatedFirst) && Transitive(CreatedFirst)
  {
  }

  function PendingSelector(userIds: set<int>, resourceIds: set<int>): Booking -> bool {
    (b: Booking) => b.status == Pending && Joined(b, userIds, resourceIds)
  }

  /** `GET /pending-bookings`: exactly the joined pending rows, oldest first. */
  function PendingBookings(rows: seq<Booking>, userIds: set<int>, resourceIds: set<int>): (r: seq<Booking>)
    ensures multiset(r) == multiset(Filter(rows, PendingSelector(userIds, resourceIds)))
    ensures forall b :: b in r <==> b in rows && b.status == Pending && Joined(b, userIds, resourceIds)
    ensures Sorted(r, CreatedFirst)
  {
    var picked := Filter(rows, PendingSelector(userIds, resourceIds));
    assert forall b :: PendingSelector(userIds, resourceIds)(b) <==> b.status == Pending && Joined(b, userIds, resourceIds);
    CreatedFirstIsTotalPreorder();
    SortBySorted(picked, CreatedFirst);
    var r := SortBy(picked, CreatedFirst);
    assert forall b :: b in r <==> b in multiset(r);
    r
  }

  // ------------------------------------------------------------- stats

  datatype Stats = Stats(totalResources: nat, activeBookings: nat, pendingBookings: nat, totalUsers: nat)

  /** An approved booking that has not ended yet. */
  predicate IsActive(b: Booking, today: int, now: int) {
    b.status == Approved && (b.date > today || (b.date == today && b.end > now))
  }

  function ActiveAt(today: int, now: int): Booking -> bool {
    (b: Booking) => IsActive(b, today, now)
  }

  function IsPending(): Booking -> bool {
    (b: Booking) => b.status == Pending
  }

  /** `GET /stats`: four `COUNT(*)`s. */
  function DashboardStats(resources: seq<Resource>, rows: seq<Booking>, users: seq<User>, today: int, now: int): (s: Stats)
    ensures s.totalResources == |resources| && s.totalUsers == |users|
    ensures s.activeBookings == |Filter(rows, ActiveAt(today, now))| <= |rows|
    ensures s.pendingBookings == |Filter(rows, IsPending())| <= |rows|
  {
    Stats(|resources|, |Filter(rows, ActiveAt(today, now))|, |Filter(rows, IsPending())|, |users|)
  }

  /** When every booking's user and resource exist, the pending count is the
      length of the pending list. */
  lemma PendingCountIsPendingList(resources: seq<Resource>, rows: seq<Booking>, users: seq<User>, today: int, now: int,
                                  userIds: set<int>, resourceIds: set<int>)
    requires forall i :: 0 <= i < |rows| ==> Joined(rows[i], userIds, resourceIds)
    ensures DashboardStats(resources, rows, users, today, now).pendingBookings == |PendingBookings(rows, userIds, resourceIds)|
  {
    FilterCongruent(rows, IsPending(), PendingSelector(userIds, resourceIds));
    var r := PendingBookings(rows, userIds, resourceIds);
    assert |multiset(r)| == |r|;
  }

  /** Later in the day, no more bookings are active. */
  lemma ActiveCountShrinks(rows: seq<Booking>, today: int, now: int, later: int)
    requires now <= later
    ensures |Filter(rows, ActiveAt(today, later))| <= |Filter(rows, ActiveAt(today, now))|
  {
    FilterMonotone(rows, ActiveAt(today, later), ActiveAt(today, now));
  }

  /** A booking active at some time today was also active at every time of
      every earlier day. */
  lemma ActiveTodayWasActiveBefore(b: Booking, today: int, now: int, day: int, time: int)
    requires day < today && IsActive(b, today, now)
    ensures IsActive(b, day, time)
  {
  }

  // ------------------------------------------------------- utilisation

  /** `period` defaults to 'week': 7 days, except 30 for 'month' and 365 for 'year'. */
  function PeriodDays(period: Option<string>): (d: nat)
    ensures d == 30 <==> period == Some("month")
    ensures d == 365 <==> period == Some("year")
    ensures d != 30 && d != 365 ==> d == 7
  {
    if period == Some("month") then 30
    else if period == Some("year") then 365
    else 7
  }

  /** `parseInt(total) || 1`: a zero count becomes 1. */
  function TotalOrOne(n: nat): (r: nat)
    ensures r >= 1
    ensures n > 0 ==> r == n
    ensures n == 0 ==> r == 1
  {
    if n == 0 then 1 else n
  }

  /** `Math.round(count / total * 100)` in exact arithmetic: the integer
      nearest to 100·count/total, halves rounding up. */
  function RoundPct(count: nat, total: nat): (p: nat)
    requires total >= 1
    ensures 2 * total * p <= 200 * count + total < 2 * total * (p + 1)
    ensures count <= total ==> p <= 100
  {
    var p := (200 * count + total) / (2 * total);
    assert count <= total ==> 200 * count + total < 2 * total * 101;
    p
  }

  /** An approved booking dated on or after `today - days`. */
  function InPeriod(today: int, days: nat): Booking -> bool {
    (b: Booking) => b.status == Approved && b.date >= today - days
  }

  /** The same, on one resource: the LEFT JOIN's ON clause. */
  function InPeriodFor(resourceId: int, today: int, days: nat): Booking -> bool {
    (b: Booking) => b.resourceId == resourceId && b.status == Approved && b.date >= today - days
  }

  /** One row of the utilisation report. */
  datatype UtilRow = UtilRow(resource: Resource, bookingCount: nat, percentage: nat)

  /** `ORDER BY booking_count DESC`. */
  predicate MoreBooked(a: UtilRow, b: UtilRow) {
    a.bookingCount >= b.bookingCount
  }

  lemma MoreBookedIsTotalPreorder()
    ensures Total(MoreBooked) && Transitive(MoreBooked)
  {
  }

  /** The report row of one resource. */
  function UtilOf(r: Resource, rows: seq<Booking>, today: int, days: nat): (u: UtilRow)
    ensures u.resource == r && u.bookingCount == |Filter(rows, InPeriodFor(r.id, today, days))|
    ensures u.percentage <= 100
  {
    var total := TotalOrOne(|Filter(rows, InPeriod(today, days))|);
    var count := |Filter(rows, InPeriodFor(r.id, today, days))|;
    FilterMonotone(rows, InPeriodFor(r.id, today, days), InPeriod(today, days));
    UtilRow(r, count, RoundPct(count, total))
  }

  /** The grouped rows before `ORDER BY`, one per resource in table order. */
  function UtilRows(resources: seq<Resource>, rows: seq<Booking>, today: int, days: nat): (r: seq<UtilRow>)
    ensures |r| == |resources| && forall i :: 0 <= i < |r| ==> r[i] == UtilOf(resources[i], rows, today, days)
  {
    seq(|resources|, i requires 0 <= i < |resources| => UtilOf(resources[i], rows, today, days))
  }

  /** `GET /utilization`'s `resources`: one row per resource, most booked
      first, every percentage between 0 and 100. */
  function Utilisation(resources: seq<Resource>, rows: seq<Booking>, today: int, period: Option<string>): (r: seq<UtilRow>)
    ensures multiset(r) == multiset(UtilRows(resources, rows, today, PeriodDays(period)))
    ensures |r| == |resources|
    ensures forall u :: u in r ==> u.percentage <= 100
    ensures Sorted(r, MoreBooked)
  {
    var unsorted := UtilRows(resources, rows, today, PeriodDays(period));
    MoreBookedIsTotalPreorder();
    SortBySorted(unsorted, MoreBooked);
    var r := SortBy(unsorted, MoreBooked);
    assert forall u :: u in r ==> u in multiset(unsorted);
    r
  }

  /** The `weekRange` shown with the report spans the selected period, as
      (first day, last day). */
  function WeekRange(today: int, period: Option<string>): (r: (int, int))
    ensures r.1 - r.0 == PeriodDays(period) && r.1 == today
  {
    (today - PeriodDays(period), today)
  }

  // ------------------------------------------------------- role update

  /** The roles the role update accepts. */
  predicate ValidRole(role: string) {
    role == "student" || role == "faculty" || role == "admin"
  }

  function SetRole(role: string): User -> User {
    (u: User) => u.(role := role)
  }

  /** The four columns the role update re-selects:
      `id as user_id, email, full_name, role`. No password and no student id. */
  datatype RoleView = RoleView(userId: nat, email: string, fullName: string, role: string)

  function RoleViewOf(u: User): RoleView {
    RoleView(u.id, u.email, u.fullName, u.role)
  }

  /** A user's role view is determined by, and reads back, the four selected
      columns: two users with the same id, email, name and role give the same
      view, whatever their passwords and student ids. */
  lemma RoleViewHidesSecrets(u: User, w: User)
    ensures RoleViewOf(u).userId == u.id && RoleViewOf(u).email == u.email
         && RoleViewOf(u).fullName == u.fullName && RoleViewOf(u).role == u.role
    ensures RoleViewOf(u) == RoleViewOf(w) <==>
      u.id == w.id && u.email == w.email && u.fullName == w.fullName && u.role == w.role
    ensures RoleViewOf(u) == RoleViewOf(u.(password := w.password, studentId := w.studentId))
  {
  }

  /** `PUT /users/:id/role`: 400 "Invalid role" for anything but the three
      roles, 404 for an unknown id, otherwise that user's role alone changes
      and 200 carries the re-selected columns of the updated row. Failures
      change nothing. */
  method UpdateUserRole(t: UserTable, session: Option<SessionUser>, id: nat, role: string) returns (reply: Reply<RoleView>)
    requires t.Valid()
    modifies t
    ensures t.Valid() && t.nextId == old(t.nextId) && |t.rows| == |old(t.rows)|
    ensures reply.status != 200 ==> t.rows == old(t.rows)
    ensures RequireAdmin(session).Deny? ==> reply == Denied(RequireAdmin(session))
    ensures RequireAdmin(session).Pass? && !ValidRole(role) ==> reply == Reply(400, "Invalid role", None)
    ensures RequireAdmin(session).Pass? && ValidRole(role) && FindById(old(t.rows), id).None? ==>
      reply == Reply(404, "User not found", None)
    ensures RequireAdmin(session).Pass? && ValidRole(role) && FindById(old(t.rows), id).Some? ==>
      && reply.status == 200 && reply.message == "User role updated"
      && reply.data == Some(RoleViewOf(FindById(old(t.rows), id).value.(role := role)))
      && forall i :: 0 <= i < |t.rows| ==>
           t.rows[i] == if old(t.rows)[i].id == id then old(t.rows)[i].(role := role) else old(t.rows)[i]
  {
    var gate := RequireAdmin(session);
    if gate.Deny? {
      return Denied(gate);
    }
    if !ValidRole(role) {
      return Reply(400, "Invalid role", None);
    }
    ghost var before := t.rows;
    var matched := t.UpdateById(id, SetRole(role));
    if !matched {
      return Reply(404, "User not found", None);
    }
    ghost var u := FindById(before, id).value;
    ghost var j :| 0 <= j < |before| && before[j] == u;
    FindByIdDistinct(t.rows, j);
    var updated := FindById(t.rows, id);
    reply := Reply(200, "User role updated", Some(RoleViewOf(updated.value)));
  }

  /** With distinct ids, the row found by id is the one at that position. */
  lemma FindByIdDistinct(rows: seq<User>, i: nat)
    requires i < |rows|
    requires forall a, b :: 0 <= a < b < |rows| ==> rows[a].id != rows[b].id
    ensures FindById(rows, rows[i].id) == Some(rows[i])
  {
    var r := FindById(rows, rows[i].id).value;
    var k :| 0 <= k < |rows| && rows[k] == r;
    assert rows[k].id == rows[i].id;
  }
}
