# Campus resource booking: a verified model

This project is a Dafny model of a campus resource-booking web application:
students and staff reserve rooms and equipment in time slots, administrators
approve or reject the requests and manage resources and users, and the
browser pages show an availability grid, an admin dashboard and an in-page
search. The model covers the booking ledger and its SQL queries, the
account and resource tables, both admin routers (the MySQL one and the
Postgres one), and the pure helpers of the three front-end scripts.

Each module follows one source file:

- `BookingModel` (booking_model.dfy), from backend/models/bookingModel.js. It
  holds the `bookings` table as a class with its rows and auto-increment
  counter. It defines the three-way conflict test, which ignores only
  cancelled rows, and the per-user and per-resource listings. It proves
  that sequential creation after a negative conflict check keeps
  "no two live bookings overlap".
- `BookingController` (booking_controller.dfy), from
  backend/controllers/bookingController.js. It models the check-then-insert
  handler (409 or 201), the filter forwarding and the owner-scoped cancel.
  The handler calls model functions under names and shapes the model does
  not export. They are mapped explicitly onto the model's operations, and a
  storage call that throws is a parameter.
- `AuthController` (auth_controller.dfy) and `UserController`
  (user_controller.dfy), from backend/controllers/authController.js and
  userController.js. They model the `users` table with unique emails,
  registration with its ordered checks, login and the session record it
  builds, the current-user read and the password change. bcrypt's `hash`
  and `compare` are function parameters.
- `ResourceModel` (resource_model.dfy), from backend/models/resourceModel.js.
  It models the `resources` table with the create-time defaults, update by
  id and delete by id. Each request field is `undefined`, `null` or a
  value, because the driver refuses an `undefined` bind value and stores
  `null` as NULL.
- `AdminRoutes` (admin_routes.dfy), from backend/routes/adminRoutes.js. It
  models the `requireAdmin` gate, approve and reject, the pending list, the
  dashboard counts, the utilisation figures, the period defaults and the
  role update. `CURDATE()` and `CURTIME()` are parameters.
- `AdminRoutePg` (admin_route_pg.dfy), from backend/routes/adminRoute.js. It
  models what the Postgres router does differently: `UPDATE ... RETURNING`,
  the interval text, the fixed seven-day display range and the role update
  through `userType`.
- `AllBookingsSql` and `AllBookingsQuery` (all_bookings_sql.dfy,
  all_bookings_query.dfy) model the all-bookings listing of both routers:
  - the step-by-step query builders, with `?` placeholders in one router
    and `$1..$n` in the other;
  - that the placeholders match the parameters;
  - which rows the assembled query selects, and in what order.
- `BookingPage` (booking_page.dfy), from frontend/js/booking.js. It models
  the twelve hourly slots, the 12-hour to 24-hour normalisation, matching a
  booking's slot text to a cell, grouping resources into table sections,
  the row a booking is drawn on (found among the page's name texts), the
  marks a booking puts on a cell, and the `YYYY-MM-DD` date string.
- `AdminPage` (admin_page.dfy), from frontend/js/admin.js. It models:
  - the status and category lookups;
  - `formatTime` and `formatAvailability`;
  - the availability entries built from the day checkboxes, and restored
    from them when a resource is edited;
  - the bar thresholds and widths, and the top-five table;
  - `capitalizeFirst` and the pending-count label.
- `Search` (search.dfy), from search.js. It models:
  - `escapeRegExp`;
  - the sentence split and the first ten matches;
  - the case-insensitive highlighting;
  - the three outcomes of a search and the HTML of the results box.
- `Common`, `Text` and `Seqs` hold shared pieces:
  - `Common`: an Option type and the reply datatype;
  - `Text`: the JavaScript string built-ins the model needs;
  - `Seqs`: filters, counts, a first-by-key lookup and a stable insertion sort, which stands for
    SQL `ORDER BY` and JavaScript's `sort`.

Throughout the model:

- Times are minutes since midnight and dates are day numbers. The clock is
  a parameter.
- A SQL join is an existence test: the sets of user ids and resource ids
  that exist are parameters.
- MySQL's `affectedRows` counts the rows an `UPDATE` matched, as the
  driver reports by default. Approving an already-approved row is
  therefore not a 404.
- How the database reads a bound text as a date or a number, and how its
  `=` compares two texts, are parameters (`AllBookingsQuery.Coercions`).
  The text comparison stands for the column's collation: MySQL's default
  one ignores letter case, Postgres compares exactly.
- Outside `ResourceModel`, a request field or string property that is
  absent reads as "". That is the only falsy value a string field has
  there. Those handlers test such a field before they bind it. The
  exception is a booking's `time_slot` on the booking page. It is an
  `Option`, because `renderBookings` calls `trim()` on it without checking it first and
  throws when it is absent (`BookingPage.Processed`).

## Model

| member | source | states |
|---|---|---|
| BookingModel.StatusName | backend/models/bookingModel.js:10 | each of the four statuses has its own column text, and only that status has it ('cancelled' among them) |
| BookingModel.CheckConflict | backend/models/bookingModel.js:4-28 | true exactly when some row meets the WHERE clause: same resource, same date, not cancelled, and one of the three time tests |
| BookingModel.ConflictIsHalfOpenOverlap | backend/models/bookingModel.js:11-17 | for a row with start < end, the three-way time test is exactly "not cancelled and the half-open intervals share a minute" |
| BookingModel.OverlapImpliesConflict | backend/models/bookingModel.js:11-17 | whatever the stored times, a live row whose interval overlaps the request always fires the test |
| BookingModel.TouchingDoesNotConflict | backend/models/bookingModel.js:11-17 | back-to-back bookings (one ends when the other starts, either side) never conflict |
| BookingModel.WhatBlocks | backend/models/bookingModel.js:8-10 | among overlapping rows, only the resource, the date and the cancelled status decide: pending, approved and rejected rows all block |
| BookingModel.WithStatusNoMatch | backend/models/bookingModel.js:72-74 | an UPDATE whose WHERE matches no row leaves the table unchanged |
| BookingModel.CancelPreservesNoOverlap | backend/models/bookingModel.js:72-74 | cancelling any set of rows keeps "no two live rows of one resource and date overlap" |
| BookingModel.RestatusPreservesNoOverlap | backend/routes/adminRoutes.js:112-117 | moving live rows to another live status keeps the no-overlap invariant |
| BookingModel.InsertPreservesNoOverlap | backend/models/bookingModel.js:4-39 | a row for which checkConflict returned false can be inserted without breaking the no-overlap invariant |
| BookingModel.NewerFirstIsTotalPreorder | backend/models/bookingModel.js:48 | `ORDER BY booking_date DESC, start_time DESC` is total and transitive, so the sorted order is well defined up to ties |
| BookingModel.BookingsByUser | backend/models/bookingModel.js:41-53 | a permutation of the user's joined rows: exactly the rows of that user whose resource exists, newest date and start first |
| BookingModel.BookingsByResource | backend/models/bookingModel.js:55-67 | a permutation of the resource's joined rows: exactly the rows of that resource whose user exists, newest first |
| BookingModel.ByUserIsComplete | backend/models/bookingModel.js:46 | when every booking's resource exists, the join drops none of the user's rows |
| BookingModel.BookingTable.constructor | backend/models/bookingModel.js:1 | an empty, valid table whose first id is 1 |
| BookingModel.BookingTable.CreateBooking | backend/models/bookingModel.js:30-39 | appends one `pending` row with a fresh auto-increment id and the request's fields; `title` is not stored; returns the new id |
| BookingModel.BookingTable.UpdateStatus | backend/models/bookingModel.js:72-78 | sets the status of every selected row and nothing else; reports whether any row matched |
| BookingModel.BookingTable.CancelBooking | backend/models/bookingModel.js:69-79 | cancels the row only when both its id and its owner match; true iff such a row existed; keeps the no-overlap invariant |
| UserController.GetProfile | backend/controllers/userController.js:8-25 | 401 "Not authenticated" without a session user, otherwise 200 "Profile loaded" with the session user unchanged |
| UserController.ChangePassword | backend/controllers/userController.js:30-73 | first failure wins: 401 without a session, 400 when either password is empty, 404 for a missing user, 400 "Incorrect current password"; no row changes on any failure; on success only the session user's password becomes `hash(newPassword)` |
| BookingController.ForwardedFilters | backend/controllers/bookingController.js:5-6 | the filters are exactly the query's `date` and `resource_id` |
| BookingController.GetBookings | backend/controllers/bookingController.js:3-11 | responds with what the lookup returns; a lookup that throws goes to `next` and nothing is written |
| BookingController.GetBookingsIgnoresOtherParameters | backend/controllers/bookingController.js:5-6 | two queries that agree on `date` and `resource_id` get the same outcome, whatever else they carry |
| BookingController.CreateBooking | backend/controllers/bookingController.js:13-24 | a conflict gives 409 "Conflict detected" and leaves the table unchanged; otherwise one pending row is inserted and 201 carries its id; a throwing call goes to `next` with nothing inserted; the no-overlap invariant is kept |
| BookingController.CancelBooking | backend/controllers/bookingController.js:26-33 | 204 whenever the cancel does not throw, and the owner-scoped cancel is what changes the table; a throw goes to `next` with nothing changed |
| BookingController.CreateAll | backend/controllers/bookingController.js:15-20 | requests handled one after another from an empty table never leave two live bookings overlapping |
| ResourceModel.DefaultStatus | backend/models/resourceModel.js:21 | "available" for an undefined, null or empty status, the status itself otherwise |
| ResourceModel.BindValue | backend/models/resourceModel.js:24-28 | a bound `null` stores NULL and a bound value stores itself; `undefined` is not a bind value |
| ResourceModel.DefaultCapacity | backend/models/resourceModel.js:22 | undefined and null both become null; a number is kept, 0 included |
| ResourceModel.GetResourceById | backend/models/resourceModel.js:12-15 | the row with that id, or null exactly when none exists |
| ResourceModel.GetResourceByIdAt | backend/models/resourceModel.js:13-14 | with distinct ids, looking up a row's id returns that row |
| ResourceModel.ResourceTable.constructor | backend/models/resourceModel.js:1 | an empty, valid resources table |
| ResourceModel.ResourceTable.GetAllResources | backend/models/resourceModel.js:6-9 | every row, in table order |
| ResourceModel.ResourceTable.CreateResource | backend/models/resourceModel.js:18-31 | an undefined name, type or location makes the driver throw: no id and nothing changes; otherwise appends one row with a fresh id, the fields as given and the defaulted status and capacity, and the row is found under that id |
| ResourceModel.CreatedRowDefaults | backend/models/resourceModel.js:21-28 | a created row always stores a non-empty status, stores a capacity exactly when a number was given, and stores the name as given |
| ResourceModel.ResourceTable.UpdateResource | backend/models/resourceModel.js:33-44 | any undefined field of the five makes the driver throw: no answer and nothing changes; otherwise overwrites the five columns of the row with that id only, with no defaults, and answers true iff it exists |
| ResourceModel.ResourceTable.DeleteResource | backend/models/resourceModel.js:47-50 | removes exactly the row with that id; true iff it existed; every other row stays |
| ResourceModel.FilterKeepsIds | backend/models/resourceModel.js:48 | deleting by id keeps ids distinct and leaves only rows of other ids |
| AuthController.FindByEmail | backend/controllers/authController.js:22-27 | `SELECT ... WHERE email = ?`: none exactly when no user has that email, otherwise a row with that email |
| AuthController.FindById | backend/controllers/userController.js:40-47 | none exactly when no user has that id, otherwise a row with that id |
| AuthController.UserTable.constructor | backend/controllers/authController.js:37-40 | an empty, valid users table with its column default role |
| AuthController.UserTable.Insert | backend/controllers/authController.js:37-40 | appends one user with a fresh auto-increment id, the given fields and the default role; emails stay unique |
| AuthController.UserTable.UpdateById | backend/controllers/userController.js:61-64 | `UPDATE users ... WHERE id = ?`: only the row with that id changes; reports whether it existed |
| AuthController.RegisterUser | backend/controllers/authController.js:9-56 | 400 with the all-fields message when any field is empty, nothing inserted; 400 "Email already registered" when the email is taken, nothing inserted; otherwise one user with `hash(password)` and 201 with the new id |
| AuthController.SessionRecord | backend/controllers/authController.js:99-104 | the session user holds the account's id, full name, email and student id, no password and no role |
| AuthController.SessionRecordWithRole | backend/controllers/authController.js:99-104 | corrected: the same record with the account's role added |
| AuthController.LoginUser | backend/controllers/authController.js:61-131 | 400 when email or password is empty; 401 "Invalid email or password" for an unknown email and for a wrong password, session untouched; otherwise 200 and the session becomes the password-free record, echoed in the reply |
| AuthController.LoginFailuresLookAlike | backend/controllers/authController.js:80-95 | an unknown email and a wrong password give identical results |
| AuthController.LoginSessionIsTheAccount | backend/controllers/authController.js:86-104 | with unique emails, a successful login stores the record of the account with that email |
| AuthController.GetCurrentUser | backend/controllers/authController.js:147-163 | 401 "Not authenticated" without a session user, otherwise 200 with the session user unchanged |
| AdminRoutes.RequireAdmin | backend/routes/adminRoutes.js:8-16 | passes exactly when the session holds a user whose role is "admin"; 401 "Not authenticated" without a user, 403 "Admin access required" otherwise |
| AdminRoutes.LoginSessionNeverAdmin | backend/routes/adminRoutes.js:12-13 | as written: after any successful login the session record has no role, so requireAdmin answers 403 even for an admin |
| AdminRoutes.RoleSessionGate | backend/routes/adminRoutes.js:12-15 | with the role copied into the session, requireAdmin passes exactly for admins and gives 403 to everyone else |
| AdminRoutes.VerdictStatus | backend/routes/adminRoutes.js:84 | approve writes `approved`, reject writes `rejected`, and nothing else |
| AdminRoutes.FindJoined | backend/routes/adminRoutes.js:93-100 | the re-select after the update: the row with that id whose user and resource exist, or none exactly when no such row exists |
| AdminRoutes.Decide | backend/routes/adminRoutes.js:79-137 | as written: gate first; sets the verdict's status on the row with that id whatever its status was; 404 "Booking not found" when no row matched; otherwise 200 with the verdict's message and the re-selected row |
| AdminRoutes.DecideLiveRowPreservesNoOverlap | backend/routes/adminRoutes.js:83-86 | deciding a row that is not cancelled keeps the no-overlap invariant |
| AdminRoutes.ApproveCancelledBreaksNoOverlap | backend/routes/adminRoutes.js:83-86 | as written: a cancelled booking, a second booking that legally takes its slot, then approving the cancelled one gives two live overlapping bookings |
| AdminRoutes.DecidePending | backend/routes/adminRoutes.js:83-90 | corrected: the update applies only to a pending row with that id, 404 otherwise, and the no-overlap invariant is always kept |
| AdminRoutes.CreatedFirstIsTotalPreorder | backend/routes/adminRoutes.js:68 | `ORDER BY created_at ASC` is total and transitive (also backend/routes/adminRoute.js:55) |
| AdminRoutes.PendingBookings | backend/routes/adminRoutes.js:58-76 | a permutation of the joined pending rows: exactly the pending rows whose user and resource exist, oldest request first (also backend/routes/adminRoute.js:45-58) |
| AdminRoutes.DashboardStats | backend/routes/adminRoutes.js:22-55 | the four counts: all resources, approved bookings not yet ended, pending bookings, all users (also backend/routes/adminRoute.js:10-42) |
| AdminRoutes.PendingCountIsPendingList | backend/routes/adminRoutes.js:40-44 | when every booking's user and resource exist, the pending count equals the length of the pending list |
| AdminRoutes.ActiveCountShrinks | backend/routes/adminRoutes.js:31-36 | later in the same day, the active count can only go down |
| AdminRoutes.ActiveTodayWasActiveBefore | backend/routes/adminRoutes.js:34-35 | a booking active at some time today was active at every time of every earlier day |
| AdminRoutes.PeriodDays | backend/routes/adminRoutes.js:142-146 | 30 exactly for "month", 365 exactly for "year", 7 for anything else or no period |
| AdminRoutes.TotalOrOne | backend/routes/adminRoutes.js:163 | the total is the count itself when positive, 1 when zero (also backend/routes/adminRoute.js:129) |
| AdminRoutes.RoundPct | backend/routes/adminRoutes.js:181 | `Math.round(count / total * 100)`: the nearest integer, halves rounded up; at most 100 when count ≤ total (also backend/routes/adminRoute.js:146) |
| AdminRoutes.MoreBookedIsTotalPreorder | backend/routes/adminRoutes.js:174 | `ORDER BY booking_count DESC` is total and transitive |
| AdminRoutes.UtilOf | backend/routes/adminRoutes.js:166-182 | one row per resource: the count of its approved bookings in the period and a percentage of at most 100 (also backend/routes/adminRoute.js:132-147) |
| AdminRoutes.UtilRows | backend/routes/adminRoutes.js:166-173 | the LEFT JOIN keeps every resource once, in order, with its own count |
| AdminRoutes.Utilisation | backend/routes/adminRoutes.js:140-187 | a permutation of the per-resource rows, one per resource, busiest first, every percentage at most 100 (also backend/routes/adminRoute.js:108-152) |
| AdminRoutes.WeekRange | backend/routes/adminRoutes.js:149-154 | the displayed range ends today and spans the period's days |
| AdminRoutes.UpdateUserRole | backend/routes/adminRoutes.js:257-285 | gate; 400 "Invalid role" outside student/faculty/admin; 404 "User not found" for an unknown id; otherwise only that user's role changes and 200 returns the re-selected `user_id`, `email`, `full_name` and `role` of the updated user |
| AdminRoutes.RoleViewHidesSecrets | backend/routes/adminRoutes.js:275-278 | the re-selected columns are the user's id, email, name and role, equal views mean equal columns, and the password hash and student id do not show in them |
| AdminRoutes.FindByIdDistinct | backend/routes/adminRoutes.js:275-278 | with distinct ids, looking up a row's id finds that row |
| AdminRoutePg.Returned | backend/routes/adminRoute.js:70-73 | `RETURNING *` yields nothing exactly when no row has the id; otherwise a row of the table with that id |
| AdminRoutePg.DecidePg | backend/routes/adminRoute.js:66-105 | approve and reject set the status of the row with that id whatever its current status; 404 "Booking not found" exactly when no row has the id, with the table unchanged; otherwise 200 with the verdict's message and the updated row, carrying the new status |
| AdminRoutePg.IntervalText | backend/routes/adminRoute.js:112-114 | the interval is one of "7 days", "30 days" and "365 days" |
| AdminRoutePg.IntervalIsPeriodDays | backend/routes/adminRoute.js:112-114 | for every period, absent included, the interval spans the same number of days the MySQL router counts |
| AdminRoutePg.WeekRangePg | backend/routes/adminRoute.js:117-121 | the displayed range is always the last 7 days up to today |
| AdminRoutePg.WeekRangeIgnoresPeriod | backend/routes/adminRoute.js:117-121 | for a month or a year the displayed range differs from, and starts later than, the period actually counted |
| AdminRoutePg.UpdateUserTypePg | backend/routes/adminRoute.js:227-250 | 400 "Invalid user type" outside the three roles and 404 "User not found" for a missing id, both with no row changed; otherwise only that user's role becomes `userType` and 200 carries the `RETURNING` columns of the updated row |
| AdminRoutePg.TypeViewHidesSecrets | backend/routes/adminRoute.js:237 | the returned columns are the user's id, email, name and type, and the password hash and student id do not show in them |
| AllBookingsSql.CondPrefixFree | backend/routes/adminRoutes.js:212-227 | each of the four column-test fragments a condition starts with contains no `?` and no `$` |
| AllBookingsSql.Clause | backend/routes/adminRoutes.js:212-227 | a MySQL clause is its column test followed by a single `?` |
| AllBookingsSql.BasePlaceholderFree | backend/routes/adminRoutes.js:199-207 | the fixed head of the MySQL query binds nothing |
| AllBookingsSql.OrderPlaceholderFree | backend/routes/adminRoutes.js:231 | the `ORDER BY` tail binds nothing in either dialect |
| AllBookingsSql.PgBaseMarkFree | backend/routes/adminRoute.js:164-172 | the fixed head of the Postgres query binds nothing |
| AllBookingsQuery.Conditions | backend/routes/adminRoutes.js:211-229 | at most four conditions; each filter's condition is present exactly when that filter is supplied (non-empty), and nothing else is |
| AllBookingsQuery.Values | backend/routes/adminRoutes.js:213-228 | one bound value per condition, in the same order, each the condition's own value |
| AllBookingsQuery.RenderPlaceholders | backend/routes/adminRoutes.js:211-229 | the rendered clauses hold exactly one `?` per condition |
| AllBookingsQuery.RenderSnoc | backend/routes/adminRoutes.js:212 | appending a condition appends exactly its clause |
| AllBookingsQuery.ValuesSnoc | backend/routes/adminRoutes.js:213 | appending a condition appends exactly its value to the parameters |
| AllBookingsQuery.QueryPlaceholders | backend/routes/adminRoutes.js:199-231 | the whole MySQL query holds as many `?` as there are conditions |
| AllBookingsQuery.FilterClauses | backend/routes/adminRoutes.js:211-229 | the four `if`s append exactly the clauses of the supplied filters, in the order status, startDate, endDate, resourceId, and push exactly their values in that order |
| AllBookingsQuery.BuildAllBookingsQuery | backend/routes/adminRoutes.js:197-231 | the `+=`/`push` sequence yields the fixed head, one clause per supplied filter in the order status, startDate, endDate, resourceId, then the order clause; the parameters are those filters' values in the same order, and the query holds exactly as many `?` as there are parameters |
| AllBookingsQuery.PgRenderOne | backend/routes/adminRoute.js:178 | one condition numbered `n` renders as its clause with `$n` |
| AllBookingsQuery.PgRenderAppend | backend/routes/adminRoute.js:177-199 | rendering two runs of conditions numbers the second run from where the first stopped |
| AllBookingsQuery.PgPlaceholderNumbering | backend/routes/adminRoute.js:174-199 | the k-th condition (from 0) is rendered with placeholder `$(k+1)`, and the k-th parameter is that condition's value, so each placeholder binds its own filter |
| AllBookingsQuery.PgPlaceholdersDistinct | backend/routes/adminRoute.js:175-198 | different positions get different placeholders |
| AllBookingsQuery.PgRenderMarks | backend/routes/adminRoute.js:177-199 | the rendered Postgres clauses hold exactly one `$` per condition |
| AllBookingsQuery.PgAppend | backend/routes/adminRoute.js:178-180 | one filter step appends the numbered clause, pushes its value and increments `paramCount`, keeping `paramCount` one above the number of conditions |
| AllBookingsQuery.PgSnoc | backend/routes/adminRoute.js:178 | appending a condition appends its clause numbered one past the conditions before it |
| AllBookingsQuery.PgQueryMarks | backend/routes/adminRoute.js:164-201 | the whole Postgres query holds as many `$` as there are conditions |
| AllBookingsQuery.PgFilterClauses | backend/routes/adminRoute.js:176-199 | starting from `paramCount` 1, the four `if`s append the supplied filters' clauses numbered `$1`, `$2`, ... in the handler's order and push exactly their values |
| AllBookingsQuery.BuildAllBookingsQueryPg | backend/routes/adminRoute.js:162-201 | the Postgres query is the fixed head, the supplied filters' clauses numbered `$1`, `$2`, ... in the handler's order, then the order clause; the parameters are those filters' values in the same order and their count equals the number of `$` marks |
| AllBookingsQuery.ConditionsMeanFilters | backend/routes/adminRoutes.js:206-229 | a row meets `WHERE 1=1 AND ...` exactly when it meets every supplied filter (status name under the database's text comparison, date from, date to, resource) |
| AllBookingsQuery.StatusFilterCollation | backend/routes/adminRoutes.js:210-213 | `?status=Approved` selects an approved row when the comparison ignores case, as MySQL's default collation does, and does not select it under an exact comparison (also backend/routes/adminRoute.js:177-181) |
| AllBookingsQuery.AllBookings | backend/routes/adminRoutes.js:195-234 | a booking is listed exactly when it is in the table, has a matching user and resource, and meets every supplied filter; the list is a permutation of that selection, ordered newest date first and, within a date, latest start first |
| AllBookingsQuery.NoFiltersListsEverything | backend/routes/adminRoutes.js:209-231 | with no filter supplied, every joined row is listed |
| BookingPage.Suffix | frontend/js/booking.js:150 | the optional group takes "am" or "pm" when the text continues with it and is empty otherwise |
| BookingPage.MatchAt | frontend/js/booking.js:150 | a match is one or two hour digits, a colon and two minute digits, and needs at least four characters from its start |
| BookingPage.FindTime | frontend/js/booking.js:150 | what `match` returns is a well-formed set of capture groups |
| BookingPage.FindTimeLeftmost | frontend/js/booking.js:150-151 | there is no match exactly when the pattern matches at no position; otherwise the match is the one at the leftmost matching position |
| BookingPage.To24 | frontend/js/booking.js:155-156 | for an hour 1-12 with am/pm the result is below 24, agrees with the hour modulo 12 and is 12 or more exactly for pm (12am is 0, 12pm stays 12); without a suffix the hour is kept |
| BookingPage.NormalizeCellTime | frontend/js/booking.js:150-151 | text without an `h:mm` pattern comes back unchanged |
| BookingPage.MatchClock | frontend/js/booking.js:150 | a text starting with one or two digits, a colon and two digits matches right there, with the am/pm group read from what follows |
| BookingPage.NormalizeTwelveHour | frontend/js/booking.js:148-158 | "h:mm" followed by am or pm, in any letter case, normalises to the 24-hour hour padded to two digits, a colon and the same minutes |
| BookingPage.ClockIsFixed | frontend/js/booking.js:150-157 | a normalised "HH:MM" matches itself with no suffix and normalises to itself |
| BookingPage.NormalizeIdempotent | frontend/js/booking.js:148-158 | normalising twice gives the same as normalising once, while the hour stays below 100 |
| BookingPage.SlotSpelling | frontend/js/booking.js:77 | slot k is written as its 12-hour hour, ":00" and am or pm |
| BookingPage.SlotNormalise | frontend/js/booking.js:77 | slot k normalises to the 24-hour time (10+k):00 (also frontend/js/booking.js:148-158) |
| BookingPage.TimeSlotsNormalise | frontend/js/booking.js:77 | the twelve slots normalise to 10:00, 11:00, ..., 21:00 |
| BookingPage.StartPart | frontend/js/booking.js:163-165 | the start of the trimmed slot holds no '-' |
| BookingPage.StripSpaces | frontend/js/booking.js:167 | removing the white space never lengthens the text and leaves none |
| BookingPage.RemoveMeridiem | frontend/js/booking.js:167 | at most one am/pm is removed |
| BookingPage.StartNormLikeCell | frontend/js/booking.js:169-178 | a start that holds a time is normalised exactly as a cell time is |
| BookingPage.StartPartOfRange | frontend/js/booking.js:163-165 | of a range "start-rest" only the start is compared |
| BookingPage.ClockStartPart | frontend/js/booking.js:163-165 | a 24-hour start, alone or followed by "-rest", is taken whole |
| BookingPage.StartNormClock | frontend/js/booking.js:166-178 | a 24-hour start normalises to itself |
| BookingPage.ClockStartMatches | frontend/js/booking.js:160-180 | a 24-hour start "HH:MM", alone or as a range, matches every cell that normalises to it |
| BookingPage.ClockStartMatchesSlot | frontend/js/booking.js:160-180 | the booking slot "(10+k):00" or "(10+k):00-..." matches slot cell k, so "10:00" matches the "10:00am" cell |
| BookingPage.SpelledTextMatches | frontend/js/booking.js:160-180 | a range starting with a 12-hour "h:00am/pm" matches the cell written the same way |
| BookingPage.SlotTextMatchesSlot | frontend/js/booking.js:77 | a range starting with slot k's own text matches slot k (also frontend/js/booking.js:160-180) |
| BookingPage.MatchesAtMostOneSlot | frontend/js/booking.js:160-180 | a booking slot matches at most one of the twelve cells of a row (also frontend/js/booking.js:77) |
| BookingPage.GroupKey | frontend/js/booking.js:94-95 | study rooms exactly when the type text contains "room"; equipment exactly when it does not but contains "computer", "work" or "equipment"; other otherwise |
| BookingPage.UntypedIsOther | frontend/js/booking.js:94 | a resource with neither type nor category is in the "other" group |
| BookingPage.GroupResources | frontend/js/booking.js:92-98 | after the `forEach`, a group has a key exactly when some resource falls in it, and its list holds exactly those resources in their original order |
| Seqs.GroupedBySnoc | frontend/js/booking.js:96-97 | one `push` onto the element's own group, created when missing, keeps every group equal to its members so far and no group empty |
| BookingPage.GroupsPartition | frontend/js/booking.js:93-98 | the three groups together hold every resource exactly once |
| BookingPage.RowClass | frontend/js/booking.js:113 | a row is a study-room row exactly under the study-rooms header, an equipment row otherwise |
| BookingPage.RowCategory | frontend/js/booking.js:114 | the row's category is "study-rooms" exactly under the study-rooms header, "equipment" otherwise |
| BookingPage.FreshRow | frontend/js/booking.js:122-129 | a new row has exactly twelve cells, one per slot in order, each only `available` |
| BookingPage.RenderGroup | frontend/js/booking.js:101-133 | one row per item, in order, each with the header's classes and a fresh row of cells; nothing for an empty group |
| BookingPage.GroupRows | frontend/js/booking.js:101-133 | every rendered row of a group shows a resource of that group, dressed as a study room exactly when it is one |
| BookingPage.GroupItemsOf | frontend/js/booking.js:136-139 | what each `renderGroup` call receives is that group's resources in order |
| BookingPage.RenderTableRows | frontend/js/booking.js:135-139 | the table has exactly one row per resource, each showing a resource with twelve available slots |
| BookingPage.SlotMarkFor | frontend/js/booking.js:208-212 | a matched slot shows the user's booking exactly when the status is "approved" in any letter case, and is otherwise unavailable |
| BookingPage.ApprovedInAnyCase | frontend/js/booking.js:208 | "Approved" and "APPROVED" show as the user's booking; "pending" and a missing status as unavailable |
| BookingPage.MarkAll | frontend/js/booking.js:193-215 | applying bookings keeps the row's cells and their times |
| BookingPage.MarksOf | frontend/js/booking.js:207-212 | bookings never add `available`, and at least one booking adds a mark |
| BookingPage.MarksOfMeaning | frontend/js/booking.js:207-212 | a mark is brought exactly when some booking's status gives it |
| BookingPage.MarkCellAll | frontend/js/booking.js:202-214 | applying bookings to a cell keeps its time |
| BookingPage.MarkAllCellwise | frontend/js/booking.js:193-215 | applying the bookings row by row is applying them to each cell on its own |
| BookingPage.MarkCellAllMeaning | frontend/js/booking.js:202-214 | a cell no booking hits keeps its marks; otherwise it loses `available` and gains exactly the marks of the bookings that hit it |
| BookingPage.MarkAllMeaning | frontend/js/booking.js:193-215 | the same for cell k of a row |
| BookingPage.ClearedCellMarks | frontend/js/booking.js:182-215 | on a cleared cell, `available` stays exactly when no booking hits it, and `your-booking` or `unavailable` is present exactly when a hitting booking has that status class |
| BookingPage.FreshRowMarks | frontend/js/booking.js:182-215 | slot k stays available exactly when no booking hits it, shows the user's booking exactly when an approved one does, and is unavailable exactly when a non-approved one does |
| BookingPage.FirstContaining | frontend/js/booking.js:198 | nothing is found exactly when no text contains the key; otherwise the first text that does |
| BookingPage.RowByText | frontend/js/booking.js:194-199 | the row found is the first whose name text contains the trimmed resource name, and none exactly when no row's text does |
| BookingPage.RowByTextPicksLongerName | frontend/js/booking.js:198 | a booking for "Room 1" lands on a "Room 10" row listed before the "Room 1" row |
| BookingPage.RowByName | frontend/js/booking.js:194-199 | the row found is the first whose name equals the trimmed resource name, and none exactly when no row has that name |
| BookingPage.RowByNameIsOwnRow | frontend/js/booking.js:194-199 | with distinct row names, a booking goes to the row of its own resource |
| BookingPage.Processed | frontend/js/booking.js:163 | the bookings applied are the longest prefix in which no booking has a found row and an absent `time_slot`; when the prefix is shorter than the list, the next booking is such a booking, whose `trim()` throws out of the `forEach` (also frontend/js/booking.js:193-205) |
| BookingPage.ProcessedCut | frontend/js/booking.js:193-205 | cutting the list at a throwing booking leaves the applied bookings unchanged |
| BookingPage.RenderBookingsWith | frontend/js/booking.js:189-216 | for any row lookup: one row of twelve cells per resource row |
| BookingPage.RenderBookingsWithMeaning | frontend/js/booking.js:200-214 | for any row lookup, cell k of row i stays available exactly when no applied booking the lookup sends to row i hits slot k, and shows the user's booking exactly when an approved applied booking sent there does |
| BookingPage.MissingSlotEndsMarking | frontend/js/booking.js:205 | a booking whose row is found but whose `time_slot` is absent leaves the grid as if it and every later booking had never been sent (also frontend/js/booking.js:163) |
| BookingPage.NameText | frontend/js/booking.js:119 | a row's name text is at most two icon characters and a space followed by the resource's name |
| BookingPage.PageTexts | frontend/js/booking.js:194-197 | the searched texts are the rows' name texts, one per resource row, in table order |
| BookingPage.RowByTextFindsOwnOrEarlier | frontend/js/booking.js:194-199 | as written, a booking for a resource on the page always finds a row, either its own or one above it |
| BookingPage.PageRowPicksLongerName | frontend/js/booking.js:198 | on the page, whatever the types and their icons, a booking for "Room 1" lands on a "Room 10" row listed first (also frontend/js/booking.js:119) |
| BookingPage.RenderBookings | frontend/js/booking.js:189-216 | the grid as written, with the `includes` lookup over the page's name texts: one row of twelve cells per resource row |
| BookingPage.RenderBookingsMeaning | frontend/js/booking.js:189-216 | as written, cell k of row i is decided by the applied bookings whose name row i's text is the first to contain, which can be another resource's bookings |
| BookingPage.RenderBookingsFixed | frontend/js/booking.js:189-216 | the corrected grid, with the name-equality lookup over the rows' resource names: one row of twelve cells per resource row |
| BookingPage.RenderBookingsFixedMeaning | frontend/js/booking.js:189-216 | corrected, with distinct resource names: cell k of row i stays available exactly when no applied booking for that row's own resource hits slot k, and shows the user's booking exactly when an approved one does |
| BookingPage.FourDigits | frontend/js/booking.js:261 | a year from 1000 to 9999 is written with four digits |
| BookingPage.CurrentDateStrFormat | frontend/js/booking.js:260-265 | for a four-digit year the string is `YYYY-MM-DD`, and its fields read back as the year, the 0-based month plus one and the day |
| AdminPage.Lookup | frontend/js/admin.js:136 | a key with a non-empty entry gets that entry, a key not in the table gets the fallback (also frontend/js/admin.js:145, frontend/js/admin.js:155) |
| AdminPage.StatusClass | frontend/js/admin.js:130-137 | the three known statuses get "status-" followed by the status; anything else gets "status-available" |
| AdminPage.StatusIcon | frontend/js/admin.js:139-146 | "🚫" for blocked, "🔧" for maintenance, and "✓" exactly for every other status |
| AdminPage.CategoryIcon | frontend/js/admin.js:148-156 | a known category gets its own icon; "📚" exactly for study rooms and every unknown category |
| AdminPage.CategoryIconsDistinct | frontend/js/admin.js:149-154 | different known categories get different icons |
| AdminPage.SplitTime | frontend/js/admin.js:201 | `[hours, mins]` are the text before the first ':' and the text up to the next ':' or the end; `mins` is undefined exactly when there is no ':' |
| AdminPage.Hour12 | frontend/js/admin.js:202-204 | the 12-hour hour is never 0: 12 for NaN, 1-12 agreeing with the hour modulo 12 for a non-negative hour, and negative or 12 for a negative one, since JavaScript's `%` keeps the dividend's sign |
| AdminPage.Meridiem | frontend/js/admin.js:203 | "PM" exactly for an hour of 12 or more, otherwise "AM", NaN included |
| AdminPage.FormatTime | frontend/js/admin.js:199-206 | the result is empty exactly for an absent or empty time |
| AdminPage.FormatTimeHexHour | frontend/js/admin.js:202 | with `parseInt(hours)` called without a radix, the time "0x10:00" prints as "4:00 PM" |
| AdminPage.SplitClock | frontend/js/admin.js:201 | "HH:MM" with or without seconds splits into its hour and its minutes |
| AdminPage.FormatTimeTwelveHour | frontend/js/admin.js:199-206 | "HH:MM" or "HH:MM:SS" prints as the 12-hour hour, the original minutes and AM/PM |
| AdminPage.TwelveHourReadsBack | frontend/js/admin.js:202-205 | the 12-hour hour lies in 1-12, and with its AM/PM it converts back through the booking page's 24-hour rule to the original hour (also frontend/js/booking.js:155-156) |
| AdminPage.MeridiemLower | frontend/js/admin.js:203 | lower-cased, the meridiem is "am" or "pm" |
| AdminPage.MidnightAndNoon | frontend/js/admin.js:203-204 | hour 0 is 12 AM and hour 12 is 12 PM |
| AdminPage.NotSetHasNoColon | frontend/js/admin.js:170 | "Schedule not set" holds no ':' |
| AdminPage.DayName | frontend/js/admin.js:177 | a day name, a missing day's and an out-of-range day's ("") included, holds neither '-' nor ',' (also frontend/js/admin.js:193) |
| AdminPage.JoinAvoids | frontend/js/admin.js:193 | a character in no part and not in the separator is not in the joined text |
| AdminPage.ValidDays | frontend/js/admin.js:174 | the numeric days of the entries that pass the filter: no more than there are entries (also frontend/js/admin.js:185) |
| AdminPage.MissingDays | frontend/js/admin.js:174 | the entries that pass the filter without a `day_of_week`: none exactly when no non-null entry lacks it |
| AdminPage.ValidDaysCount | frontend/js/admin.js:174 | each entry that passes `a && a.day_of_week !== null` gives either one numeric day or one missing day (also frontend/js/admin.js:185) |
| AdminPage.ValidDaysMembers | frontend/js/admin.js:174 | a number is listed exactly when some non-null entry has it as its `day_of_week` (also frontend/js/admin.js:185) |
| AdminPage.LexTotal | frontend/js/admin.js:185 | the text order of the default `sort()` relates any two strings |
| AdminPage.DigitOrder | frontend/js/admin.js:185 | on single digits the text order is the numeric order |
| AdminPage.SortedNumbers | frontend/js/admin.js:185 | the sorted numbers are a permutation of the numeric days |
| AdminPage.SortedDays | frontend/js/admin.js:185 | one value per entry that passes the filter: the numbers in `sort()` order first, then the missing days, which `sort()` places last |
| AdminPage.SortedDaysMembers | frontend/js/admin.js:185 | a number is among the sorted days exactly when it is one of the numeric days |
| AdminPage.SortedDaysMissing | frontend/js/admin.js:185 | a missing day is among the sorted days exactly when some non-null entry has no `day_of_week` |
| AdminPage.SortedDaysAscending | frontend/js/admin.js:185 | with weekday numbers 0-6, `sort()` lists the numbers in ascending order and every missing day after them |
| AdminPage.DayText | frontend/js/admin.js:186-194 | as written: "Mon-Sun" exactly for seven values, "Mon-Fri" exactly for five values that include 1 and 5 |
| AdminPage.DayList | frontend/js/admin.js:193 | a list of day names is never a range: it holds no '-' |
| AdminPage.DayTextFixed | frontend/js/admin.js:186-194 | as intended: "Mon-Sun" exactly for Sunday to Saturday, "Mon-Fri" exactly for Monday to Friday |
| AdminPage.FormatAvailabilityWith | frontend/js/admin.js:168-196 | "Schedule not set" exactly when the input is absent or no entry passes `a && a.day_of_week !== null` (the empty array included; a non-null entry without a `day_of_week` passes) |
| AdminPage.FormatAvailability | frontend/js/admin.js:168-196 | as written: the same "Schedule not set" condition |
| AdminPage.FormatAvailabilityFixed | frontend/js/admin.js:168-196 | with the intended day ranges: the same "Schedule not set" condition |
| AdminPage.AvailabilityTimes | frontend/js/admin.js:178-196 | the text is the day text of the sorted days, then the open and close times of the first entry that passes the filter |
| AdminPage.MissingDayShown | frontend/js/admin.js:174-196 | the schedule `[{open_time: "09:00"}]` passes the filter and prints ": 9:00 AM - ", under either day rule |
| AdminPage.FiveDaysWithSunday | frontend/js/admin.js:190-191 | any five days that include Sunday, Monday and Friday print as "Mon-Fri" as written, and not under the intended rule |
| AdminPage.MonFriAsWritten | frontend/js/admin.js:190-191 | a concrete schedule of Sunday, Monday, Wednesday, Friday and Saturday is printed "Mon-Fri" |
| AdminPage.CheckboxDay | frontend/js/admin.js:261 | box i (6 gives Sunday, otherwise i+1) is a weekday, and that day's box is i again (also frontend/js/admin.js:322) |
| AdminPage.DayCheckboxRoundTrip | frontend/js/admin.js:261 | a weekday's box is one of the seven, and it maps back to that day (also frontend/js/admin.js:322) |
| AdminPage.CheckedDays | frontend/js/admin.js:319-329 | no more days than boxes |
| AdminPage.CheckedDaysMeaning | frontend/js/admin.js:319-329 | a day is listed exactly when its box is checked, and days come in box order |
| AdminPage.FormAvailability | frontend/js/admin.js:316-329 | one entry per checked box |
| AdminPage.BuildAvailability | frontend/js/admin.js:316-329 | the `forEach` of `push` yields exactly one entry per checked box, in index order, each with that box's weekday and the shared open and close times |
| AdminPage.RestoredBoxes | frontend/js/admin.js:258-263 | with saved availability, box i is checked exactly when some entry has box i's weekday; the boxes are untouched otherwise |
| AdminPage.RestoredTime | frontend/js/admin.js:268-269 | a present non-empty time is cut to its first five characters; a missing or empty one gives the default |
| AdminPage.SavedDays | frontend/js/admin.js:261-262 | the saved entries have box i's weekday exactly when box i was checked (also frontend/js/admin.js:319-329) |
| AdminPage.EditShowsSavedForm | frontend/js/admin.js:257-270 | the page's save and restore steps round-trip: restoring the entries the form builds shows the same checked boxes and the same "HH:MM" open and close times, given a server that returns `availability` as sent (also frontend/js/admin.js:316-329) |
| AdminPage.FormInput | frontend/js/admin.js:307-337 | the form's body read as createResource/updateResource destructure it: name and location as typed, no `type` and no `status`, and a capacity that is `null` exactly when `parseInt` gives NaN (also backend/models/resourceModel.js:19) |
| AdminPage.FormBodyRefused | backend/models/resourceModel.js:18-41 | the form's body always binds an undefined `type`, so both createResource and updateResource refuse it (also frontend/js/admin.js:331-352) |
| AdminPage.AsRead | frontend/js/admin.js:168-174 | the saved entries are read back as non-null entries in the same order |
| AdminPage.SavedEntriesValid | frontend/js/admin.js:174 | every saved entry passes the filter with a numeric day, one per checked box, and none lacks its day (also frontend/js/admin.js:316-329) |
| AdminPage.AllDaysShowMonSun | frontend/js/admin.js:188-196 | a resource open on all seven days shows "Mon-Sun" with its formatted times (also frontend/js/admin.js:316-329) |
| AdminPage.AllCheckedCount | frontend/js/admin.js:319-329 | with every box checked, one day per box |
| AdminPage.ShownPct | frontend/js/admin.js:475 | the shown percentage is the value when present, else 0 (also frontend/js/admin.js:514) |
| AdminPage.PctLevel | frontend/js/admin.js:476 | level 2 exactly from 75, level 1 exactly from 50 up to 75, level 0 below 50 (also frontend/js/admin.js:515-516) |
| AdminPage.LevelClass | frontend/js/admin.js:476 | the prefix then "high" exactly at 75 or more, "medium" exactly from 50 up to 75, "low" exactly below 50; used with "bar-" for the bar and "percent-" for the percentage text (also frontend/js/admin.js:515-516) |
| AdminPage.SameStart | frontend/js/admin.js:476 | two class names with the same prefix are equal exactly when their levels are |
| AdminPage.LevelClassMonotone | frontend/js/admin.js:476 | a higher percentage never gets a lower level or a lower colour class (also frontend/js/admin.js:515-516) |
| AdminPage.BarWidth | frontend/js/admin.js:487 | `Math.max(pct, floor)`: at least the floor and the percentage, and one of them (also frontend/js/admin.js:528) |
| AdminPage.TopFive | frontend/js/admin.js:472 | at most five rows, all five when there are that many, taken from the input without duplication |
| AdminPage.TopFiveSorted | frontend/js/admin.js:472 | the top rows are in descending booking count |
| AdminPage.TopFiveBest | frontend/js/admin.js:472 | every row shown has at least as many bookings as every row left out |
| AdminPage.SortedSplit | frontend/js/admin.js:472 | in a list sorted by descending count, a row before a cut has at least the count of a row after it |
| AdminPage.RenderPopular | frontend/js/admin.js:456-495 | "No booking data" exactly for no resources; otherwise one to five rows, each bar at least 5 wide |
| AdminPage.RenderUsageBars | frontend/js/admin.js:497-533 | "No utilization data" exactly for no resources; otherwise one bar per resource |
| AdminPage.UsageBarsOrdered | frontend/js/admin.js:511-528 | the bars come in descending percentage, each at least 2 and at least its percentage wide, and they are a permutation of the resources |
| AdminPage.CapitalizeFirst | frontend/js/admin.js:545-548 | same length; the first character upper-cased and the rest unchanged, "" for "" |
| AdminPage.CapitalizeIdempotent | frontend/js/admin.js:545-548 | capitalising twice is capitalising once |
| AdminPage.PendingLabelCount | frontend/js/admin.js:410 | the label starts with the count, which reads back |
| AdminPage.PendingLabelPlural | frontend/js/admin.js:410 | the label says "bookings" exactly when the count is not 1 |
| Search.EscapeRegExp | search.js:7-9 | escaping never shortens the query, and an escaped text starts with a backslash or a non-special character |
| Search.EscapeRoundTrip | search.js:7-9 | the escaped pattern reads back, backslash by backslash, as exactly the query typed: the regular expression looks for the query literally |
| Search.EscapedHasNoBareSpecial | search.js:8 | in the escaped pattern every special character other than the backslash is preceded by a backslash |
| Search.RunEnd | search.js:30 | the separator `\s+` is the whole run of white space: every character up to the end is white space and the next one is not |
| Search.SplitFrom | search.js:30 | the split always yields at least one piece |
| Search.Sentences | search.js:30 | the page text always yields at least one sentence |
| Search.PieceHasNoSplit | search.js:30 | a piece read up to the next separator holds no terminator followed by white space |
| Search.SplitPieces | search.js:30 | every piece is free of the separator, and every piece but the last ends with `.`, `!` or `?`, which the look-behind keeps |
| Search.SplitDropsOnlySpace | search.js:30 | joining the pieces back loses only white space: their non-space characters are those of the text, in order |
| Search.DropSpaceRun | search.js:30 | a dropped separator holds no non-space character |
| Search.SentencesOfPage | search.js:23-30 | the sentences of the page are well split and together keep all of the page's non-space text, in order |
| Search.Matches | search.js:33-34 | at most ten matches; they are the first matching sentences in page order, and all of them when fewer than ten match |
| Search.MatchesContainQuery | search.js:34 | each match is a sentence of the page whose lower-cased text contains the lower-cased query |
| Search.NoMatches | search.js:34-36 | there is no match exactly when no sentence contains the query, letter case aside |
| Search.Highlight | search.js:45 | marking never shortens a sentence |
| Search.MatchesAtFrontLower | search.js:42-45 | the case-insensitive pattern matches at the front of a text exactly when the lower-cased query starts the lower-cased text |
| Search.HighlightUnchanged | search.js:42-45 | a sentence comes back unchanged exactly when it does not contain the query, letter case aside |
| Search.HighlightFirst | search.js:42-45 | the text before the first occurrence is untouched, the occurrence is wrapped in `<mark>` keeping its own letter case, and the rest is highlighted the same way after it |
| Search.LowerTail | search.js:33 | lower-casing works character by character |
| Search.Lines | search.js:44-47 | one line per match |
| Search.AppendLines | search.js:44-47 | the `forEach` of `+=` leaves the starting text followed by one bullet line per match, in order |
| Search.BuildResultsHtml | search.js:43-47 | the box holds the header counting the matches, then the matches' lines in order |
| Search.SearchOutcome | search.js:14-49 | an empty trimmed query shows the prompt; otherwise "No results found." appears exactly when no sentence contains the query, and else the header with the number of matches followed by one highlighted line per match |
| Search.PromptOnlyForEmpty | search.js:24-27 | the prompt to enter a term is shown if and only if the trimmed query is empty |
| Search.NoResultsIsNotPrompt | search.js:25 | the two fixed messages differ (also search.js:37) |
| Search.ResultsAreNotPrompt | search.js:25 | a results box is never the prompt (also search.js:43) |
| Search.HeaderCount | search.js:43-47 | the number in the header reads back as the number of result lines |
| Search.NumberAfter | search.js:43 | a count written between text and a non-digit reads back as that count |
| Text.Lower | search.js:33 | `toLowerCase` keeps the length and maps every character on its own, ASCII letters to lower case (also frontend/js/booking.js:150) |
| Text.LowerAppend | search.js:34 | lower-casing two texts one after the other is lower-casing each |
| Text.IndexOf | frontend/js/booking.js:165 | the first position of the character, or the length when there is none (also frontend/js/admin.js:201) |
| Text.TrimStart | search.js:14 | what is dropped from the front is white space, and what remains does not start with white space |
| Text.TrimEnd | search.js:14 | what is dropped from the end is white space, and what remains does not end with white space |
| Text.Trim | search.js:14 | `trim()` leaves no white space at either end, and is empty exactly for text that is all white space (also frontend/js/booking.js:163) |
| Text.NatToString | search.js:43 | a count is written as one or more decimal digits, one digit exactly below 10 (also frontend/js/admin.js:410) |
| Text.NatToStringRoundTrip | search.js:43 | a written count reads back as itself |
| Text.NatToStringInjective | frontend/js/booking.js:157 | different numbers are written differently |
| Text.IntToString | frontend/js/admin.js:205 | a negative number is written with a leading '-' (also frontend/js/booking.js:264) |
| Text.Pad2 | frontend/js/booking.js:157 | `padStart(2, '0')`: at least two digits, exactly two reading back as the number below 100, unchanged from 10 up (also frontend/js/booking.js:262-263) |
| Text.ParseInt | frontend/js/admin.js:202 | `parseInt` without a radix of a text of decimal digits is their value |
| Text.ParseIntHex | frontend/js/admin.js:202 | `parseInt` without a radix reads the digits after "0x" or "0X" in base sixteen, and "0x" with no hexadecimal digit after it is NaN |
| Text.Upper | frontend/js/booking.js:119 | `toUpperCase` keeps the length and upper-cases each ASCII letter |
| Text.ContainsInfix | frontend/js/booking.js:198 | `includes` finds any middle part of a text |
| Seqs.FirstWith | backend/models/resourceModel.js:12-15 | the first element with the key, and none exactly when no element has it (also backend/controllers/userController.js:40-47, backend/routes/adminRoute.js:70-73) |
| Seqs.Filter | backend/models/bookingModel.js:44-47 | `WHERE` and `filter` keep exactly the elements that satisfy the condition, never more than there were (also search.js:34) |
| Seqs.FilterAppend | search.js:34 | filtering two parts one after the other is filtering each |
| Seqs.FilterFirst | frontend/js/admin.js:174-178 | the first element kept is the first element that satisfies the condition |
| Seqs.SortBy | backend/models/bookingModel.js:48 | `ORDER BY` and `sort` return a permutation of their input (also frontend/js/admin.js:472) |
| Seqs.SortBySorted | backend/models/bookingModel.js:48 | under a total order the result is sorted (also frontend/js/admin.js:472) |
| Seqs.FilterSorted | backend/models/bookingModel.js:44-48 | a filter of a sorted list is sorted |
| Seqs.Count | backend/routes/adminRoutes.js:211-229 | `?` occurs in a text exactly when it is counted there at least once |
| Seqs.CountBetween | backend/routes/adminRoutes.js:199-231 | occurrences in a middle part framed by parts without any are those of the middle part |

## Left out

- HTTP wiring is not modelled: the route tables, CORS, the session middleware and the 404/500 wrapper in backend/controllers/resourceController.js. The model starts at each handler's body.
- The `catch` branches that answer 500 "Server error" in the routers and controllers are not modelled, because a failing database call is outside the model. Nor is the `req.session.save` error callback of `loginUser`, which answers 500 "Login failed - session error" (backend/controllers/authController.js:107-113), because the session store is outside the model. The booking controller is the exception: there a throwing call is a parameter, because passing it to `next` is part of that handler's contract.
- backend/middleware/auth.js is not part of this model. `AdminRoutePg`'s handlers start after the router-level `authenticateToken, isAdmin` gate at backend/routes/adminRoute.js:7.
- AuthController.FindByEmail: compares emails exactly. MySQL's default collation compares text without regard to case, so the real table also treats "A@x" and "a@x" as the same email. The model's unique-email invariant is therefore weaker than the database's.
- The database drivers and the schema probe are not modelled. SQL is read as table semantics: `WHERE` is a filter, `JOIN` an existence test, `COUNT(*)` a length and `ORDER BY` a stable sort.
- `ORDER BY` does not fix the order between rows that tie on the sort key. The model chooses one order, the input order, where the database may choose another.
- The SQL text of the all-bookings query is compared up to white space. The template literal's line breaks and indentation appear as single spaces.
- The session cookie and `req.session.destroy` are not modelled, so the logout handlers are missing (backend/controllers/authController.js:136-145 and backend/controllers/userController.js:78-86). The session is a value passed to the handlers and returned from them.
- The plain user listings `GET /users` (backend/routes/adminRoutes.js:242-254, backend/routes/adminRoute.js:212-224) are not modelled. They are a single unfiltered `SELECT ... ORDER BY` of columns.
- AdminRoutes.DashboardStats, AdminRoutes.PendingBookings, AdminRoutes.Utilisation: `router.use(requireAdmin)` (backend/routes/adminRoutes.js:19) runs the gate before every route. These three functions model only what the handler answers once the gate has passed; a caller who fails it gets `RequireAdmin`'s 401 or 403 instead. `Decide` and `UpdateUserRole` take the session and apply the gate themselves.
- BookingPage.NameText: the name cell's markup is read as text. A type or name that holds HTML markup or entities has a different `textContent`, and this is not modelled.
- BookingController.GetBookings, BookingController.CreateBooking, BookingController.CancelBooking: as written, each handler fails. It calls `Booking.findByFilters`, `Booking.create` or `Booking.cancel`, which backend/models/bookingModel.js:81-87 does not export, and `checkConflict(booking)` binds undefined fields. So every call throws into `next`. The model maps the calls onto the model's own operations instead: `findByFilters` onto an abstract lookup function that is a parameter, `create` onto `createBooking`, and `cancel(id)` onto `cancelBooking(id, actingUser)`. The acting user is an input that the source never passes.
- AdminRoutePg.TypeView: the Postgres router's users table has `first_name` and `last_name` where the model's user row has one full name. The view's one name stands for both.
- The schema is not part of this model, so its NOT NULL constraints are unknown. ResourceModel stores a bound `null` as NULL where the table might refuse it.
- bcrypt is not modelled: `hash` is an uninterpreted function and `compare` an uninterpreted relation.
- Concurrency is not modelled. Two concurrent requests can both pass the check-then-insert at backend/controllers/bookingController.js:16-19. The model handles requests one at a time, and the no-overlap results hold only under that assumption.
- Percentages are exact rationals rounded half up. JavaScript's floating point can differ at an exact .5.
- Locale and time-zone formatting are not modelled: `toLocaleDateString`, `Date` arithmetic, and the `DATE_FORMAT`/`TO_CHAR` strings of `weekRange`. The display range is a pair of day numbers.
- The DOM is not modelled: `fetch`, alerts, redirects, `innerHTML`, the results box of `showResultsBox` (search.js:52-73), the category filter that toggles row visibility (frontend/js/booking.js:227-257), `escapeHtml` (frontend/js/admin.js:538-543), and the polling with `setInterval`. The pages are modelled as the values they would render.
- Text.Lower: maps ASCII letters only, while `toLowerCase`, `toUpperCase` and the `i` flag fold all of Unicode.
- Search.MatchesAtFront: replaces the regular-expression engine. `new RegExp(escapeRegExp(query), "gi")` is read as a case-insensitive literal search, which `Search.EscapeRoundTrip` and `Search.EscapedHasNoBareSpecial` justify. Replacement is modelled left to right without overlaps, as `g` does.
- Search.SplitFrom: models `split(/(?<=[.!?])\s+/)` as a scan. JavaScript white space (`\s`) is the set in `Text.IsSpace`.
- AdminPage.SortedDays: models the default `sort()`, which compares numbers as decimal text and places `undefined` last. It is proved ascending only for weekday numbers 0-6; for other numbers only the permutation is stated.
- AdminPage.EditShowsSavedForm: proves only the page's own save and restore steps. Against the modelled server the round trip does not happen. The form's body names the resource's type `category`, so createResource and updateResource bind an undefined `type` and refuse it (`AdminPage.FormBodyRefused`). No backend file in the model stores or returns `availability` either. backend/routes/resourceRoutes.js is not part of this model.
- BookingPage.NormalizeIdempotent: requires the normalised hour to stay below 100, because `padStart` does not cut a longer hour.
- AdminPage.Hour12: for a negative hour it states only the range of the result, not its exact value.
- Object-prototype keys such as `"constructor"` are not modelled. `table[key] || fallback` is read as an ordinary dictionary lookup.
- The bullet of each search result is kept exactly as the script's text holds it. Those are the UTF-8 bytes of "•" read as Windows-1252 ("â€¢"), so the model does not repair the encoding.

## Findings

| source | as written | input that shows it | evidently intended | confidence | as-written member | corrected member |
|---|---|---|---|---|---|---|
| backend/controllers/authController.js:99-104, backend/routes/adminRoutes.js:12-13 | the login session record has no `role`, and `requireAdmin` tests `req.session.user.role !== 'admin'` | any successful login, admins included, then any admin route: 403 "Admin access required" | the session carries the account's role, so admins pass and everyone else gets 403 | high (not executed) | AdminRoutes.LoginSessionNeverAdmin | AdminRoutes.RoleSessionGate, AuthController.SessionRecordWithRole |
| backend/routes/adminRoutes.js:83-86 | approve updates by id whatever the status | booking 1 is cancelled; booking 2 takes the same slot, because a cancelled row does not conflict; approving booking 1 makes two live bookings overlap | only pending bookings can be approved or rejected | medium (not executed) | AdminRoutes.ApproveCancelledBreaksNoOverlap | AdminRoutes.DecidePending |
| frontend/js/admin.js:188-194 | five days that include 1 and 5 are printed "Mon-Fri", and any seven entries "Mon-Sun" | Sunday, Monday, Wednesday, Friday and Saturday print as "Mon-Fri" | "Mon-Fri" only for Monday to Friday, "Mon-Sun" only for all seven days | high (not executed) | AdminPage.FiveDaysWithSunday, AdminPage.MonFriAsWritten | AdminPage.DayTextFixed |
| frontend/js/booking.js:198 | a booking goes to the first row whose name text contains the resource name | rows "Room 10" and "Room 1", in that order: a booking for "Room 1" marks the "Room 10" row | a booking goes to the row of its own resource | medium (not executed) | BookingPage.RowByText, BookingPage.RowByTextPicksLongerName, BookingPage.PageRowPicksLongerName, BookingPage.RenderBookings, BookingPage.RenderBookingsMeaning | BookingPage.RowByName, BookingPage.RenderBookingsFixed, BookingPage.RenderBookingsFixedMeaning |
