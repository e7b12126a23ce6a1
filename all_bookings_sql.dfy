/** The SQL text of the all-bookings query: the fixed head and tail and
    the clause each filter adds. */
module AllBookingsSql {

  /** One `AND` condition of the `WHERE` clause with its bound value. */
  datatype Cond = StatusIs(value: string) | DateFrom(value: string) | DateTo(value: string) | ResourceIs(value: string)

  /** The column test of a condition, up to its placeholder. */
  function CondPrefix(c: Cond): string {
    match c
    case StatusIs(_) => " AND b.status = "
    case DateFrom(_) => " AND b.booking_date >= "
    case DateTo(_) => " AND b.booking_date <= "
    case ResourceIs(_) => " AND b.resource_id = "
  }

  /** The column tests hold neither placeholder mark. */
  lemma CondPrefixFree(c: Cond)
    ensures '?' !in CondPrefix(c) && '$' !in CondPrefix(c)
  {
    IdTestsFree('?');
    IdTestsFree('$');
    DateTestsFree('?');
    DateTestsFree('$');
  }

  lemma IdTestsFree(m: char)
    requires m == '?' || m == '$'
    ensures m !in " AND b.status = " && m !in " AND b.resource_id = "
  {
  }

  lemma DateTestsFree(m: char)
    requires m == '?' || m == '$'
    ensures m !in " AND b.booking_date >= " && m !in " AND b.booking_date <= "
  {
  }

  /** The text one condition appends to the query. */
  function Clause(c: Cond): (s: string)
    ensures s == CondPrefix(c) + "?"
  {
    match c
    case StatusIs(_) => " AND b.status = ?"
    case DateFrom(_) => " AND b.booking_date >= ?"
    case DateTo(_) => " AND b.booking_date <= ?"
    case ResourceIs(_) => " AND b.resource_id = ?"
  }

  const BaseQuery: string := "SELECT b.*, u.full_name, " + "u.email, u.student_id, "
    + "r.name as resource_name, " + "r.location "
    + "FROM bookings b "
    + "JOIN users u " + "ON b.user_id = u.id "
    + "JOIN resources r " + "ON b.resource_id = r.id "
    + "WHERE 1=1"
  const OrderClause: string := " ORDER BY b.booking_date" + " DESC, b.start_time DESC"

  /** Only the clauses bind values: the fixed text has no placeholder. */
  lemma BasePlaceholderFree()
    ensures '?' !in BaseQuery
  {
    SelectFree();
    SharedFree('?');
    JoinsFree();
  }

  lemma SelectFree()
    ensures '?' !in "SELECT b.*, u.full_name, " && '?' !in "u.email, u.student_id, "
  {
  }

  lemma JoinsFree()
    ensures '?' !in "ON b.user_id = u.id " && '?' !in "ON b.resource_id = r.id "
  {
  }

  /** The pieces both base queries share hold neither placeholder mark. */
  lemma SharedFree(c: char)
    requires c == '?' || c == '$'
    ensures c !in "r.name as resource_name, " && c !in "r.location " && c !in "FROM bookings b "
    ensures c !in "JOIN users u " && c !in "JOIN resources r " && c !in "WHERE 1=1"
  {
    SharedNameFree(c);
    SharedJoinFree(c);
  }

  lemma SharedNameFree(c: char)
    requires c == '?' || c == '$'
    ensures c !in "r.name as resource_name, " && c !in "r.location "
  {
  }

  lemma SharedJoinFree(c: char)
    requires c == '?' || c == '$'
    ensures c !in "FROM bookings b " && c !in "JOIN users u " && c !in "JOIN resources r " && c !in "WHERE 1=1"
  {
  }

  lemma OrderPlaceholderFree()
    ensures '?' !in OrderClause && '$' !in OrderClause
  {
    OrderPiecesFree('?');
    OrderPiecesFree('$');
  }

  lemma OrderPiecesFree(m: char)
    requires m == '?' || m == '$'
    ensures m !in " ORDER BY b.booking_date" && m !in " DESC, b.start_time DESC"
  {
  }

  const PgBaseQuery: string := "SELECT b.*, u.first_name, " + "u.last_name, u.email, "
    + "r.name as resource_name, " + "r.location "
    + "FROM bookings b "
    + "JOIN users u " + "ON b.user_id = u.user_id "
    + "JOIN resources r " + "ON b.resource_id = " + "r.resource_id "
    + "WHERE 1=1"

  lemma PgBaseMarkFree()
    ensures '$' !in PgBaseQuery
  {
    PgSelectFree();
    SharedFree('$');
    PgJoinsFree();
  }

  lemma PgSelectFree()
    ensures '$' !in "SELECT b.*, u.first_name, " && '$' !in "u.last_name, u.email, "
  {
  }

  lemma PgJoinsFree()
    ensures '$' !in "ON b.user_id = u.user_id " && '$' !in "ON b.resource_id = " && '$' !in "r.resource_id "
  {
  }
}
