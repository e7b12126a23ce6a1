/** The all-bookings listing of both admin routers: the optional filters,
    the two query builders (MySQL `?` placeholders in
    backend/routes/adminRoutes.js, Postgres `$n` placeholders in
    backend/routes/adminRoute.js) and what the query selects. */
module AllBookingsQuery {

  import opened Common
  import opened Seqs
  import opened Text
  import opened BookingModel
  import opened AllBookingsSql

  /** The four query parameters, "" when absent (the only falsy string). */
  datatype BookingFilters = BookingFilters(status: string, startDate: string, endDate: string, resourceId: string)

  /** The supplied filters, in the order the handler tests them. */
  function Conditions(f: BookingFilters): (r: seq<Cond>)
    ensures |r| <= 4
    ensures StatusIs(f.status) in r <==> f.status != ""
    ensures DateFrom(f.startDate) in r <==> f.startDate != ""
    ensures DateTo(f.endDate) in r <==> f.endDate != ""
    ensures ResourceIs(f.resourceId) in r <==> f.resourceId != ""
    ensures forall c :: c in r ==> c in [StatusIs(f.status), DateFrom(f.startDate), DateTo(f.endDate), ResourceIs(f.resourceId)]
  {
    StatusPart(f) + StartPart(f) + EndPart(f) + ResourcePart(f)
  }

  function StatusPart(f: BookingFilters): (r: seq<Cond>)
    ensures forall c :: c in r ==> c.StatusIs?
  {
    if f.status != "" then [StatusIs(f.status)] else []
  }

  function StartPart(f: BookingFilters): (r: seq<Cond>)
    ensures forall c :: c in r ==> c.DateFrom?
  {
    if f.startDate != "" then [DateFrom(f.startDate)] else []
  }

  function EndPart(f: BookingFilters): (r: seq<Cond>)
    ensures forall c :: c in r ==> c.DateTo?
  {
    if f.endDate != "" then [DateTo(f.endDate)] else []
  }

  function ResourcePart(f: BookingFilters): (r: seq<Cond>)
    ensures forall c :: c in r ==> c.ResourceIs?
  {
    if f.resourceId != "" then [ResourceIs(f.resourceId)] else []
  }

  function Values(conds: seq<Cond>): (r: seq<string>)
    ensures |r| == |conds| && forall k :: 0 <= k < |r| ==> r[k] == conds[k].value
  {
    seq(|conds|, k requires 0 <= k < |conds| => conds[k].value)
  }

  /** The clauses of `conds`, in order. */
  function Render(conds: seq<Cond>): string {
    if conds == [] then "" else Clause(conds[0]) + Render(conds[1..])
  }

  lemma {:induction false} RenderPlaceholders(conds: seq<Cond>)
    ensures Count('?', Render(conds)) == |conds|
  {
    if conds != [] {
      RenderPlaceholders(conds[1..]);
      CondPrefixFree(conds[0]);
      CountAppend('?', CondPrefix(conds[0]), "?");
      CountAppend('?', Clause(conds[0]), Render(conds[1..]));
    }
  }

  /** Appending a condition appends its clause. */
  lemma {:induction false} RenderSnoc(conds: seq<Cond>, c: Cond)
    ensures Render(conds + [c]) == Render(conds) + Clause(c)
  {
    if conds == [] {
      assert conds + [c] == [c] && [c][1..] == [];
      assert Clause(c) + "" == Clause(c);
    } else {
      assert (conds + [c])[0] == conds[0];
      assert (conds + [c])[1..] == conds[1..] + [c];
      RenderSnoc(conds[1..], c);
      AppendAssoc(Clause(conds[0]), Render(conds[1..]), Clause(c));
    }
  }

  /** The MySQL builder (backend/routes/adminRoutes.js): one clause and one parameter per
      supplied filter, in the order status, startDate, endDate, resourceId;
      the query holds exactly as many `?` as there are parameters. */
  method BuildAllBookingsQuery(f: BookingFilters) returns (query: string, params: seq<string>)
    ensures query == BaseQuery + Render(Conditions(f)) + OrderClause
    ensures params == Values(Conditions(f))
    ensures Count('?', query) == |params|
  {
    var clauses;
    clauses, params := FilterClauses(f);
    query := BaseQuery + clauses;
    QueryPlaceholders(Conditions(f));
    query := query + OrderClause;
  }

  /** The four `if`s of the MySQL builder: what they append to the query
      and push onto the parameters, starting from nothing. */
  method FilterClauses(f: BookingFilters) returns (clauses: string, params: seq<string>)
    ensures clauses == Render(Conditions(f)) && params == Values(Conditions(f))
  {
    ghost var conds: seq<Cond> := [];
    clauses := "";
    params := [];
    if f.status != "" {
      RenderSnoc(conds, StatusIs(f.status));
      ValuesSnoc(conds, StatusIs(f.status));
      clauses := clauses + Clause(StatusIs(f.status));
      params := params + [f.status];
      conds := conds + [StatusIs(f.status)];
    }
    assert conds == StatusPart(f);
    if f.startDate != "" {
      RenderSnoc(conds, DateFrom(f.startDate));
      ValuesSnoc(conds, DateFrom(f.startDate));
      clauses := clauses + Clause(DateFrom(f.startDate));
      params := params + [f.startDate];
      conds := conds + [DateFrom(f.startDate)];
    }
    assert conds == StatusPart(f) + StartPart(f);
    if f.endDate != "" {
      RenderSnoc(conds, DateTo(f.endDate));
      ValuesSnoc(conds, DateTo(f.endDate));
      clauses := clauses + Clause(DateTo(f.endDate));
      params := params + [f.endDate];
      conds := conds + [DateTo(f.endDate)];
    }
    assert conds == StatusPart(f) + StartPart(f) + EndPart(f);
    if f.resourceId != "" {
      RenderSnoc(conds, ResourceIs(f.resourceId));
      ValuesSnoc(conds, ResourceIs(f.resourceId));
      clauses := clauses + Clause(ResourceIs(f.resourceId));
      params := params + [f.resourceId];
      conds := conds + [ResourceIs(f.resourceId)];
    }
    assert conds == Conditions(f);
  }

  /** One step of the builder, for the parameter list. */
  lemma ValuesSnoc(conds: seq<Cond>, c: Cond)
    ensures Values(conds + [c]) == Values(conds) + [c.value]
  {
  }

  /** The fixed parts of the query hold no placeholder. */
  lemma QueryPlaceholders(conds: seq<Cond>)
    ensures Count('?', BaseQuery + Render(conds) + OrderClause) == |conds|
  {
    BasePlaceholderFree();
    OrderPlaceholderFree();
    RenderPlaceholders(conds);
    CountBetween('?', BaseQuery, Render(conds), OrderClause);
  }

  // ------------------------------------------------ Postgres `$n` builder

  /** The text one condition appends when its placeholder is `$n`. */
  function PgClause(c: Cond, n: nat): string {
    CondPrefix(c) + "$" + NatToString(n)
  }

  /** The clauses of `conds`, numbered from `first` on. */
  function PgRender(conds: seq<Cond>, first: nat): string {
    if conds == [] then "" else PgClause(conds[0], first) + PgRender(conds[1..], first + 1)
  }

  lemma PgRenderOne(c: Cond, n: nat)
    ensures PgRender([c], n) == PgClause(c, n)
  {
    assert [c][1..] == [];
    assert PgClause(c, n) + "" == PgClause(c, n);
  }

  lemma {:induction false} PgRenderAppend(a: seq<Cond>, b: seq<Cond>, first: nat)
    ensures PgRender(a + b, first) == PgRender(a, first) + PgRender(b, first + |a|)
  {
    if a == [] {
      assert a + b == b;
    } else {
      assert (a + b)[0] == a[0];
      assert (a + b)[1..] == a[1..] + b;
      PgRenderAppend(a[1..], b, first + 1);
      AppendAssoc(PgClause(a[0], first), PgRender(a[1..], first + 1), PgRender(b, first + |a|));
    }
  }

  /** Placeholders are numbered consecutively: the clause of the k-th
      condition (from 0) carries `$(k+1)`, and the k-th parameter is that
      condition's value. */
  lemma PgPlaceholderNumbering(conds: seq<Cond>, k: nat)
    requires k < |conds|
    ensures PgRender(conds, 1) == PgRender(conds[..k], 1) + PgClause(conds[k], k + 1) + PgRender(conds[k + 1..], k + 2)
    ensures PgClause(conds[k], k + 1) == CondPrefix(conds[k]) + "$" + NatToString(k + 1)
    ensures Values(conds)[k] == conds[k].value
  {
    assert conds == conds[..k] + conds[k..];
    PgRenderAppend(conds[..k], conds[k..], 1);
    var rest := conds[k..];
    assert rest[0] == conds[k] && rest[1..] == conds[k + 1..];
    assert PgRender(rest, k + 1) == PgClause(conds[k], k + 1) + PgRender(conds[k + 1..], k + 2);
    assert PgRender(conds[..k], 1) + (PgClause(conds[k], k + 1) + PgRender(conds[k + 1..], k + 2))
        == PgRender(conds[..k], 1) + PgClause(conds[k], k + 1) + PgRender(conds[k + 1..], k + 2);
  }

  /** Different conditions get different placeholders. */
  lemma PgPlaceholdersDistinct(j: nat, k: nat)
    requires j != k
    ensures "$" + NatToString(j + 1) != "$" + NatToString(k + 1)
  {
    if "$" + NatToString(j + 1) == "$" + NatToString(k + 1) {
      assert NatToString(j + 1) == ("$" + NatToString(j + 1))[1..];
      NatToStringInjective(j + 1, k + 1);
    }
  }

  lemma {:induction false} PgRenderMarks(conds: seq<Cond>, first: nat)
    ensures Count('$', PgRender(conds, first)) == |conds|
  {
    if conds != [] {
      PgRenderMarks(conds[1..], first + 1);
      CondPrefixFree(conds[0]);
      var d := NatToString(first);
      assert forall i :: 0 <= i < |d| ==> d[i] != '$';
      assert '$' !in d;
      CountBetween('$', CondPrefix(conds[0]), "$", d);
      CountAppend('$', PgClause(conds[0], first), PgRender(conds[1..], first + 1));
    }
  }

  /** The Postgres builder (backend/routes/adminRoute.js): `paramCount`
      starts at 1 and is always one past the number of parameters, so the
      supplied filters get `$1 .. $n` in the order status, startDate,
      endDate, resourceId, and the query holds one `$` per parameter. */
  method BuildAllBookingsQueryPg(f: BookingFilters) returns (query: string, params: seq<string>)
    ensures query == PgBaseQuery + PgRender(Conditions(f), 1) + OrderClause
    ensures params == Values(Conditions(f))
    ensures Count('$', query) == |params|
  {
    var clauses;
    clauses, params := PgFilterClauses(f);
    query := PgBaseQuery + clauses;
    PgQueryMarks(Conditions(f));
    query := query + OrderClause;
  }

  /** The four `if`s of the Postgres builder, starting from nothing and
      `paramCount` 1. */
  method PgFilterClauses(f: BookingFilters) returns (clauses: string, params: seq<string>)
    ensures clauses == PgRender(Conditions(f), 1) && params == Values(Conditions(f))
  {
    ghost var conds: seq<Cond> := [];
    clauses := "";
    params := [];
    var paramCount: nat := 1;
    if f.status != "" {
      clauses, params, paramCount := PgAppend(clauses, params, paramCount, StatusIs(f.status), conds);
      conds := conds + [StatusIs(f.status)];
    }
    assert conds == StatusPart(f);
    if f.startDate != "" {
      clauses, params, paramCount := PgAppend(clauses, params, paramCount, DateFrom(f.startDate), conds);
      conds := conds + [DateFrom(f.startDate)];
    }
    assert conds == StatusPart(f) + StartPart(f);
    if f.endDate != "" {
      clauses, params, paramCount := PgAppend(clauses, params, paramCount, DateTo(f.endDate), conds);
      conds := conds + [DateTo(f.endDate)];
    }
    assert conds == StatusPart(f) + StartPart(f) + EndPart(f);
    if f.resourceId != "" {
      clauses, params, paramCount := PgAppend(clauses, params, paramCount, ResourceIs(f.resourceId), conds);
      conds := conds + [ResourceIs(f.resourceId)];
    }
    assert conds == Conditions(f);
  }

  /** One `if` of the Postgres builder: append the clause numbered
      `paramCount`, push the value, count one more. */
  method PgAppend(clauses: string, params: seq<string>, paramCount: nat, c: Cond, ghost conds: seq<Cond>)
    returns (clauses': string, params': seq<string>, paramCount': nat)
    requires clauses == PgRender(conds, 1) && params == Values(conds) && paramCount == |conds| + 1
    ensures clauses' == PgRender(conds + [c], 1) && params' == Values(conds + [c])
    ensures paramCount' == |conds + [c]| + 1
  {
    PgSnoc(conds, c);
    ValuesSnoc(conds, c);
    clauses' := clauses + PgClause(c, paramCount);
    params' := params + [c.value];
    paramCount' := paramCount + 1;
  }

  /** One step of the Postgres builder. */
  lemma PgSnoc(conds: seq<Cond>, c: Cond)
    ensures PgRender(conds + [c], 1) == PgRender(conds, 1) + PgClause(c, |conds| + 1)
  {
    PgRenderAppend(conds, [c], 1);
    PgRenderOne(c, |conds| + 1);
  }

  lemma PgQueryMarks(conds: seq<Cond>)
    ensures Count('$', PgBaseQuery + PgRender(conds, 1) + OrderClause) == |conds|
  {
    PgBaseMarkFree();
    OrderPlaceholderFree();
    PgRenderMarks(conds, 1);
    CountBetween('$', PgBaseQuery, PgRender(conds, 1), OrderClause);
  }

  // ------------------------------------------------------- semantics

  /** How the database reads a bound value, which arrives as text: as a
      date (a day number) or as a number; and how its `=` compares two
      texts, which depends on the column's collation (MySQL's default one
      ignores letter case, Postgres compares exactly). */
  datatype Coercions = Coercions(asDate: string -> int, asNumber: string -> int, sameText: (string, string) -> bool)

  /** One condition on one row. */
  predicate Holds(b: Booking, c: Cond, k: Coercions) {
    match c
    case StatusIs(v) => k.sameText(StatusName(b.status), v)
    case DateFrom(v) => b.date >= k.asDate(v)
    case DateTo(v) => b.date <= k.asDate(v)
    case ResourceIs(v) => b.resourceId == k.asNumber(v)
  }

  /** `WHERE 1=1 AND c1 AND c2 ...`. */
  predicate HoldsAll(b: Booking, conds: seq<Cond>, k: Coercions) {
    forall i :: 0 <= i < |conds| ==> Holds(b, conds[i], k)
  }

  /** The filters read directly: every supplied one holds. */
  predicate MatchesFilters(b: Booking, f: BookingFilters, k: Coercions) {
    && (f.status != "" ==> k.sameText(StatusName(b.status), f.status))
    && (f.startDate != "" ==> b.date >= k.asDate(f.startDate))
    && (f.endDate != "" ==> b.date <= k.asDate(f.endDate))
    && (f.resourceId != "" ==> b.resourceId == k.asNumber(f.resourceId))
  }

  /** The built conditions mean exactly the AND of the supplied filters. */
  lemma ConditionsMeanFilters(b: Booking, f: BookingFilters, k: Coercions)
    ensures HoldsAll(b, Conditions(f), k) <==> MatchesFilters(b, f, k)
  {
    HoldsAllAppend(b, StatusPart(f), StartPart(f), k);
    HoldsAllAppend(b, StatusPart(f) + StartPart(f), EndPart(f), k);
    HoldsAllAppend(b, StatusPart(f) + StartPart(f) + EndPart(f), ResourcePart(f), k);
    HoldsAllOne(b, StatusIs(f.status), k);
    HoldsAllOne(b, DateFrom(f.startDate), k);
    HoldsAllOne(b, DateTo(f.endDate), k);
    HoldsAllOne(b, ResourceIs(f.resourceId), k);
  }

  /** `AND` over two lists of conditions one after the other. */
  lemma HoldsAllAppend(b: Booking, xs: seq<Cond>, ys: seq<Cond>, k: Coercions)
    ensures HoldsAll(b, xs + ys, k) <==> HoldsAll(b, xs, k) && HoldsAll(b, ys, k)
  {
    if HoldsAll(b, xs + ys, k) {
      forall i | 0 <= i < |xs| ensures Holds(b, xs[i], k) {
        assert (xs + ys)[i] == xs[i];
      }
      forall i | 0 <= i < |ys| ensures Holds(b, ys[i], k) {
        assert (xs + ys)[|xs| + i] == ys[i];
      }
    }
  }

  /** MySQL's default collation on ASCII letters: texts equal up to letter
      case. */
  predicate CaseInsensitiveEq(a: string, b: string) {
    Lower(a) == Lower(b)
  }

  /** `?status=Approved` lists the approved rows under a case-insensitive
      collation, as on MySQL, and none under an exact comparison, as on
      Postgres. */
  lemma StatusFilterCollation(b: Booking, k: Coercions)
    requires b.status == Approved
    ensures (forall x, y :: k.sameText(x, y) == CaseInsensitiveEq(x, y)) ==> Holds(b, StatusIs("Approved"), k)
    ensures (forall x, y :: k.sameText(x, y) == (x == y)) ==> !Holds(b, StatusIs("Approved"), k)
  {
    assert Lower("Approved") == "approved";
    assert "Approved" != "approved";
  }

  lemma HoldsAllOne(b: Booking, c: Cond, k: Coercions)
    ensures HoldsAll(b, [c], k) <==> Holds(b, c, k)
  {
    assert [c][0] == c;
  }

  function AllSelector(f: BookingFilters, k: Coercions, userIds: set<int>, resourceIds: set<int>): Booking -> bool {
    (b: Booking) => Joined(b, userIds, resourceIds) && HoldsAll(b, Conditions(f), k)
  }

  /** `GET /all-bookings`: the joined rows that meet every supplied filter,
      newest first. */
  function AllBookings(rows: seq<Booking>, f: BookingFilters, k: Coercions, userIds: set<int>, resourceIds: set<int>): (r: seq<Booking>)
    ensures forall b :: b in r <==> b in rows && Joined(b, userIds, resourceIds) && MatchesFilters(b, f, k)
    ensures multiset(r) == multiset(Filter(rows, AllSelector(f, k, userIds, resourceIds)))
    ensures Sorted(r, NewerFirst)
  {
    var sel := AllSelector(f, k, userIds, resourceIds);
    var picked := Filter(rows, sel);
    forall b ensures sel(b) <==> Joined(b, userIds, resourceIds) && MatchesFilters(b, f, k) {
      ConditionsMeanFilters(b, f, k);
    }
    NewerFirstIsTotalPreorder();
    SortBySorted(picked, NewerFirst);
    var r := SortBy(picked, NewerFirst);
    assert forall b :: b in r <==> b in multiset(r);
    r
  }

  /** With no filter supplied, every joined row comes back. */
  lemma NoFiltersListsEverything(rows: seq<Booking>, k: Coercions, userIds: set<int>, resourceIds: set<int>)
    ensures var r := AllBookings(rows, BookingFilters("", "", "", ""), k, userIds, resourceIds);
      forall b :: b in r <==> b in rows && Joined(b, userIds, resourceIds)
  {
  }

}
