/** The `resources` table (backend/models/resourceModel.js). */
module ResourceModel {

  import opened Common
  import opened Seqs

  /** One row of `resources`; every column but `id` is NULL-able. */
  datatype Resource = Resource(id: nat, name: Option<string>, kind: Option<string>, location: Option<string>,
                               capacity: Option<int>, status: Option<string>)

  /** The fields createResource and updateResource destructure. */
  datatype ResourceInput = ResourceInput(name: JsField<string>, kind: JsField<string>, location: JsField<string>,
                                         capacity: JsField<int>, status: JsField<string>)

  /** The column a bind value stores: `null` is NULL. `undefined` is not a
      bind value at all (the driver throws on it), hence the requires. */
  function BindValue<T>(f: JsField<T>): (r: Option<T>)
    requires !f.Undefined?
    ensures r.None? <==> f.Null?
    ensures f.Given? ==> r == Some(f.value)
  {
    match f
    case Given(v) => Some(v)
    case Null => None
  }

  /** `status || 'available'`: undefined, null and "" are falsy. */
  function DefaultStatus(status: JsField<string>): (r: string)
    ensures (status.Given? && status.value != "") ==> r == status.value
    ensures !(status.Given? && status.value != "") ==> r == "available"
  {
    if status.Given? && status.value != "" then status.value else "available"
  }

  /** `capacity !== undefined ? capacity : null`: only `undefined` is replaced,
      so 0 and null are stored as given. */
  function DefaultCapacity(c: JsField<int>): (r: Option<int>)
    ensures c.Given? <==> r.Some?
    ensures c.Given? ==> r.value == c.value
  {
    if c.Undefined? then None else BindValue(c)
  }

  /** createResource binds name, type and location as given; the other two
      are defaulted first and are never undefined. */
  predicate CreateBindsUndefined(input: ResourceInput) {
    input.name.Undefined? || input.kind.Undefined? || input.location.Undefined?
  }

  /** updateResource binds all five fields as given. */
  predicate UpdateBindsUndefined(input: ResourceInput) {
    CreateBindsUndefined(input) || input.capacity.Undefined? || input.status.Undefined?
  }

  /** The row createResource inserts. */
  function CreatedRow(id: nat, input: ResourceInput): Resource
    requires !CreateBindsUndefined(input)
  {
    Resource(id, BindValue(input.name), BindValue(input.kind), BindValue(input.location),
             DefaultCapacity(input.capacity), Some(DefaultStatus(input.status)))
  }

  /** The row updateResource writes: every field as given, no defaults. */
  function UpdatedRow(id: nat, input: ResourceInput): Resource
    requires !UpdateBindsUndefined(input)
  {
    Resource(id, BindValue(input.name), BindValue(input.kind), BindValue(input.location),
             BindValue(input.capacity), BindValue(input.status))
  }

  /** A created row stores a status, and stores the capacity as given with
      `undefined` read as NULL. */
  lemma CreatedRowDefaults(id: nat, input: ResourceInput)
    requires !CreateBindsUndefined(input)
    ensures CreatedRow(id, input).status.Some? && CreatedRow(id, input).status.value != ""
    ensures CreatedRow(id, input).capacity.Some? <==> input.capacity.Given?
    ensures input.name.Given? ==> CreatedRow(id, input).name == Some(input.name.value)
  {
  }

  /** getResourceById: the row with that id, or null. */
  function GetResourceById(rows: seq<Resource>, id: nat): (r: Option<Resource>)
    ensures r.None? <==> forall i :: 0 <= i < |rows| ==> rows[i].id != id
    ensures r.Some? ==> r.value in rows && r.value.id == id
  {
    FirstWith(rows, (row: Resource) => row.id, id)
  }

  /** With distinct ids, the row found is the one at the position holding that id. */
  lemma GetResourceByIdAt(rows: seq<Resource>, i: nat)
    requires i < |rows|
    requires DistinctIds(rows)
    ensures GetResourceById(rows, rows[i].id) == Some(rows[i])
  {
    var r := GetResourceById(rows, rows[i].id).value;
    var k :| 0 <= k < |rows| && rows[k] == r;
    assert rows[k].id == rows[i].id;
  }

  /** No two rows share an id (the PRIMARY KEY). */
  ghost predicate DistinctIds(rows: seq<Resource>) {
    forall i, j :: 0 <= i < j < |rows| ==> rows[i].id != rows[j].id
  }

  function NotId(id: nat): Resource -> bool {
    (r: Resource) => r.id != id
  }

  /** The in-memory `resources` table and its next AUTO_INCREMENT value. */
  class ResourceTable {
    var rows: seq<Resource>
    var nextId: nat

    ghost predicate Valid()
      reads this
    {
      && (forall i :: 0 <= i < |rows| ==> rows[i].id < nextId)
      && DistinctIds(rows)
    }

    constructor ()
      ensures Valid() && rows == [] && nextId == 1
    {
      rows := [];
      nextId := 1;
    }

    /** getAllResources: every row, in table order. */
    function GetAllResources(): (r: seq<Resource>)
      reads this
      ensures |r| == |rows| && forall i :: 0 <= i < |r| ==> r[i] == rows[i]
    {
      rows
    }

    /** createResource: one new row with the defaults applied; returns its
        id. A name, type or location that is `undefined` makes the driver
        throw before anything is inserted: None, and nothing changes. (The
        admin page's form sends `category` and no `type`, so it reaches this
        case.) */
    method CreateResource(input: ResourceInput) returns (id: Option<nat>)
      requires Valid()
      modifies this
      ensures Valid()
      ensures CreateBindsUndefined(input) <==> id.None?
      ensures id.None? ==> rows == old(rows) && nextId == old(nextId)
      ensures id.Some? ==>
        && id.value == old(nextId) && nextId == id.value + 1
        && rows == old(rows) + [CreatedRow(id.value, input)]
        && GetResourceById(rows, id.value) == Some(rows[|rows| - 1])
    {
      if CreateBindsUndefined(input) {
        return None;
      }
      var newId := nextId;
      rows := rows + [CreatedRow(newId, input)];
      nextId := nextId + 1;
      GetResourceByIdAt(rows, |rows| - 1);
      id := Some(newId);
    }

    /** updateResource: overwrites all five columns of the row with that id,
        with no defaults; true iff the row exists. Any `undefined` field is a
        bind value the driver refuses: None, and nothing changes. */
    method UpdateResource(id: nat, input: ResourceInput) returns (r: Option<bool>)
      requires Valid()
      modifies this
      ensures Valid() && nextId == old(nextId)
      ensures UpdateBindsUndefined(input) <==> r.None?
      ensures r.None? ==> rows == old(rows)
      ensures r.Some? ==> r.value == GetResourceById(old(rows), id).Some?
      ensures |rows| == |old(rows)|
      ensures r.Some? ==> forall i :: 0 <= i < |rows| ==>
        rows[i] == if old(rows)[i].id == id then UpdatedRow(id, input) else old(rows)[i]
    {
      if UpdateBindsUndefined(input) {
        return None;
      }
      var before := rows;
      r := Some(GetResourceById(before, id).Some?);
      var updated := UpdatedRow(id, input);
      rows := seq(|before|, i requires 0 <= i < |before| => if before[i].id == id then updated else before[i]);
    }

    /** deleteResource: removes the row with that id, keeping the others in
        order; true iff one existed. */
    method DeleteResource(id: nat) returns (deleted: bool)
      requires Valid()
      modifies this
      ensures Valid() && nextId == old(nextId)
      ensures deleted <==> GetResourceById(old(rows), id).Some?
      ensures rows == Filter(old(rows), NotId(id))
      ensures GetResourceById(rows, id).None?
      ensures forall r :: r in old(rows) && r.id != id ==> r in rows
      ensures !deleted ==> rows == old(rows)
    {
      deleted := GetResourceById(rows, id).Some?;
      ghost var before := rows;
      rows := Filter(rows, NotId(id));
      FilterKeepsIds(before, id);
      if !deleted {
        FilterAll(before, NotId(id));
      }
    }
  }

  /** Removing one id from a table with distinct ids keeps them distinct,
      keeps only rows of the table, and leaves no row with that id. */
  lemma FilterKeepsIds(rows: seq<Resource>, id: nat)
    requires DistinctIds(rows)
    ensures var r := Filter(rows, NotId(id));
      && DistinctIds(r)
      && (forall i :: 0 <= i < |r| ==> r[i] in rows && r[i].id != id)
  {
    var r := Filter(rows, NotId(id));
    forall i | 0 <= i < |r| ensures r[i] in rows && r[i].id != id {
      assert r[i] in r;
    }
    FilterKeepsDistinctIds(rows, NotId(id));
  }

  /** Filtering a table with distinct ids keeps them distinct. */
  lemma {:induction false} FilterKeepsDistinctIds(rows: seq<Resource>, p: Resource -> bool)
    requires DistinctIds(rows)
    ensures DistinctIds(Filter(rows, p))
  {
    if rows != [] {
      DistinctIdsTail(rows);
      FilterKeepsDistinctIds(rows[1..], p);
      FilterCons(rows, p);
      var rest := Filter(rows[1..], p);
      if p(rows[0]) {
        DistinctIdsCons(rows[0], rest);
      } else {
        assert Filter(rows, p) == rest;
      }
    }
  }

  lemma DistinctIdsTail(rows: seq<Resource>)
    requires rows != [] && DistinctIds(rows)
    ensures DistinctIds(rows[1..])
    ensures forall x :: x in rows[1..] ==> x.id != rows[0].id
  {
    forall x | x in rows[1..] ensures x.id != rows[0].id {
      var m :| 0 <= m < |rows| - 1 && rows[1..][m] == x;
      assert rows[m + 1] == x;
    }
  }

  lemma DistinctIdsCons(x: Resource, rest: seq<Resource>)
    requires DistinctIds(rest) && forall y :: y in rest ==> y.id != x.id
    ensures DistinctIds([x] + rest)
  {
    var r := [x] + rest;
    forall i, j | 0 <= i < j < |r| ensures r[i].id != r[j].id {
      assert r[j] == rest[j - 1];
      if i > 0 {
        assert r[i] == rest[i - 1];
      } else {
        assert rest[j - 1] in rest;
      }
    }
  }
}
