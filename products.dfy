/** The products table: records with a soft-delete mark, the typed form of a
    validated create or update, and the table as an object whose rows the
    controllers change in place. */
module Products {
  import opened Values
  import opened Timestamps

  datatype Product = Product(
    id: nat,
    name: string,
    categoryId: int,
    description: Option<string>,
    price: real,
    stock: int,
    enabled: bool,
    createdAt: DateTime,
    deletedAt: Option<DateTime>)

  /** Not soft-deleted: visible to every default query. */
  predicate Active(p: Product) {
    p.deletedAt.None?
  }

  /** The fields a validated create supplies; `enabled` falls back to the
      column default, true. */
  datatype NewProduct = NewProduct(
    name: string,
    categoryId: int,
    description: Option<string>,
    price: real,
    stock: int,
    enabled: Option<bool>)

  /** The row `Product::create` inserts under the next id at time `now`. */
  function Build(id: nat, input: NewProduct, now: DateTime): (p: Product)
    ensures p.id == id && Active(p) && p.createdAt == now
    ensures p.name == input.name && p.categoryId == input.categoryId && p.description == input.description
    ensures p.price == input.price && p.stock == input.stock
    ensures p.enabled == (input.enabled != Some(false))
  {
    Product(id, input.name, input.categoryId, input.description, input.price, input.stock,
            if input.enabled.Some? then input.enabled.value else true, now, None)
  }

  /** A sparse update: `None` leaves the field as it is. */
  datatype Changes = Changes(
    name: Option<string>,
    categoryId: Option<int>,
    description: Option<Option<string>>,
    price: Option<real>,
    stock: Option<int>,
    enabled: Option<bool>)

  const NoChanges := Changes(None, None, None, None, None, None)

  /** `$product->update($data)`: a supplied field takes the supplied value,
      every other field keeps its value; the id, the creation time and the
      deletion mark never change. */
  function ApplyChanges(p: Product, ch: Changes): (r: Product)
    ensures r.id == p.id && r.createdAt == p.createdAt && r.deletedAt == p.deletedAt
    ensures ch.name.Some? ==> r.name == ch.name.value
    ensures ch.categoryId.Some? ==> r.categoryId == ch.categoryId.value
    ensures ch.description.Some? ==> r.description == ch.description.value
    ensures ch.price.Some? ==> r.price == ch.price.value
    ensures ch.stock.Some? ==> r.stock == ch.stock.value
    ensures ch.enabled.Some? ==> r.enabled == ch.enabled.value
    ensures ch.name.None? ==> r.name == p.name
    ensures ch.categoryId.None? ==> r.categoryId == p.categoryId
    ensures ch.description.None? ==> r.description == p.description
    ensures ch.price.None? ==> r.price == p.price
    ensures ch.stock.None? ==> r.stock == p.stock
    ensures ch.enabled.None? ==> r.enabled == p.enabled
  {
    p.(name := if ch.name.Some? then ch.name.value else p.name,
       categoryId := if ch.categoryId.Some? then ch.categoryId.value else p.categoryId,
       description := if ch.description.Some? then ch.description.value else p.description,
       price := if ch.price.Some? then ch.price.value else p.price,
       stock := if ch.stock.Some? then ch.stock.value else p.stock,
       enabled := if ch.enabled.Some? then ch.enabled.value else p.enabled)
  }

  /** An update that supplies nothing leaves the product as it is, and applying
      the same update twice is the same as once. */
  lemma ApplyChangesLaws(p: Product, ch: Changes)
    ensures ApplyChanges(p, NoChanges) == p
    ensures ApplyChanges(ApplyChanges(p, ch), ch) == ApplyChanges(p, ch)
  {
  }

  /** The typed changes a validated update map denotes, as the model's casts
      store them: text as is, ids and stock as integers, price as a number,
      `enabled` through PHP's boolean cast, null description as no description. */
  function ChangesOf(data: Input): (ch: Changes)
    ensures ch.name.Some? <==> "name" in data && data["name"].Str?
    ensures ch.name.Some? ==> data["name"] == Str(ch.name.value)
    ensures ch.categoryId.Some? <==> "category_id" in data && IntegerOf(data["category_id"]).Some?
    ensures ch.categoryId.Some? ==> IntegerOf(data["category_id"]) == Some(ch.categoryId.value)
    ensures ch.description.Some? <==> "description" in data && (data["description"] == Null || data["description"].Str?)
    ensures ch.description.Some? ==>
              data["description"] == (if ch.description.value.None? then Null else Str(ch.description.value.value))
    ensures ch.price.Some? <==> "price" in data && NumericOf(data["price"]).Some?
    ensures ch.price.Some? ==> NumericOf(data["price"]) == Some(ch.price.value)
    ensures ch.stock.Some? <==> "stock" in data && IntegerOf(data["stock"]).Some?
    ensures ch.stock.Some? ==> IntegerOf(data["stock"]) == Some(ch.stock.value)
    ensures ch.enabled.Some? <==> "enabled" in data
    ensures ch.enabled.Some? ==> ch.enabled.value == BoolCast(data["enabled"])
  {
    Changes(
      if "name" in data && data["name"].Str? then Some(data["name"].s) else None,
      if "category_id" in data && IntegerOf(data["category_id"]).Some? then Some(IntegerOf(data["category_id"]).value) else None,
      if "description" in data && data["description"] == Null then Some(None)
      else if "description" in data && data["description"].Str? then Some(Some(data["description"].s))
      else None,
      if "price" in data && NumericOf(data["price"]).Some? then Some(NumericOf(data["price"]).value) else None,
      if "stock" in data && IntegerOf(data["stock"]).Some? then Some(IntegerOf(data["stock"]).value) else None,
      if "enabled" in data then Some(BoolCast(data["enabled"])) else None)
  }

  /** Ids strictly increase along the table: every id occurs once. */
  ghost predicate IdsIncrease(rows: seq<Product>) {
    forall i, j :: 0 <= i < j < |rows| ==> rows[i].id < rows[j].id
  }

  /** The position of the active row with id `id`, if there is one: how route
      binding finds `{product}`, skipping soft-deleted rows. */
  function FindActive(rows: seq<Product>, id: int): (r: Option<nat>)
    ensures r.Some? ==> r.value < |rows| && rows[r.value].id == id && Active(rows[r.value])
    ensures r.None? ==> forall k :: 0 <= k < |rows| ==> !(rows[k].id == id && Active(rows[k]))
  {
    if rows == [] then None
    else if rows[0].id == id && Active(rows[0]) then Some(0)
    else
      match FindActive(rows[1..], id)
      case None => None
      case Some(k) => Some(k + 1)
  }

  /** The set of every id in the table, soft-deleted rows included: what
      `exists:products,id` looks up. */
  function AllIds(rows: seq<Product>): (ids: set<int>)
    ensures forall k :: 0 <= k < |rows| ==> rows[k].id in ids
    ensures forall x :: x in ids ==> exists k :: 0 <= k < |rows| && rows[k].id == x
  {
    set k | 0 <= k < |rows| :: rows[k].id
  }

  /** Whether `Product::whereIn('id', ids)->delete()` touches this row. */
  predicate Targeted(p: Product, ids: seq<int>) {
    Active(p) && p.id in ids
  }

  /** The table after `whereIn('id', ids)->delete()` at time `now`: every
      targeted row carries the deletion mark; no other row changes. */
  function SoftDeleteWhereIn(rows: seq<Product>, ids: seq<int>, now: DateTime): (r: seq<Product>)
    ensures |r| == |rows|
    ensures forall k :: 0 <= k < |rows| ==>
              r[k] == if Targeted(rows[k], ids) then rows[k].(deletedAt := Some(now)) else rows[k]
  {
    seq(|rows|, k requires 0 <= k < |rows| =>
      if Targeted(rows[k], ids) then rows[k].(deletedAt := Some(now)) else rows[k])
  }

  /** Marking rows deleted keeps ids, their order and creation times. */
  lemma SoftDeleteKeepsKeys(rows: seq<Product>, ids: seq<int>, now: DateTime, nextId: int)
    requires IdsIncrease(rows)
    requires forall k :: 0 <= k < |rows| ==> 1 <= rows[k].id < nextId && Timestamps.Valid(rows[k].createdAt)
    ensures var r := SoftDeleteWhereIn(rows, ids, now);
      && IdsIncrease(r)
      && (forall k :: 0 <= k < |r| ==> 1 <= r[k].id < nextId)
      && (forall k :: 0 <= k < |r| ==> Timestamps.Valid(r[k].createdAt))
  {
    var r := SoftDeleteWhereIn(rows, ids, now);
    assert forall k :: 0 <= k < |r| ==> r[k].id == rows[k].id && r[k].createdAt == rows[k].createdAt;
  }

  /** The `whereIn(...)->delete()` pass over the table: marks each targeted
      row in turn and counts them. */
  method MarkTargeted(rows: seq<Product>, ids: seq<int>, now: DateTime) returns (r: seq<Product>, count: nat)
    ensures r == SoftDeleteWhereIn(rows, ids, now)
    ensures count == CountTargeted(rows, ids)
  {
    ghost var target := SoftDeleteWhereIn(rows, ids, now);
    r := rows;
    count := 0;
    var i := 0;
    while i < |r|
      invariant 0 <= i <= |r| == |rows|
      invariant forall k :: 0 <= k < i ==> r[k] == target[k]
      invariant forall k :: i <= k < |r| ==> r[k] == rows[k]
      invariant count == CountTargeted(rows[..i], ids)
    {
      CountTargetedStep(rows, ids, i);
      if Targeted(r[i], ids) {
        r := r[i := r[i].(deletedAt := Some(now))];
        count := count + 1;
      }
      i := i + 1;
    }
    assert rows[..i] == rows;
  }

  /** The number of rows the statement affects: never more than the table holds. */
  function CountTargeted(rows: seq<Product>, ids: seq<int>): (n: nat)
    ensures n <= |rows|
  {
    if rows == [] then 0
    else CountTargeted(rows[..|rows| - 1], ids) + (if Targeted(rows[|rows| - 1], ids) then 1 else 0)
  }

  /** Counting one more row of the table. */
  lemma CountTargetedStep(rows: seq<Product>, ids: seq<int>, i: nat)
    requires i < |rows|
    ensures CountTargeted(rows[..i + 1], ids) == CountTargeted(rows[..i], ids) + if Targeted(rows[i], ids) then 1 else 0
  {
    assert rows[..i + 1][..i] == rows[..i];
  }

  /** The distinct listed ids that name an active row, gathered along the table. */
  function ActiveListed(rows: seq<Product>, ids: seq<int>): set<int> {
    if rows == [] then {}
    else ActiveListed(rows[..|rows| - 1], ids) + (if Targeted(rows[|rows| - 1], ids) then {rows[|rows| - 1].id} else {})
  }

  /** An id is gathered exactly when it is listed and names an active row. */
  lemma {:induction false} ActiveListedMembers(rows: seq<Product>, ids: seq<int>, x: int)
    ensures x in ActiveListed(rows, ids) <==>
            x in ids && exists k :: 0 <= k < |rows| && rows[k].id == x && Active(rows[k])
  {
    if rows != [] {
      var n := |rows| - 1;
      ActiveListedMembers(rows[..n], ids, x);
      if exists k :: 0 <= k < |rows| && rows[k].id == x && Active(rows[k]) {
        var k :| 0 <= k < |rows| && rows[k].id == x && Active(rows[k]);
        if k < n { assert rows[..n][k] == rows[k]; }
      }
      if exists k :: 0 <= k < n && rows[..n][k].id == x && Active(rows[..n][k]) {
        var k :| 0 <= k < n && rows[..n][k].id == x && Active(rows[..n][k]);
        assert rows[k] == rows[..n][k];
      }
    }
  }

  /** Every gathered id is the id of some row. */
  lemma {:induction false} ActiveListedBelow(rows: seq<Product>, ids: seq<int>, bound: int)
    requires forall k :: 0 <= k < |rows| ==> rows[k].id < bound
    ensures forall x :: x in ActiveListed(rows, ids) ==> x < bound
  {
    if rows != [] {
      ActiveListedBelow(rows[..|rows| - 1], ids, bound);
    }
  }

  /** With every id once in the table, the affected count is the number of
      distinct listed ids that were active. */
  lemma {:induction false} CountTargetedIsDistinctActiveIds(rows: seq<Product>, ids: seq<int>)
    requires IdsIncrease(rows)
    ensures CountTargeted(rows, ids) == |ActiveListed(rows, ids)|
  {
    if rows != [] {
      var n := |rows| - 1;
      var init := rows[..n];
      assert IdsIncrease(init);
      CountTargetedIsDistinctActiveIds(init, ids);
      ActiveListedBelow(init, ids, rows[n].id);
    }
  }

  /** No sequence has more distinct elements than entries. */
  lemma {:induction false} DistinctAtMostLength(ids: seq<int>)
    ensures |set x | x in ids| <= |ids|
  {
    if ids != [] {
      DistinctAtMostLength(ids[1..]);
      assert (set x | x in ids) == {ids[0]} + (set x | x in ids[1..]);
    }
  }

  lemma SubsetNoLarger(a: set<int>, b: set<int>)
    requires a <= b
    ensures |a| <= |b|
  {
    assert b == a + (b - a);
    assert a * (b - a) == {};
  }

  /** The affected count never exceeds the number of listed ids. */
  lemma CountTargetedAtMostListed(rows: seq<Product>, ids: seq<int>)
    requires IdsIncrease(rows)
    ensures CountTargeted(rows, ids) <= |ids|
  {
    CountTargetedIsDistinctActiveIds(rows, ids);
    forall x | x in ActiveListed(rows, ids) ensures x in set y | y in ids {
      ActiveListedMembers(rows, ids, x);
    }
    DistinctAtMostLength(ids);
    SubsetNoLarger(ActiveListed(rows, ids), set y | y in ids);
  }

  /** A sequence without repeats has as many distinct elements as entries. */
  lemma {:induction false} DistinctExactLength(ids: seq<int>)
    requires forall i, j :: 0 <= i < j < |ids| ==> ids[i] != ids[j]
    ensures |set x | x in ids| == |ids|
  {
    if ids != [] {
      DistinctExactLength(ids[1..]);
      assert (set x | x in ids) == {ids[0]} + (set x | x in ids[1..]);
      assert ids[0] !in ids[1..];
    }
  }

  /** When every listed id is distinct and names an active row, the statement
      affects exactly one row per listed id. */
  lemma CountTargetedAllActive(rows: seq<Product>, ids: seq<int>)
    requires IdsIncrease(rows)
    requires forall i, j :: 0 <= i < j < |ids| ==> ids[i] != ids[j]
    requires forall i :: 0 <= i < |ids| ==> exists k :: 0 <= k < |rows| && rows[k].id == ids[i] && Active(rows[k])
    ensures CountTargeted(rows, ids) == |ids|
  {
    CountTargetedIsDistinctActiveIds(rows, ids);
    forall x ensures x in ActiveListed(rows, ids) <==> x in set y | y in ids {
      ActiveListedMembers(rows, ids, x);
    }
    assert ActiveListed(rows, ids) == set y | y in ids;
    DistinctExactLength(ids);
  }

  /** The products table. Rows are kept in insertion order, which is id order;
      `nextId` is the auto-increment counter. */
  class ProductStore {
    var rows: seq<Product>
    var nextId: nat

    ghost predicate Valid()
      reads this
    {
      && nextId >= 1
      && IdsIncrease(rows)
      && (forall k :: 0 <= k < |rows| ==> 1 <= rows[k].id < nextId)
      && (forall k :: 0 <= k < |rows| ==> Timestamps.Valid(rows[k].createdAt))
    }

    constructor ()
      ensures Valid() && rows == [] && nextId == 1
    {
      rows := [];
      nextId := 1;
    }

    /** `Product::create($data)`: appends one active row under the next id. */
    method Create(input: NewProduct, now: DateTime) returns (p: Product)
      requires Valid() && Timestamps.Valid(now)
      modifies this
      ensures Valid()
      ensures p == Build(old(nextId), input, now)
      ensures rows == old(rows) + [p] && nextId == old(nextId) + 1
    {
      p := Build(nextId, input, now);
      rows := rows + [p];
      nextId := nextId + 1;
    }

    /** `$product->update($data)` on the active row with id `id`; nothing
      happens when there is none. */
    method Update(id: int, ch: Changes) returns (r: Option<Product>)
      requires Valid()
      modifies this
      ensures Valid() && nextId == old(nextId)
      ensures match FindActive(old(rows), id)
              case None => r.None? && rows == old(rows)
              case Some(k) => rows == old(rows)[k := ApplyChanges(old(rows)[k], ch)] && r == Some(rows[k])
    {
      var found := FindActive(rows, id);
      match found
      case None =>
        r := None;
      case Some(k) =>
        var updated := ApplyChanges(rows[k], ch);
        rows := rows[k := updated];
        r := Some(updated);
    }

    /** `$product->delete()` on the active row with id `id`: the row stays in
      the table with its deletion mark set. */
    method Destroy(id: int, now: DateTime) returns (found: bool)
      requires Valid()
      modifies this
      ensures Valid() && nextId == old(nextId)
      ensures found == FindActive(old(rows), id).Some?
      ensures match FindActive(old(rows), id)
              case None => rows == old(rows)
              case Some(k) => rows == old(rows)[k := old(rows)[k].(deletedAt := Some(now))]
    {
      var at := FindActive(rows, id);
      match at
      case None =>
        found := false;
      case Some(k) =>
        rows := rows[k := rows[k].(deletedAt := Some(now))];
        found := true;
    }

    /** `Product::whereIn('id', ids)->delete()`: marks every active row whose
      id is listed and returns how many rows it marked. */
    method BulkDelete(ids: seq<int>, now: DateTime) returns (count: nat)
      requires Valid()
      modifies this
      ensures Valid() && nextId == old(nextId)
      ensures rows == SoftDeleteWhereIn(old(rows), ids, now)
      ensures count == CountTargeted(old(rows), ids)
    {
      var r;
      r, count := MarkTargeted(rows, ids, now);
      SoftDeleteKeepsKeys(rows, ids, now, nextId);
      rows := r;
    }
  }
}
