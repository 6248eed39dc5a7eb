/** The JSON API's product controller: a filtered listing, and the create,
    update, delete and bulk-delete actions on the products table with the
    response each one sends. */
module ApiProductController {
  import opened Text
  import opened Values
  import opened Timestamps
  import opened Products
  import opened Queries
  import Validation
  import UpdateRequest = UpdateProductRequest
  import BulkRequest = BulkDeleteProductRequest

  /** The JSON responses the actions send. */
  datatype Response =
    | Created(message: string, product: Product)
    | Updated(message: string, product: Product)
    | Deleted(message: string)
    | BulkDeleted(message: string, deletedCount: nat)
    | Unprocessable(errors: Validation.Errors)
    | NotFound

  /** The HTTP status of a response. */
  function Status(r: Response): (code: nat)
    ensures code == 201 <==> r.Created?
    ensures code == 422 <==> r.Unprocessable?
    ensures code == 404 <==> r.NotFound?
    ensures code != 201 && code != 422 && code != 404 ==> code == 200
  {
    match r
    case Created(_, _) => 201
    case Unprocessable(_) => 422
    case NotFound => 404
    case _ => 200
  }

  /** `index`: active rows, and with a `category_id` only those of that category. */
  function Keeps(category: Option<string>): Product -> bool {
    p => Active(p) && (category.Some? ==> TextEquals(category.value, p.categoryId))
  }

  /** The query before paging, in the table's own order (no ordering clause):
      only active rows, and only those of the category when one was sent. */
  function Listing(rows: seq<Product>, q: Query): (r: seq<Product>)
    ensures |r| <= |rows|
    ensures forall k :: 0 <= k < |r| ==>
              Active(r[k]) && ("category_id" in q ==> TextEquals(q["category_id"], r[k].categoryId))
  {
    Where(rows, Keeps(Param(q, "category_id")))
  }

  /** `$query->paginate(15)`: at most 15 listed rows, and the total of the
      whole listing. */
  function Index(rows: seq<Product>, q: Query): (page: Page)
    ensures |page.items| <= PerPage && page.total == |Listing(rows, q)|
    ensures forall k :: 0 <= k < |page.items| ==> page.items[k] in Listing(rows, q)
  {
    PageOf(Listing(rows, q), Param(q, "page"))
  }

  /** A row is listed exactly when it is active and, with a category filter,
      in that category. */
  lemma ListingMembers(rows: seq<Product>, q: Query, p: Product)
    ensures p in Listing(rows, q) <==>
              p in rows && Active(p) && ("category_id" in q ==> TextEquals(q["category_id"], p.categoryId))
  {
    WhereMembers(rows, Keeps(Param(q, "category_id")), p);
  }

  /** A page holds at most 15 listed rows, none of them deleted, each in the
      requested category, without duplicates; the total counts the listing. */
  lemma IndexPage(rows: seq<Product>, q: Query)
    requires IdsIncrease(rows)
    ensures var page := Index(rows, q);
      && |page.items| <= PerPage
      && page.total == |Listing(rows, q)|
      && DistinctIds(page.items)
      && forall k :: 0 <= k < |page.items| ==>
           page.items[k] in rows && Active(page.items[k]) &&
           ("category_id" in q ==> TextEquals(q["category_id"], page.items[k].categoryId))
  {
    var listing := Listing(rows, q);
    var page := Index(rows, q);
    WhereKeepsIdsIncreasing(rows, Keeps(Param(q, "category_id")));
    PaginateKeepsDistinct(listing, CurrentPage(Param(q, "page")));
    forall k | 0 <= k < |page.items|
      ensures page.items[k] in rows && Active(page.items[k]) &&
              ("category_id" in q ==> TextEquals(q["category_id"], page.items[k].categoryId))
    {
      var j := (CurrentPage(Param(q, "page")) - 1) * PerPage + k;
      assert page.items[k] == listing[j];
      ListingMembers(rows, q, listing[j]);
    }
  }

  /** Without a page number, a listing of at most 15 rows is shown whole: the
      first page holds every matching row. */
  lemma IndexSmallListing(rows: seq<Product>, q: Query)
    requires "page" !in q && |Listing(rows, q)| <= PerPage
    ensures Index(rows, q).items == Listing(rows, q)
  {
  }

  /** Every listed row is on some page: row `k` is entry `k % 15` of page
      `k / 15 + 1`. */
  lemma IndexCovers(rows: seq<Product>, q: Query, k: nat)
    requires k < |Listing(rows, q)| && k / PerPage + 1 <= MaxInt64
    ensures var page := Index(q := q["page" := IntToString(k / PerPage + 1)], rows := rows);
            k % PerPage < |page.items| && page.items[k % PerPage] == Listing(rows, q)[k]
  {
    var q' := q["page" := IntToString(k / PerPage + 1)];
    IntegerStringRoundTrip(k / PerPage + 1);
    assert Param(q', "category_id") == Param(q, "category_id");
    assert Listing(rows, q') == Listing(rows, q);
    PaginateCovers(Listing(rows, q), k);
  }

  /** The fields `StoreProductRequest` requires (the request class itself is
      not part of this model). */
  const CreateRequiredFields: set<string> := {"name", "category_id", "price", "stock"}

  /** The required fields a create payload leaves absent or empty. */
  function MissingRequired(input: Input): (missing: set<string>)
    ensures missing <= CreateRequiredFields
    ensures forall f :: f in CreateRequiredFields ==> (f in missing <==> f !in input || !Filled(input[f]))
  {
    set f | f in CreateRequiredFields && (f !in input || !Filled(input[f]))
  }

  /** An empty create payload lacks exactly the four required fields. */
  lemma EmptyCreateMissesAll()
    ensures MissingRequired(map[]) == CreateRequiredFields
  {
  }

  /** `store`: inserts one active row built from the validated fields, under
      the next id, and answers 201 with it; no other row changes. */
  method Store(store: ProductStore, input: NewProduct, now: DateTime) returns (r: Response)
    requires store.Valid() && Timestamps.Valid(now)
    modifies store
    ensures store.Valid()
    ensures r == Created("Product created successfully", Build(old(store.nextId), input, now))
    ensures store.rows == old(store.rows) + [r.product]
  {
    var p := store.Create(input, now);
    r := Created("Product created successfully", p);
  }

  /** `update`: a missing or deleted product is 404 before any validation; a
      failed validation is 422 and changes nothing; otherwise the validated
      fields overwrite the row's and the answer carries the updated row. */
  method Update(store: ProductStore, id: int, input: Input, categoryIds: set<int>) returns (r: Response)
    requires store.Valid()
    modifies store
    ensures store.Valid() && store.nextId == old(store.nextId)
    ensures FindActive(old(store.rows), id).None? ==> r == NotFound && store.rows == old(store.rows)
    ensures FindActive(old(store.rows), id).Some? && UpdateRequest.Validate(input, categoryIds).Failed? ==>
              r == Unprocessable(UpdateRequest.Validate(input, categoryIds).errors) && store.rows == old(store.rows)
    ensures FindActive(old(store.rows), id).Some? && UpdateRequest.Validate(input, categoryIds).Passed? ==>
              var k := FindActive(old(store.rows), id).value;
              var ch := ChangesOf(UpdateRequest.Validate(input, categoryIds).validated);
              store.rows == old(store.rows)[k := ApplyChanges(old(store.rows)[k], ch)] &&
              r == Updated("Product updated successfully", store.rows[k])
  {
    if FindActive(store.rows, id).None? {
      return NotFound;
    }
    match UpdateRequest.Validate(input, categoryIds)
    case Failed(e) =>
      r := Unprocessable(e);
    case Passed(d) =>
      var updated := store.Update(id, ChangesOf(d));
      r := Updated("Product updated successfully", updated.value);
  }

  /** `destroy`: a missing or deleted product is 404; otherwise the row stays
      in the table, marked deleted at `now`, and nothing else changes. */
  method Destroy(store: ProductStore, id: int, now: DateTime) returns (r: Response)
    requires store.Valid()
    modifies store
    ensures store.Valid() && store.nextId == old(store.nextId)
    ensures FindActive(old(store.rows), id).None? ==> r == NotFound && store.rows == old(store.rows)
    ensures FindActive(old(store.rows), id).Some? ==>
              var k := FindActive(old(store.rows), id).value;
              store.rows == old(store.rows)[k := old(store.rows)[k].(deletedAt := Some(now))] &&
              r == Deleted("Product deleted successfully")
  {
    var found := store.Destroy(id, now);
    r := if found then Deleted("Product deleted successfully") else NotFound;
  }

  /** The bulk answer: the decimal count, then " product(s) deleted successfully". */
  function BulkMessage(n: nat): (m: string)
    ensures |m| > 32 && m[|m| - 32..] == " product(s) deleted successfully"
    ensures AllDigits(m[..|m| - 32]) && DigitsValue(m[..|m| - 32]) == n
    ensures |m| == 33 || m[0] != '0'
  {
    NatToStringRoundTrip(n);
    var m := NatToString(n) + " product(s) deleted successfully";
    assert m[..|m| - 32] == NatToString(n);
    m
  }

  /** Different counts give different messages. */
  lemma BulkMessageInjective(a: nat, b: nat)
    requires BulkMessage(a) == BulkMessage(b)
    ensures a == b
  {
  }

  /** `bulkDelete`: a failed validation is 422 and changes nothing; otherwise
      every active row whose id is listed is marked deleted, and the answer
      states how many rows that was: the number of distinct listed ids that
      were active, at most one per listed item. */
  method BulkDelete(store: ProductStore, input: Input, now: DateTime) returns (r: Response)
    requires store.Valid()
    modifies store
    ensures store.Valid() && store.nextId == old(store.nextId)
    ensures BulkRequest.Validate(input, AllIds(old(store.rows))).Failed? ==>
              r == Unprocessable(BulkRequest.Validate(input, AllIds(old(store.rows))).errors) &&
              store.rows == old(store.rows)
    ensures BulkRequest.Validate(input, AllIds(old(store.rows))).Passed? ==>
              "ids" in input && input["ids"].Arr? &&
              var ids := BulkRequest.ItemIds(input["ids"].items);
              var n := CountTargeted(old(store.rows), ids);
              && store.rows == SoftDeleteWhereIn(old(store.rows), ids, now)
              && r == BulkDeleted(BulkMessage(n), n)
              && n == |ActiveListed(old(store.rows), ids)|
              && n <= |input["ids"].items|
  {
    match BulkRequest.Validate(input, AllIds(store.rows))
    case Failed(e) =>
      r := Unprocessable(e);
    case Passed(_) =>
      BulkRequest.PassedIds(input, AllIds(store.rows));
      var ids := BulkRequest.ItemIds(input["ids"].items);
      CountTargetedAtMostListed(store.rows, ids);
      CountTargetedIsDistinctActiveIds(store.rows, ids);
      var n := store.BulkDelete(ids, now);
      r := BulkDeleted(BulkMessage(n), n);
  }

  /** `exists:products,id` does not look at the deletion mark, so a request
      naming an already deleted product passes and reports zero deletions. */
  lemma DeletedIdPassesCountingZero(p: Product)
    requires !Active(p) && p.id <= MaxInt64
    ensures var input := map["ids" := Arr([Int(p.id)])];
      && BulkRequest.Validate(input, AllIds([p])).Passed?
      && CountTargeted([p], BulkRequest.ItemIds(input["ids"].items)) == 0
  {
    var items := [Int(p.id)];
    var input := map["ids" := Arr(items)];
    assert IntegerOf(items[0]) == Some(p.id as int);
    assert [p][0] == p;
    assert BulkRequest.AllItemsExist(items, AllIds([p]));
    BulkRequest.ValidateIff(input, AllIds([p]));
    var ids := BulkRequest.ItemIds(items);
    assert ids == [p.id as int];
    assert [p][..0] == [];
    assert CountTargeted([p], ids) == CountTargeted([], ids);
  }

  /** A repeated id passes validation but deletes its row once, so the count
      falls short of the number of items. */
  lemma RepeatedIdCountsOnce(p: Product)
    requires Active(p) && p.id <= MaxInt64
    ensures var input := map["ids" := Arr([Int(p.id), Int(p.id)])];
      && BulkRequest.Validate(input, AllIds([p])).Passed?
      && CountTargeted([p], BulkRequest.ItemIds(input["ids"].items)) == 1
  {
    var items := [Int(p.id), Int(p.id)];
    var input := map["ids" := Arr(items)];
    assert IntegerOf(items[0]) == Some(p.id as int) && IntegerOf(items[1]) == Some(p.id as int);
    assert [p][0] == p;
    assert BulkRequest.AllItemsExist(items, AllIds([p]));
    BulkRequest.ValidateIff(input, AllIds([p]));
    var ids := BulkRequest.ItemIds(items);
    assert ids == [p.id as int, p.id as int];
    assert [p][..0] == [];
    assert CountTargeted([p], ids) == CountTargeted([], ids) + 1;
  }
}
