/** The admin panel's product controller: the filtered, newest-first listing,
    the create, update, delete and bulk-delete actions with the flash message
    each one redirects with, and the name of the spreadsheet export. */
module AdminProductController {
  import opened Text
  import opened Values
  import opened Timestamps
  import opened Products
  import opened Queries
  import Validation
  import UpdateRequest = UpdateProductRequest
  import BulkRequest = BulkDeleteProductRequest

  /** What an action answers: a redirect to the listing with a success flash,
      a redirect back with the validation errors, or a 404. */
  datatype Response =
    | Redirect(flash: string)
    | RedirectBack(errors: Validation.Errors)
    | NotFound

  /** A filter parameter takes effect only when it is sent and is not the
      empty string. */
  function Filter(q: Query, key: string): (r: Option<string>)
    ensures r.Some? <==> key in q && q[key] != ""
    ensures r.Some? ==> r.value == q[key]
  {
    if key in q && q[key] != "" then Some(q[key]) else None
  }

  /** The `enabled` column as the database stores it. */
  function EnabledColumn(p: Product): (v: int)
    ensures v == 1 <==> p.enabled
    ensures v == 0 <==> !p.enabled
  {
    if p.enabled then 1 else 0
  }

  /** The two `where` clauses `index` adds, on top of the deletion mark. */
  function Keeps(status: Option<string>, search: Option<string>): Product -> bool {
    p => && Active(p)
         && (status.Some? ==> TextEquals(status.value, EnabledColumn(p)))
         && (search.Some? ==> Contains(p.name, search.value))
  }

  /** The filtered rows, before ordering. */
  function Filtered(rows: seq<Product>, q: Query): seq<Product> {
    Where(rows, Keeps(Filter(q, "status"), Filter(q, "search")))
  }

  /** `$query->latest()`: the filtered rows, newest first, none of them
      soft-deleted. */
  function Listing(rows: seq<Product>, q: Query): (r: seq<Product>)
    ensures |r| <= |rows| && NewestFirst(r)
    ensures forall k :: 0 <= k < |r| ==> Active(r[k])
  {
    var filtered := Filtered(rows, q);
    var r := Latest(filtered);
    assert forall k :: 0 <= k < |r| ==> Active(r[k]) by {
      forall k | 0 <= k < |r| ensures Active(r[k]) {
        assert r[k] in multiset(filtered);
      }
    }
    r
  }

  /** `$query->latest()->paginate(15)`: at most 15 listed rows, and the total
      of the whole listing. */
  function Index(rows: seq<Product>, q: Query): (page: Page)
    ensures |page.items| <= PerPage && page.total == |Listing(rows, q)|
    ensures forall k :: 0 <= k < |page.items| ==> page.items[k] in Listing(rows, q)
  {
    PageOf(Listing(rows, q), Param(q, "page"))
  }

  /** A row is listed exactly when it is active, matches the status when one
      is given and contains the search term when one is given: with both
      filters, it satisfies both. */
  lemma ListingMembers(rows: seq<Product>, q: Query, p: Product)
    ensures p in Listing(rows, q) <==>
              && p in rows && Active(p)
              && ("status" in q && q["status"] != "" ==> TextEquals(q["status"], EnabledColumn(p)))
              && ("search" in q && q["search"] != "" ==> exists i: nat :: OccursAt(p.name, q["search"], i))
  {
    WhereMembers(rows, Keeps(Filter(q, "status"), Filter(q, "search")), p);
    LatestMembers(Filtered(rows, q), p);
    if "search" in q && q["search"] != "" {
      ContainsIff(p.name, q["search"]);
    }
  }

  /** `status=1` lists the enabled products and `status=0` the disabled ones. */
  lemma StatusValues(p: Product)
    ensures TextEquals("1", EnabledColumn(p)) <==> p.enabled
    ensures TextEquals("0", EnabledColumn(p)) <==> !p.enabled
  {
    TextEqualsNumeral(1);
    TextEqualsNumeral(0);
    assert IntToString(1) == "1" && IntToString(0) == "0";
  }

  /** An empty `status` or `search` lists the same page as leaving it out. */
  lemma EmptyFilterIgnored(rows: seq<Product>, q: Query)
    ensures Index(rows, q["status" := ""]) == Index(rows, q - {"status"})
    ensures Index(rows, q["search" := ""]) == Index(rows, q - {"search"})
  {
    assert Filter(q["status" := ""], "status") == Filter(q - {"status"}, "status");
    assert Filter(q["status" := ""], "search") == Filter(q - {"status"}, "search");
    assert Param(q["status" := ""], "page") == Param(q - {"status"}, "page");
    assert Filter(q["search" := ""], "status") == Filter(q - {"search"}, "status");
    assert Filter(q["search" := ""], "search") == Filter(q - {"search"}, "search");
    assert Param(q["search" := ""], "page") == Param(q - {"search"}, "page");
  }

  /** A page is newest first and without duplicates. */
  lemma IndexPageOrder(rows: seq<Product>, q: Query)
    requires IdsIncrease(rows)
    ensures NewestFirst(Index(rows, q).items)
    ensures DistinctIds(Index(rows, q).items)
  {
    var filtered := Filtered(rows, q);
    var n := CurrentPage(Param(q, "page"));
    WhereKeepsIdsIncreasing(rows, Keeps(Filter(q, "status"), Filter(q, "search")));
    assert DistinctIds(filtered);
    LatestKeepsDistinct(filtered);
    PaginateKeepsDistinct(Listing(rows, q), n);
    PaginateKeepsOrder(Listing(rows, q), n);
  }

  /** A page holds at most 15 rows, the slice of the ordered listing that its
      number selects, and reports how many rows matched. */
  lemma IndexPageSlice(rows: seq<Product>, q: Query)
    ensures var page := Index(rows, q);
      var from := (page.currentPage - 1) * PerPage;
      && |page.items| <= PerPage
      && page.total == |Filtered(rows, q)|
      && (forall k :: 0 <= k < |page.items| ==>
            from + k < |Listing(rows, q)| && page.items[k] == Listing(rows, q)[from + k])
      && (from < |Listing(rows, q)| ==> |page.items| == Min(PerPage, |Listing(rows, q)| - from))
  {
    var listing := Listing(rows, q);
    var page := PageOf(listing, Param(q, "page"));
    assert Index(rows, q) == page;
    var n := page.currentPage;
    assert page.items == Paginate(listing, n);
    assert n * PerPage == (n - 1) * PerPage + PerPage;
  }

  /** The smaller of two integers. */
  function Min(a: int, b: int): int {
    if a <= b then a else b
  }

  /** Every listed row is on some page: row `k` of the ordered listing is
      entry `k % 15` of page `k / 15 + 1`. */
  lemma IndexCovers(rows: seq<Product>, q: Query, k: nat)
    requires k < |Listing(rows, q)| && k / PerPage + 1 <= MaxInt64
    ensures var page := Index(rows, q["page" := IntToString(k / PerPage + 1)]);
            k % PerPage < |page.items| && page.items[k % PerPage] == Listing(rows, q)[k]
  {
    var q' := q["page" := IntToString(k / PerPage + 1)];
    IntegerStringRoundTrip(k / PerPage + 1);
    assert Filter(q', "status") == Filter(q, "status") && Filter(q', "search") == Filter(q, "search");
    PaginateCovers(Listing(rows, q), k);
  }

  /** `store`: the same insertion as the API's, then the flash
      "Product created successfully.". */
  method Store(store: ProductStore, input: NewProduct, now: DateTime) returns (r: Response)
    requires store.Valid() && Timestamps.Valid(now)
    modifies store
    ensures store.Valid()
    ensures store.rows == old(store.rows) + [Build(old(store.nextId), input, now)]
    ensures r == Redirect("Product created successfully.")
  {
    var _ := store.Create(input, now);
    r := Redirect("Product created successfully.");
  }

  /** `update`: a missing or deleted product is 404; a failed validation
      redirects back with the errors and changes nothing; otherwise the same
      overwrite as the API's, then the flash "Product updated successfully.". */
  method Update(store: ProductStore, id: int, input: Input, categoryIds: set<int>) returns (r: Response)
    requires store.Valid()
    modifies store
    ensures store.Valid() && store.nextId == old(store.nextId)
    ensures FindActive(old(store.rows), id).None? ==> r == NotFound && store.rows == old(store.rows)
    ensures FindActive(old(store.rows), id).Some? && UpdateRequest.Validate(input, categoryIds).Failed? ==>
              r == RedirectBack(UpdateRequest.Validate(input, categoryIds).errors) && store.rows == old(store.rows)
    ensures FindActive(old(store.rows), id).Some? && UpdateRequest.Validate(input, categoryIds).Passed? ==>
              var k := FindActive(old(store.rows), id).value;
              var ch := ChangesOf(UpdateRequest.Validate(input, categoryIds).validated);
              store.rows == old(store.rows)[k := ApplyChanges(old(store.rows)[k], ch)] &&
              r == Redirect("Product updated successfully.")
  {
    if FindActive(store.rows, id).None? {
      return NotFound;
    }
    match UpdateRequest.Validate(input, categoryIds)
    case Failed(e) =>
      r := RedirectBack(e);
    case Passed(d) =>
      var _ := store.Update(id, ChangesOf(d));
      r := Redirect("Product updated successfully.");
  }

  /** `destroy`: a missing or deleted product is 404; otherwise the same soft
      delete as the API's, then the flash "Product deleted successfully.". */
  method Destroy(store: ProductStore, id: int, now: DateTime) returns (r: Response)
    requires store.Valid()
    modifies store
    ensures store.Valid() && store.nextId == old(store.nextId)
    ensures FindActive(old(store.rows), id).None? ==> r == NotFound && store.rows == old(store.rows)
    ensures FindActive(old(store.rows), id).Some? ==>
              var k := FindActive(old(store.rows), id).value;
              store.rows == old(store.rows)[k := old(store.rows)[k].(deletedAt := Some(now))] &&
              r == Redirect("Product deleted successfully.")
  {
    var found := store.Destroy(id, now);
    r := if found then Redirect("Product deleted successfully.") else NotFound;
  }

  /** The bulk flash: the decimal count, then " product(s) deleted successfully.". */
  function BulkFlash(n: nat): (m: string)
    ensures |m| > 33 && m[|m| - 33..] == " product(s) deleted successfully."
    ensures AllDigits(m[..|m| - 33]) && DigitsValue(m[..|m| - 33]) == n
    ensures |m| == 34 || m[0] != '0'
  {
    NatToStringRoundTrip(n);
    var m := NatToString(n) + " product(s) deleted successfully.";
    assert m[..|m| - 33] == NatToString(n);
    m
  }

  /** Different counts give different flashes. */
  lemma BulkFlashInjective(a: nat, b: nat)
    requires BulkFlash(a) == BulkFlash(b)
    ensures a == b
  {
  }

  /** `bulkDelete`: a failed validation redirects back and changes nothing;
      otherwise the same soft delete and count as the API's, then the flash
      with the count. */
  method BulkDelete(store: ProductStore, input: Input, now: DateTime) returns (r: Response)
    requires store.Valid()
    modifies store
    ensures store.Valid() && store.nextId == old(store.nextId)
    ensures BulkRequest.Validate(input, AllIds(old(store.rows))).Failed? ==>
              r == RedirectBack(BulkRequest.Validate(input, AllIds(old(store.rows))).errors) &&
              store.rows == old(store.rows)
    ensures BulkRequest.Validate(input, AllIds(old(store.rows))).Passed? ==>
              "ids" in input && input["ids"].Arr? &&
              var ids := BulkRequest.ItemIds(input["ids"].items);
              var n := CountTargeted(old(store.rows), ids);
              && store.rows == SoftDeleteWhereIn(old(store.rows), ids, now)
              && r == Redirect(BulkFlash(n))
              && n == |ActiveListed(old(store.rows), ids)|
              && n <= |input["ids"].items|
  {
    match BulkRequest.Validate(input, AllIds(store.rows))
    case Failed(e) =>
      r := RedirectBack(e);
    case Passed(_) =>
      BulkRequest.PassedIds(input, AllIds(store.rows));
      var ids := BulkRequest.ItemIds(input["ids"].items);
      CountTargetedAtMostListed(store.rows, ids);
      CountTargetedIsDistinctActiveIds(store.rows, ids);
      var n := store.BulkDelete(ids, now);
      r := Redirect(BulkFlash(n));
  }

  /** `export`'s download name: "products_", the `Y-m-d_His` stamp of `now`,
      then ".xlsx". */
  function ExportFileName(now: DateTime): (name: string)
    requires Timestamps.Valid(now)
    ensures |name| == 31
    ensures name[..9] == "products_" && name[26..] == ".xlsx"
    ensures name[9..26] == FileStamp(now)
  {
    "products_" + FileStamp(now) + ".xlsx"
  }

  /** Exports made at different seconds get different names. */
  lemma ExportFileNameInjective(a: DateTime, b: DateTime)
    requires Timestamps.Valid(a) && Timestamps.Valid(b) && ExportFileName(a) == ExportFileName(b)
    ensures a == b
  {
    assert FileStamp(a) == ExportFileName(a)[9..26];
    FileStampInjective(a, b);
  }
}
