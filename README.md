# Product management: the product store, its validators and its export

This project models the core of a small Laravel product-management application in Dafny. There are two controllers over one products table: a JSON API and an admin panel. Rows are soft-deleted. The model covers:

- the products table, kept as a class whose create, update, delete and bulk-delete methods change the rows in place (`Products`);
- the listing queries: conditional `where` clauses, `latest()` ordering and `paginate(15)` (`Queries`);
- the two form requests:
  - their rule strings, run by an interpreter of the framework rules they use (`Validation`, `UpdateProductRequest`, `BulkDeleteProductRequest`);
  - their custom messages, kept as data;
- the request values those rules test: strings, numbers, integers, booleans, arrays and null (`Values`, `Text`);
- the JSON controller and the admin controller (`ApiProductController`, `AdminProductController`):
  - each action, its effect on the table and the response or flash message it sends;
  - the export file name;
- the spreadsheet export's heading row and per-product row (`ProductsExport`);
- the `Y-m-d H:i:s` and `Y-m-d_His` date formats (`Timestamps`).

Clock reads are parameters (`now`). The set of category ids, and the map from category id to category name, are parameters too. The set of product ids that `exists:products,id` consults is computed from the table.

Three points of the code shape the model:

- Only the admin listing orders its rows (`latest()`, newest first). The JSON `index` and the export's `collection()` have no ordering clause.
- `exists:products,id` names only the table and the column. A soft-deleted row's id therefore still passes validation; `whereIn(...)->delete()` then does not touch that row, so it adds nothing to the count.
- The export file name uses `date('Y-m-d_His')`, with dashes in the date.

## Model

| member | source | states |
|---|---|---|
| Products.Build | app/Http/Controllers/Api/ProductController.php:109 | A created row is active, gets the given id and creation time, and carries the validated fields; `enabled` defaults to true. |
| Products.ApplyChanges | app/Http/Controllers/Api/ProductController.php:189 | Each supplied field takes the supplied value, and every other field keeps its value. Id, creation time and deletion mark never change. |
| Products.ApplyChangesLaws | app/Http/Controllers/Api/ProductController.php:189 | An empty update is the identity. Applying an update twice equals applying it once. |
| Products.ChangesOf | app/Http/Requests/UpdateProductRequest.php:24-31 | A field is changed exactly when its key holds a value of the column's type, and the change is that value read back: the text, the integer, the number, null or text for the description, and the boolean cast of `enabled`. |
| Products.FindActive | app/Http/Controllers/Api/ProductController.php:187 | Route-model binding finds the active row with the id, or reports that none exists. |
| Products.AllIds | app/Http/Requests/BulkDeleteProductRequest.php:26 | The ids `exists:products,id` accepts: exactly the ids of all rows, deleted ones included. |
| Products.SoftDeleteWhereIn | app/Http/Controllers/Api/ProductController.php:258 | `whereIn->delete()` marks exactly the active listed rows as deleted. The table keeps its length, and no other row changes. |
| Products.ActiveListedMembers | app/Http/Controllers/Api/ProductController.php:258 | An id is gathered exactly when it is listed and names an active row. |
| Products.CountTargeted | app/Http/Controllers/Api/ProductController.php:258 | The number of rows `whereIn->delete()` affects is at most the table's size. |
| Products.CountTargetedIsDistinctActiveIds | app/Http/Controllers/Api/ProductController.php:258 | The affected count is the number of distinct listed ids that name an active row. |
| Products.CountTargetedAtMostListed | app/Http/Controllers/Api/ProductController.php:258 | The affected count never exceeds the number of listed ids. |
| Products.CountTargetedAllActive | tests/Feature/ProductApiTest.php:154-168 | When the listed ids are distinct and all name active rows, the count equals the number of ids. |
| Products.ProductStore.constructor | tests/Feature/ProductApiTest.php:14 | The table starts empty, and the first id is 1. |
| Products.ProductStore.Create | app/Http/Controllers/Api/ProductController.php:109 | Appends the built row under the next id and advances the counter. The table invariant holds. |
| Products.ProductStore.Update | app/Http/Controllers/Api/ProductController.php:187-189 | Overwrites the supplied fields of the active row with the id. With no such row, nothing changes. |
| Products.ProductStore.Destroy | app/Http/Controllers/Api/ProductController.php:223-225 | Marks the active row with the id as deleted while keeping it in the table. With no such row, nothing changes. |
| Products.MarkTargeted | app/Http/Controllers/Api/ProductController.php:258 | One pass over the table yields `SoftDeleteWhereIn` and counts the rows it marks. |
| Products.SoftDeleteKeepsKeys | app/Http/Controllers/Api/ProductController.php:258 | Soft-deleting keeps every row's id and creation time, so the table invariant holds afterwards. |
| Products.ProductStore.BulkDelete | app/Http/Controllers/Api/ProductController.php:258 | The table becomes `SoftDeleteWhereIn`, and the result is the affected count. |
| Queries.Param | app/Http/Controllers/Api/ProductController.php:75 | A parameter is present exactly when it is sent, and then it carries the sent text. |
| Queries.TextEqualsNumeral | app/Http/Controllers/Api/ProductController.php:76 | An integer column matches its own numeral and no other value. |
| Queries.Where | app/Http/Controllers/Api/ProductController.php:76 | A filter keeps only rows that satisfy it and never adds rows. |
| Queries.WhereMembers | app/Http/Controllers/Api/ProductController.php:72-77 | A row is kept exactly when it is in the table and satisfies the filter. |
| Queries.WhereKeepsIdsIncreasing | app/Http/Controllers/Api/ProductController.php:72-79 | Filtering keeps ids increasing, so a listing has no duplicates. |
| Queries.Contains | app/Http/Controllers/Admin/ProductController.php:34 | A name can contain the search term only when the term is no longer than the name. |
| Queries.ContainsIff | app/Http/Controllers/Admin/ProductController.php:34 | A search term matches exactly when it occurs in the name as a contiguous run. |
| Queries.Insert | app/Http/Controllers/Admin/ProductController.php:37 | Inserting into a newest-first listing adds exactly that row and keeps the listing newest first. |
| Queries.InsertMembers | app/Http/Controllers/Admin/ProductController.php:37 | A row is in the result of an insertion exactly when it is the inserted row or was already there. |
| Queries.InsertKeepsDistinct | app/Http/Controllers/Admin/ProductController.php:37 | Inserting a row whose id is new keeps the listing free of duplicates. |
| Queries.Latest | app/Http/Controllers/Admin/ProductController.php:37 | `latest()` is a permutation of its input, newest first. |
| Queries.LatestMembers | app/Http/Controllers/Admin/ProductController.php:37 | Ordering keeps exactly the same rows. |
| Queries.LatestKeepsDistinct | app/Http/Controllers/Admin/ProductController.php:37 | Ordering a listing without duplicates leaves none. |
| Queries.CurrentPage | app/Http/Controllers/Api/ProductController.php:79 | The page number is the `page` integer when it is at least 1, and 1 otherwise. |
| Queries.Paginate | app/Http/Controllers/Api/ProductController.php:79 | Page n is the slice [(n-1)·15, n·15) of the listing: at most 15 rows, each at its position. |
| Queries.PaginateCovers | app/Http/Controllers/Api/ProductController.php:79 | Row k of a listing is entry k mod 15 of page k div 15 + 1. |
| Queries.PaginateKeepsOrder | app/Http/Controllers/Admin/ProductController.php:37 | A page of a newest-first listing is newest first. |
| Queries.PaginateKeepsDistinct | app/Http/Controllers/Api/ProductController.php:79 | A page of a listing without duplicates has none. |
| Queries.PageOf | app/Http/Controllers/Api/ProductController.php:79 | The paginator reports the total, the current page, the page size 15 and that page's rows. |
| ApiProductController.Status | app/Http/Controllers/Api/ProductController.php:112-116 | Creation answers 201, validation failure 422, a missing product 404, and everything else 200. |
| ApiProductController.Listing | app/Http/Controllers/Api/ProductController.php:72-77 | The listing takes no more rows than the table has, all active, all in the requested category when one is sent. |
| ApiProductController.Index | app/Http/Controllers/Api/ProductController.php:70-79 | A page holds at most 15 listed rows, and its total is the listing's size. |
| ApiProductController.ListingMembers | app/Http/Controllers/Api/ProductController.php:72-77 | A row is listed exactly when it is active and, when `category_id` is sent, belongs to that category. |
| ApiProductController.IndexPage | app/Http/Controllers/Api/ProductController.php:70-82 | A page holds at most 15 rows, all from the table, none deleted, all in the requested category, with no duplicates; the total counts the matching rows. |
| ApiProductController.IndexSmallListing | tests/Feature/ProductApiTest.php:51-64 | With no page number, a listing of at most 15 rows is returned whole. |
| ApiProductController.IndexCovers | app/Http/Controllers/Api/ProductController.php:79 | Every matching row appears on the page its position selects. |
| ApiProductController.MissingRequired | app/Http/Controllers/Api/ProductController.php:286 | A create payload misses a required field exactly when that field is absent or empty. |
| ApiProductController.EmptyCreateMissesAll | tests/Feature/ProductApiTest.php:96-104 | An empty create payload misses exactly name, category_id, price and stock. |
| ApiProductController.Store | app/Http/Controllers/Api/ProductController.php:107-116 | Appends exactly one active row built from the input and answers 201 "Product created successfully" with that row. |
| ApiProductController.Update | app/Http/Controllers/Api/ProductController.php:187-196 | A missing or deleted product gives 404 before validation. Failed validation gives 422 and leaves the table unchanged. Otherwise exactly the validated fields of that row change, and the updated row is returned. |
| ApiProductController.Destroy | app/Http/Controllers/Api/ProductController.php:223-230 | The row stays in the table, marked deleted, and no other row changes. Answers "Product deleted successfully", or 404. |
| ApiProductController.BulkMessage | app/Http/Controllers/Api/ProductController.php:261 | The message is the count's decimal numeral, without leading zeros, then " product(s) deleted successfully". |
| ApiProductController.BulkMessageInjective | app/Http/Controllers/Api/ProductController.php:261-262 | The message determines the count. |
| ApiProductController.BulkDelete | app/Http/Controllers/Api/ProductController.php:256-264 | A failed validation gives 422 and leaves the table unchanged. Otherwise every listed active row is soft-deleted and nothing else changes. The count is the number of distinct listed active ids, at most the number of items, and matches the message. |
| ApiProductController.DeletedIdPassesCountingZero | app/Http/Requests/BulkDeleteProductRequest.php:26 | The id of an already deleted row passes validation and adds 0 to the count. |
| ApiProductController.RepeatedIdCountsOnce | app/Http/Controllers/Api/ProductController.php:258 | A repeated id passes validation, and its row is counted once. |
| AdminProductController.Filter | app/Http/Controllers/Admin/ProductController.php:28 | A filter applies exactly when its parameter is sent and is not the empty string. |
| AdminProductController.EnabledColumn | app/Http/Controllers/Admin/ProductController.php:29 | The `enabled` column stores 1 for enabled and 0 for disabled. |
| AdminProductController.Listing | app/Http/Controllers/Admin/ProductController.php:25-37 | The listing is newest first, takes no more rows than the table has, and holds only active rows. |
| AdminProductController.Index | app/Http/Controllers/Admin/ProductController.php:23-37 | A page holds at most 15 listed rows, and its total is the listing's size. |
| AdminProductController.ListingMembers | app/Http/Controllers/Admin/ProductController.php:25-37 | A row is listed exactly when it is active, matches the status when one is given, and contains the search term when one is given; with both filters it satisfies both. |
| AdminProductController.StatusValues | app/Http/Controllers/Admin/ProductController.php:28-30 | `status=1` keeps exactly the enabled products, and `status=0` exactly the disabled ones. |
| AdminProductController.EmptyFilterIgnored | app/Http/Controllers/Admin/ProductController.php:28-35 | An empty `status` or `search` gives the same page as leaving it out. |
| AdminProductController.IndexPageOrder | app/Http/Controllers/Admin/ProductController.php:37 | A page is newest first and has no duplicates. |
| AdminProductController.IndexPageSlice | app/Http/Controllers/Admin/ProductController.php:37 | Page p is the slice [(p-1)·15, p·15) of the filtered, newest-first listing, and the total counts the filtered rows. |
| AdminProductController.IndexCovers | app/Http/Controllers/Admin/ProductController.php:37 | Every listed row appears on the page its position selects. |
| AdminProductController.Store | app/Http/Controllers/Admin/ProductController.php:55-61 | Same insertion as the API, then the flash "Product created successfully.". |
| AdminProductController.Update | app/Http/Controllers/Admin/ProductController.php:84-90 | Same 404, validation and overwrite as the API, then the flash "Product updated successfully."; on failure it redirects back with the errors. |
| AdminProductController.Destroy | app/Http/Controllers/Admin/ProductController.php:95-101 | Same soft delete as the API, then the flash "Product deleted successfully.". |
| AdminProductController.BulkFlash | app/Http/Controllers/Admin/ProductController.php:111 | The flash is the count's decimal numeral, without leading zeros, then " product(s) deleted successfully.". |
| AdminProductController.BulkFlashInjective | app/Http/Controllers/Admin/ProductController.php:111 | The flash determines the count. |
| AdminProductController.BulkDelete | app/Http/Controllers/Admin/ProductController.php:106-112 | Same validation, soft delete and count as the API, then the flash with the count. |
| AdminProductController.ExportFileName | app/Http/Controllers/Admin/ProductController.php:119 | The name is "products_", then the 17-character `Y-m-d_His` stamp, then ".xlsx". |
| AdminProductController.ExportFileNameInjective | app/Http/Controllers/Admin/ProductController.php:119 | Exports made at different seconds get different names. |
| UpdateProductRequest.Authorize | app/Http/Requests/UpdateProductRequest.php:12-15 | Every request is authorized. |
| UpdateProductRequest.Validate | app/Http/Requests/UpdateProductRequest.php:22-31 | On success the validated data is the sent rule fields, unchanged. On failure the bag is non-empty, keyed by rule fields, each with at least one message. |
| UpdateProductRequest.ValidateIff | app/Http/Requests/UpdateProductRequest.php:22-31 | Passes exactly when no field collects a message. On failure, a field is in the error bag exactly when it collected messages, and the bag holds those messages. |
| UpdateProductRequest.ValidatedData | app/Http/Requests/UpdateProductRequest.php:22-31 | The validated data holds exactly the rule keys that were sent, with their sent values. |
| UpdateProductRequest.NameMessages | app/Http/Requests/UpdateProductRequest.php:25 | An absent name is fine. A null or blank name gives only "Product name is required". Otherwise a non-string and a name longer than 255 each give their message. |
| UpdateProductRequest.CategoryMessages | app/Http/Requests/UpdateProductRequest.php:26 | An absent category is fine. A null or blank one gives "Category is required". Otherwise an id outside the category set gives "Selected category does not exist". |
| UpdateProductRequest.DescriptionMessages | app/Http/Requests/UpdateProductRequest.php:27 | An absent, null or string description is fine. Anything else gives the string message. |
| UpdateProductRequest.PriceMessages | app/Http/Requests/UpdateProductRequest.php:28 | An absent price is fine. A null or blank one gives "Price is required". Otherwise a non-number gives "Price must be a number", and a negative number gives the minimum message. |
| UpdateProductRequest.StockMessages | app/Http/Requests/UpdateProductRequest.php:29 | An absent stock is fine. A null or blank one gives "Stock is required". Otherwise a non-integer gives "Stock must be an integer" (a whole float such as 50.0 is an integer), and a negative one gives the minimum message. |
| UpdateProductRequest.WholeFloatStock | app/Http/Requests/UpdateProductRequest.php:29 | A stock sent as the float 50.0 passes `integer|min:0` and is stored as 50. |
| UpdateProductRequest.AbsentFieldPasses | app/Http/Requests/UpdateProductRequest.php:24-31 | Any field may be left out: an absent field collects no message. |
| UpdateProductRequest.EnabledMessages | app/Http/Requests/UpdateProductRequest.php:30 | An absent, blank or boolean-like `enabled` is fine. Anything else gives the boolean message. |
| UpdateProductRequest.NameLookups | app/Http/Requests/UpdateProductRequest.php:42 | `name.required` uses its custom text. The other rules on `name` use the default texts. |
| UpdateProductRequest.CategoryLookups | app/Http/Requests/UpdateProductRequest.php:43-44 | `category_id.required` and `category_id.exists` use their custom texts. |
| UpdateProductRequest.DescriptionLookups | app/Http/Requests/UpdateProductRequest.php:27 | `description` has no custom message, so its string rule uses the default text. |
| UpdateProductRequest.PriceLookups | app/Http/Requests/UpdateProductRequest.php:45-46 | `price.required` and `price.numeric` use their custom texts, and `min` uses the default. |
| UpdateProductRequest.StockLookups | app/Http/Requests/UpdateProductRequest.php:47-48 | `stock.required` and `stock.integer` use their custom texts, and `min` uses the default. |
| UpdateProductRequest.EnabledLookups | app/Http/Requests/UpdateProductRequest.php:30 | `enabled` has no custom message, so its boolean rule uses the default text. |
| UpdateProductRequest.NumericSizeNegative | app/Http/Requests/UpdateProductRequest.php:28-29 | Under a numeric rule, `min:0` fails exactly for a negative number. |
| UpdateProductRequest.NamePasses | app/Http/Requests/UpdateProductRequest.php:25 | A name that collects no message is absent, or is a string of at most 255 characters. |
| UpdateProductRequest.CategoryPasses | app/Http/Requests/UpdateProductRequest.php:26 | A category that collects no message is absent, or is an integer in the category set. |
| UpdateProductRequest.DescriptionPasses | app/Http/Requests/UpdateProductRequest.php:27 | A description that collects no message is absent, null or a string. |
| UpdateProductRequest.PricePasses | app/Http/Requests/UpdateProductRequest.php:28 | A price that collects no message is absent, or is a number of at least 0. |
| UpdateProductRequest.StockPasses | app/Http/Requests/UpdateProductRequest.php:29 | A stock that collects no message is absent, or is an integer of at least 0. |
| UpdateProductRequest.PassedChanges | app/Http/Requests/UpdateProductRequest.php:24-31 | After a passed update, a field changes exactly when its key was sent, and it changes to the sent value: the same text, the integer or number the value denotes, null or the text for the description, the boolean cast for `enabled`. The name has at most 255 characters, the category is known, price ≥ 0 and stock ≥ 0. |
| UpdateProductRequest.EmptyUpdatePasses | app/Http/Requests/UpdateProductRequest.php:25-29 | An empty update passes with no validated data and changes nothing. |
| UpdateProductRequest.NameAndPrice | tests/Feature/ProductApiTest.php:124-127 | The test payload sends exactly `name` and `price`. |
| UpdateProductRequest.NameAndPriceFirstFields | tests/Feature/ProductApiTest.php:118-137 | Neither `name`, `category_id` nor `description` objects to that payload. |
| UpdateProductRequest.NameAndPriceLastFields | tests/Feature/ProductApiTest.php:118-137 | Neither `price`, `stock` nor `enabled` objects to that payload. |
| UpdateProductRequest.NameAndPricePass | tests/Feature/ProductApiTest.php:118-137 | A name-and-price update passes with exactly those two fields. |
| UpdateProductRequest.NameAndPriceChanges | tests/Feature/ProductApiTest.php:118-137 | That update changes the name and the price and nothing else. |
| BulkDeleteProductRequest.Authorize | app/Http/Requests/BulkDeleteProductRequest.php:12-15 | Every request is authorized. |
| BulkDeleteProductRequest.ItemName | app/Http/Requests/BulkDeleteProductRequest.php:26 | Item k of `ids` is validated under the name "ids." followed by k's decimal numeral, without leading zeros. |
| BulkDeleteProductRequest.ItemNameInjective | app/Http/Requests/BulkDeleteProductRequest.php:26 | Item names differ from each other, from "ids" and from "ids.*". |
| BulkDeleteProductRequest.ItemChecks | app/Http/Requests/BulkDeleteProductRequest.php:26 | `ids.*` expands to one check per item of an array `ids`, and to none otherwise. |
| BulkDeleteProductRequest.Validate | app/Http/Requests/BulkDeleteProductRequest.php:22-27 | On success the validated data holds `ids` as sent and nothing else. On failure the bag is non-empty, each entry with at least one message. |
| BulkDeleteProductRequest.IdsLookups | app/Http/Requests/BulkDeleteProductRequest.php:38-40 | The three `ids` rules use their custom texts. |
| BulkDeleteProductRequest.IdsMessages | app/Http/Requests/BulkDeleteProductRequest.php:25 | An absent, null, blank or empty `ids` gives only "No products selected for deletion". Otherwise a non-array gives "Invalid data format", and a size below one gives "At least one product must be selected". |
| BulkDeleteProductRequest.IdsPassIff | app/Http/Requests/BulkDeleteProductRequest.php:25 | `ids` collects no message exactly when it is a non-empty array. |
| BulkDeleteProductRequest.IdsSize | app/Http/Requests/BulkDeleteProductRequest.php:25 | Of the filled values, only `false` has size below one. |
| BulkDeleteProductRequest.IdsFalse | app/Http/Requests/BulkDeleteProductRequest.php:25 | `ids=false` gives both "Invalid data format" and "At least one product must be selected". |
| BulkDeleteProductRequest.ItemLookups | app/Http/Requests/BulkDeleteProductRequest.php:41 | Only `ids.*.exists` has a custom text. It applies to every item through the wildcard. |
| BulkDeleteProductRequest.ItemMessages | app/Http/Requests/BulkDeleteProductRequest.php:26 | An empty item gives the required message, and a non-integer the integer message (a whole float such as 1.0 is an integer). An integer that names no row gives "One or more selected products do not exist". |
| BulkDeleteProductRequest.ChecksDistinct | app/Http/Requests/BulkDeleteProductRequest.php:25-26 | Every check validates a different attribute. |
| BulkDeleteProductRequest.ItemsPassIff | app/Http/Requests/BulkDeleteProductRequest.php:26 | The items collect no message exactly when every item is an integer naming a row. |
| BulkDeleteProductRequest.ValidateIff | app/Http/Requests/BulkDeleteProductRequest.php:25-26 | Passes exactly when `ids` is a non-empty array of integers, each naming a row. |
| BulkDeleteProductRequest.ItemIds | app/Http/Controllers/Api/ProductController.php:258 | When every item is an integer, the ids match the items one for one. |
| BulkDeleteProductRequest.PassedIds | app/Http/Requests/BulkDeleteProductRequest.php:25-26 | A passed request lists at least one id, item for item, each naming a row. |
| BulkDeleteProductRequest.ValidateErrors | app/Http/Requests/BulkDeleteProductRequest.php:37-42 | On failure, `ids` and each item are in the error bag exactly when they collected messages. |
| ProductsExport.Collection | app/Exports/ProductsExport.php:17-20 | The export takes no more rows than the table has, all active. |
| ProductsExport.HeadingsDistinct | app/Exports/ProductsExport.php:25-37 | The heading row names eight columns, none twice. |
| ProductsExport.CollectionExact | app/Exports/ProductsExport.php:17-20 | The exported rows are exactly the active rows, each once. |
| ProductsExport.StatusText | app/Exports/ProductsExport.php:52 | The text is "Enabled" exactly when the product is enabled, and "Disabled" exactly when it is not. |
| ProductsExport.Row | app/Exports/ProductsExport.php:43-55 | A row has exactly as many cells as there are headings. |
| ProductsExport.RowAligned | app/Exports/ProductsExport.php:43-52 | Each cell holds the field its heading names: the category cell holds the category's name, the description cell is empty exactly when there is no description, and the status cell is the product's status text: "Enabled" exactly for an enabled product, "Disabled" exactly for a disabled one. |
| ProductsExport.RowCreatedAt | app/Exports/ProductsExport.php:53 | The Created At cell is a 19-character text that parses back to the creation time. |
| ProductsExport.Sheet | app/Exports/ProductsExport.php:25-37 | The sheet is the eight-heading row followed by one row per exported product. |
| ProductsExport.SheetRows | app/Exports/ProductsExport.php:17-55 | Sheet row k+1 maps the k-th exported product, which is an active row of the table. |
| Timestamps.DateText | app/Exports/ProductsExport.php:53 | `Y-m-d` is 10 characters with '-' at positions 4 and 7. |
| Timestamps.ClockText | app/Exports/ProductsExport.php:53 | `H:i:s` is 8 characters with ':' at positions 2 and 5. |
| Timestamps.FormatDateTime | app/Exports/ProductsExport.php:53 | `Y-m-d H:i:s` is 19 characters with separators at positions 4, 7, 10, 13 and 16. |
| Timestamps.ParseDate | app/Exports/ProductsExport.php:53 | Only a 10-character text with '-' at 4 and 7 reads as a date. |
| Timestamps.ParseClock | app/Exports/ProductsExport.php:53 | Only an 8-character text with ':' at 2 and 5 reads as a time of day. |
| Timestamps.ParseDateTime | app/Exports/ProductsExport.php:53 | Only a 19-character text with a space at 10 reads as a moment, and the moment read is a valid one. |
| Timestamps.DateRoundTrip | app/Exports/ProductsExport.php:53 | The date part reads back as the year, month and day. |
| Timestamps.ClockRoundTrip | app/Exports/ProductsExport.php:53 | The time part reads back as the hour, minute and second. |
| Timestamps.DateCanonical | app/Exports/ProductsExport.php:53 | A text that reads as a date is exactly that date's `Y-m-d` text. |
| Timestamps.ClockCanonical | app/Exports/ProductsExport.php:53 | A text that reads as a time of day is exactly that time's `H:i:s` text. |
| Timestamps.FormatThenParse | app/Exports/ProductsExport.php:53 | Reading a formatted time back gives the time. |
| Timestamps.ParseThenFormat | app/Exports/ProductsExport.php:53 | Formatting a parsed text gives the text back. |
| Timestamps.FileStamp | app/Http/Controllers/Admin/ProductController.php:119 | `Y-m-d_His` is 17 characters with '-' at 4 and 7 and '_' at 10. |
| Timestamps.FileStampDate | app/Http/Controllers/Admin/ProductController.php:119 | The stamp's first 10 characters read back as the date. |
| Timestamps.FileStampTime | app/Http/Controllers/Admin/ProductController.php:119 | The stamp's last six digits read back as hour, minute and second. |
| Timestamps.FileStampInjective | app/Http/Controllers/Admin/ProductController.php:119 | Different valid times give different stamps. |
| Timestamps.EarlierIsStrictTotalOrder | app/Http/Controllers/Admin/ProductController.php:37 | Creation-time order is a strict total order. |
| Values.ParseInteger | app/Http/Requests/UpdateProductRequest.php:29 | The integer rule accepts a numeral only when its value fits in 64 bits. |
| Values.IntegerStringRoundTrip | app/Http/Requests/UpdateProductRequest.php:29 | Every 64-bit integer's numeral is accepted, with that integer as its value. |
| Values.IntegerStringIsNumeric | app/Http/Requests/UpdateProductRequest.php:28-29 | Every integer string is numeric, with the same value. |
| Values.IntegerIsNumeric | app/Http/Requests/UpdateProductRequest.php:28-29 | Every integer value other than `true` is numeric, with the same value. |
| Values.IntegerOf | app/Http/Requests/UpdateProductRequest.php:29 | The integer rule's test: a value is an integer only when it is an int, a numeral, `true` or a whole float below 10^14 in magnitude. The integer fits in 64 bits and, except for `true`, the value is numeric with the same value. |
| Values.IsBooleanLike | app/Http/Requests/UpdateProductRequest.php:30 | A boolean-like value is a boolean, or an integer 0 or 1 (as an int or a numeral). |
| Values.NumericOf | app/Http/Requests/UpdateProductRequest.php:28 | Integers, numbers and numeric strings are numeric, and nothing else is. |
| Values.BoolCast | app/Http/Requests/UpdateProductRequest.php:30 | A validated flag is stored through PHP's boolean cast. |
| Validation.MessageFor | app/Http/Requests/UpdateProductRequest.php:39-50 | A custom message for the exact attribute wins, then one for its wildcard pattern, then the default text. |
| Validation.Passes | app/Http/Requests/UpdateProductRequest.php:25-30 | `sometimes` and `nullable` never reject. A value that passes `integer` or `exists` is also numeric, except `true`. |
| Validation.Validatable | app/Http/Requests/UpdateProductRequest.php:25-30 | Only `required` runs on an absent attribute, and it runs unless `sometimes` skips it. `exists` runs only when no earlier rule failed. |
| Validation.RunRules | app/Http/Requests/UpdateProductRequest.php:22-31 | Running the rules only appends messages, at most one per rule. |
| Validation.AbsentSometimesPasses | app/Http/Requests/UpdateProductRequest.php:25-29 | `sometimes` on an absent attribute collects no message. |
| Validation.NoMessagesIff | app/Http/Requests/UpdateProductRequest.php:22-31 | An attribute collects no message exactly when every rule that runs passes. |
| Validation.SometimesRequiredOne | app/Http/Requests/UpdateProductRequest.php:26 | `sometimes`, `required`, then one rule x: nothing when absent, only the required message when empty, otherwise x's message exactly when x rejects the value. |
| Validation.SometimesRequiredTwo | app/Http/Requests/UpdateProductRequest.php:25 | `sometimes`, `required`, then rules x and y: nothing when absent, only the required message when empty, otherwise x's and y's messages in order. |
| Validation.NullableOne | app/Http/Requests/UpdateProductRequest.php:27 | `nullable`, then one rule x: an absent, null or blank value passes; otherwise x's message exactly when x rejects the value. |
| Validation.RequiredTwo | app/Http/Requests/BulkDeleteProductRequest.php:25 | `required`, then rules x and y: only the required message when empty, otherwise x's and y's messages in order. |
| Validation.RequiredThenExists | app/Http/Requests/BulkDeleteProductRequest.php:26 | `required`, a rule x, then `exists`: `exists` runs only when the earlier rules passed. |
| Validation.ErrorsOf | app/Http/Requests/UpdateProductRequest.php:22-31 | The error bag holds only validated attributes. |
| Validation.ErrorsOfEmptyIff | app/Http/Requests/UpdateProductRequest.php:22-31 | The bag is empty exactly when no attribute collects a message. |
| Validation.ErrorsOfAt | app/Http/Requests/UpdateProductRequest.php:22-31 | With distinct attributes, one attribute is in the bag exactly when it collected messages, and its entry is those messages. |
| Validation.ErrorsOfByAttribute | app/Http/Requests/UpdateProductRequest.php:22-31 | With distinct attributes, each attribute is in the bag exactly when it collected messages, and the bag holds those messages. |
| Validation.ValidatedFields | app/Http/Requests/UpdateProductRequest.php:22-31 | The validated data holds exactly the rule keys that were sent, with their values. |

## Left out

- Views, flash rendering, pagination links and the `number_format` display of prices are HTML and are not modelled.
- Routing, authentication and the 401 for requests without a token are framework plumbing.
- `show`, `create` and `edit` only read a row or render a form.
- The OpenAPI annotations are documentation. Only their list of required create fields is used.
- `styles()` and `Excel::download` are spreadsheet encoding, done by a foreign library.
- The seeders use random counts and write to the database.
- `StoreProductRequest` is not part of this model:
  - `store` takes an already validated `NewProduct`;
  - only the required-field list of the create request is stated (`MissingRequired`).
- `ProductResource` is not part of this model. The JSON body is modelled as the product record itself.
- The eager `with('category')` load is not modelled. The export takes the category names as a map.
- `updated_at` is not modelled.
- ApiProductController.IndexCovers and ProductsExport.SheetRows: a query without an ordering clause (the JSON `index`, the export's `collection()`) returns rows in an order SQL leaves unspecified. The model fixes that order to table (id) order, so the positions these two lemmas, `ApiProductController.Index` and `ProductsExport.Sheet` speak of are positions in that order.
- `latest()` breaks ties between equal creation times by table order. The database leaves that order unspecified.
- SQL `LIKE` is modelled as exact substring containment:
  - collation and case-insensitivity are not modelled;
  - `%` and `_` inside the term are not treated as wildcards.
- Request normalisation is not modelled: string trimming and turning empty strings into null. The `!== ''` guards are modelled literally.
- UpdateProductRequest.CategoryMessages and UpdateProductRequest.CategoryPasses: `category_id` has no `integer` rule, so `exists:categories,id` compares the raw value with the id column through the database's casts. On MySQL, texts such as `" 1"`, `"01"` or `"1abc"` name category 1. The model accepts only values `IntegerOf` reads as an integer: ints, plain numerals, `true` and whole floats. The casts are database-specific and are not modelled. An array of existing category ids (such as `[1]`) also passes `exists` in the source, which counts the array's distinct items with `whereIn`; the model rejects every array value there. (Items of `ids.*` are unaffected: `integer` rejects an array before `exists` runs.)
- `where('category_id', …)` and `where('enabled', …)` compare a query-string text with an integer column through the database's casts. The model matches only when the text is a decimal integer numeral equal to the column value; texts such as `" 1"` or `"1abc"` match nothing.
- Values.IntegerOf: PHP reads a float as an integer through its 14-significant-digit text. The model accepts exactly the whole floats below 10^14 in magnitude. Any fractional float whose 14-significant-digit text has no fractional part is accepted by PHP and rejected by the model: a float just off a whole number at any magnitude (2.0000000000000004 prints "2", 0.999999999999999 prints "1"), and every fractional float of magnitude at least 10^13. Floats are modelled as exact reals.
- `min` and `max` measure a float under a non-numeric rule by the length of its text; the model takes that length as 1. That text is never empty and always far shorter than 255 characters, so `min:1` on `ids` and `max:255` on `name` reach the same verdict.
- Object-valued request fields (a JSON object, which PHP decodes to an associative array) are not modelled: `Value` has only lists. In the source, `{"ids": {"a": 5}}` passes the bulk request, because `ids.*` expands to `ids.a` and `whereIn` takes the object's values.
- Values.ParseInteger and Values.ParseNumeric: integer and numeric strings are plain decimal numerals. PHP also accepts surrounding whitespace (`FILTER_VALIDATE_INT` trims it, `is_numeric` allows it), and `is_numeric` accepts exponents; the model rejects both.
- `max:255` measures a string's length in characters. Multibyte encoding is not modelled.
- The default (framework) message texts are stated as terms of `DefaultMessage`. No lemma spells one out as a literal.
- Years are limited to four digits (1000–9999), so `Y` is always four characters.
- Validation of category ids takes the category-id set as a parameter. The categories table is not modelled.
- `Row` requires that the product's category has a name: the foreign key guarantees this in the source.
