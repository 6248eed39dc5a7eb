/** The spreadsheet export: every active product as one row of eight cells
    under a fixed heading row. */
module ProductsExport {
  import opened Values
  import opened Timestamps
  import opened Products
  import opened Queries

  /** A spreadsheet cell: an integer, a number, a text or nothing. */
  datatype Cell = IntCell(i: int) | NumCell(x: real) | TextCell(t: string) | Empty

  /** `headings()` */
  const Headings: seq<string> :=
    ["ID", "Name", "Category", "Description", "Price", "Stock", "Status", "Created At"]

  /** The heading row names eight columns, none of them twice. */
  lemma HeadingsDistinct()
    ensures |Headings| == 8
    ensures forall i, j :: 0 <= i < j < |Headings| ==> Headings[i] != Headings[j]
  {
    assert Headings[2][1] != Headings[7][1];
  }

  /** `collection()`: the default query, so only rows not soft-deleted, in table order. */
  function Collection(rows: seq<Product>): (r: seq<Product>)
    ensures |r| <= |rows|
    ensures forall k :: 0 <= k < |r| ==> Active(r[k])
  {
    Where(rows, Active)
  }

  /** The exported rows are exactly the active ones, each once. */
  lemma CollectionExact(rows: seq<Product>, p: Product)
    requires IdsIncrease(rows)
    ensures p in Collection(rows) <==> p in rows && Active(p)
    ensures DistinctIds(Collection(rows))
  {
    WhereMembers(rows, Active, p);
    WhereKeepsIdsIncreasing(rows, Active);
  }

  /** The Status cell's text. */
  function StatusText(enabled: bool): (t: string)
    ensures t == "Enabled" <==> enabled
    ensures t == "Disabled" <==> !enabled
  {
    if enabled then "Enabled" else "Disabled"
  }

  /** `map($product)`; `categories` maps each category id to its name, and the
      product's category is one of them. */
  function Row(p: Product, categories: map<int, string>): (cells: seq<Cell>)
    requires p.categoryId in categories && Timestamps.Valid(p.createdAt)
    ensures |cells| == |Headings|
  {
    [ IntCell(p.id),
      TextCell(p.name),
      TextCell(categories[p.categoryId]),
      if p.description.Some? then TextCell(p.description.value) else Empty,
      NumCell(p.price),
      IntCell(p.stock),
      TextCell(StatusText(p.enabled)),
      TextCell(FormatDateTime(p.createdAt)) ]
  }

  /** The cell under a heading holds the product field that heading names. */
  lemma RowAligned(p: Product, categories: map<int, string>)
    requires p.categoryId in categories && Timestamps.Valid(p.createdAt)
    ensures var cells := Row(p, categories);
      && cells[0] == IntCell(p.id)
      && cells[1] == TextCell(p.name)
      && cells[2] == TextCell(categories[p.categoryId])
      && (cells[3] == Empty <==> p.description.None?)
      && (p.description.Some? ==> cells[3] == TextCell(p.description.value))
      && cells[4] == NumCell(p.price)
      && cells[5] == IntCell(p.stock)
      && cells[6] == TextCell(StatusText(p.enabled))
      && (cells[6] == TextCell("Enabled") <==> p.enabled)
      && (cells[6] == TextCell("Disabled") <==> !p.enabled)
  {
    assert Row(p, categories)[6] == TextCell(StatusText(p.enabled));
  }

  /** The Created At cell is a 19-character text that reads back as the
      creation time. */
  lemma RowCreatedAt(p: Product, categories: map<int, string>)
    requires p.categoryId in categories && Timestamps.Valid(p.createdAt)
    ensures var cells := Row(p, categories);
      && cells[7].TextCell? && |cells[7].t| == 19
      && ParseDateTime(cells[7].t) == Some(p.createdAt)
  {
    assert Row(p, categories)[7] == TextCell(FormatDateTime(p.createdAt));
    FormatThenParse(p.createdAt);
  }

  /** Every category an active row refers to has a name. */
  ghost predicate CategoriesKnown(rows: seq<Product>, categories: map<int, string>) {
    forall k :: 0 <= k < |rows| ==> Active(rows[k]) ==> rows[k].categoryId in categories
  }

  /** Every row's creation time is a valid date. */
  ghost predicate TimesValid(rows: seq<Product>) {
    forall k :: 0 <= k < |rows| ==> Timestamps.Valid(rows[k].createdAt)
  }

  /** The whole sheet: the heading row, then one row per exported product. */
  function Sheet(rows: seq<Product>, categories: map<int, string>): (sheet: seq<seq<Cell>>)
    requires CategoriesKnown(rows, categories) && TimesValid(rows)
    ensures |sheet| == 1 + |Collection(rows)|
    ensures sheet[0] == seq(|Headings|, k requires 0 <= k < |Headings| => TextCell(Headings[k]))
  {
    var exported := Collection(rows);
    forall k | 0 <= k < |exported|
      ensures exported[k].categoryId in categories && Timestamps.Valid(exported[k].createdAt)
    {
      WhereMembers(rows, Active, exported[k]);
    }
    [seq(|Headings|, k requires 0 <= k < |Headings| => TextCell(Headings[k]))] +
    seq(|exported|, k requires 0 <= k < |exported| => Row(exported[k], categories))
  }

  /** Below the heading, sheet row `k + 1` maps exported product `k`, and every
      row has as many cells as there are headings. */
  lemma SheetRows(rows: seq<Product>, categories: map<int, string>, k: nat)
    requires CategoriesKnown(rows, categories) && TimesValid(rows)
    requires k < |Collection(rows)|
    ensures var p := Collection(rows)[k];
      && p in rows && Active(p)
      && p.categoryId in categories && Timestamps.Valid(p.createdAt)
      && Sheet(rows, categories)[k + 1] == Row(p, categories)
      && |Sheet(rows, categories)[k + 1]| == |Headings|
  {
    WhereMembers(rows, Active, Collection(rows)[k]);
  }
}
