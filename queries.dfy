/** What the listing queries do to the products table: conditional `where`
    clauses, `latest()` ordering and `paginate(15)`. */
module Queries {
  import opened Values
  import opened Timestamps
  import opened Products

  const PerPage: nat := 15

  /** Query-string parameters: a parameter is sent exactly when it is a key. */
  type Query = map<string, string>

  /** `$request->input(key)`. */
  function Param(q: Query, key: string): (r: Option<string>)
    ensures r.Some? <==> key in q
    ensures r.Some? ==> r.value == q[key]
  {
    if key in q then Some(q[key]) else None
  }

  /** `where(column, text)` against an integer column: the text names the
      column's value as a decimal integer. */
  predicate TextEquals(text: string, column: int) {
    ParseInteger(text) == Some(column)
  }

  /** Only the column's own numeral matches. */
  lemma TextEqualsNumeral(column: int)
    requires MinInt64 <= column <= MaxInt64
    ensures TextEquals(IntToString(column), column)
    ensures forall other :: TextEquals(IntToString(column), other) ==> other == column
  {
    IntegerStringRoundTrip(column);
  }

  /** The rows, in table order, that satisfy `keep`. */
  function Where(rows: seq<Product>, keep: Product -> bool): (r: seq<Product>)
    ensures |r| <= |rows|
    ensures forall k :: 0 <= k < |r| ==> keep(r[k])
  {
    if rows == [] then []
    else (if keep(rows[0]) then [rows[0]] else []) + Where(rows[1..], keep)
  }

  /** A row is kept exactly when it is in the table and satisfies `keep`. */
  lemma {:induction false} WhereMembers(rows: seq<Product>, keep: Product -> bool, p: Product)
    ensures p in Where(rows, keep) <==> p in rows && keep(p)
  {
    if rows != [] {
      WhereMembers(rows[1..], keep, p);
      assert rows == [rows[0]] + rows[1..];
    }
  }

  /** Keeping rows preserves increasing ids, so a filtered listing has no duplicates. */
  lemma {:induction false} WhereKeepsIdsIncreasing(rows: seq<Product>, keep: Product -> bool)
    requires IdsIncrease(rows)
    ensures IdsIncrease(Where(rows, keep))
  {
    if rows != [] {
      WhereKeepsIdsIncreasing(rows[1..], keep);
      var rest := Where(rows[1..], keep);
      forall k | 0 <= k < |rest| ensures rows[0].id < rest[k].id {
        WhereMembers(rows[1..], keep, rest[k]);
        var j :| 0 <= j < |rows[1..]| && rows[1..][j] == rest[k];
        assert rows[j + 1] == rest[k];
      }
    }
  }

  /** `term` occurs in `s` as a contiguous run. */
  function Contains(s: string, term: string): (r: bool)
    ensures r ==> |term| <= |s|
  {
    if term <= s then true
    else if s == [] then false
    else Contains(s[1..], term)
  }

  /** `term` occurs in `s` starting at position `i`. */
  predicate OccursAt(s: string, term: string, i: nat) {
    i + |term| <= |s| && s[i..i + |term|] == term
  }

  /** `Contains` is substring occurrence. */
  lemma {:induction false} ContainsIff(s: string, term: string)
    ensures Contains(s, term) <==> exists i: nat :: OccursAt(s, term, i)
  {
    if term <= s {
      assert OccursAt(s, term, 0);
    } else if s != [] {
      ContainsIff(s[1..], term);
      forall i: nat | OccursAt(s, term, i) ensures i >= 1 && OccursAt(s[1..], term, i - 1) {
        assert i != 0;
        assert s[1..][i - 1..i - 1 + |term|] == s[i..i + |term|];
      }
      forall i: nat | OccursAt(s[1..], term, i) ensures OccursAt(s, term, i + 1) {
        assert s[1..][i..i + |term|] == s[i + 1..i + 1 + |term|];
      }
    }
  }

  /** "Not earlier than" is transitive. */
  lemma NotEarlierTransitive(a: DateTime, b: DateTime, c: DateTime)
    requires !Earlier(a, b) && !Earlier(b, c)
    ensures !Earlier(a, c)
  {
    EarlierIsStrictTotalOrder(a, b, c);
    EarlierIsStrictTotalOrder(c, b, a);
    EarlierIsStrictTotalOrder(b, a, c);
  }

  /** A row not older than any row of a newest-first listing can go in front. */
  lemma ConsNewestFirst(x: Product, rest: seq<Product>)
    requires NewestFirst(rest)
    requires forall k :: 0 <= k < |rest| ==> !Earlier(x.createdAt, rest[k].createdAt)
    ensures NewestFirst([x] + rest)
  {
    var s := [x] + rest;
    forall i, j | 0 <= i < j < |s| ensures !Earlier(s[i].createdAt, s[j].createdAt) {
      assert s[j] == rest[j - 1];
      if i > 0 {
        assert s[i] == rest[i - 1];
      }
    }
  }

  /** Inserts `p` into a newest-first listing, before every row that is not newer. */
  function Insert(p: Product, sorted: seq<Product>): (r: seq<Product>)
    ensures |r| == |sorted| + 1
    ensures multiset(r) == multiset(sorted) + multiset{p}
    ensures NewestFirst(sorted) ==> NewestFirst(r)
  {
    if sorted == [] then [p]
    else if !Earlier(p.createdAt, sorted[0].createdAt) then
      assert NewestFirst(sorted) ==> NewestFirst([p] + sorted) by {
        if NewestFirst(sorted) { InsertInFront(p, sorted); }
      }
      [p] + sorted
    else
      var tail := sorted[1..];
      var rest := Insert(p, tail);
      assert sorted == [sorted[0]] + tail;
      assert NewestFirst(sorted) ==> NewestFirst([sorted[0]] + rest) by {
        if NewestFirst(sorted) { InsertBehind(p, sorted, rest); }
      }
      [sorted[0]] + rest
  }

  /** A row not older than the newest stays newest-first in front. */
  lemma InsertInFront(p: Product, sorted: seq<Product>)
    requires sorted != [] && !Earlier(p.createdAt, sorted[0].createdAt) && NewestFirst(sorted)
    ensures NewestFirst([p] + sorted)
  {
    forall k | 0 <= k < |sorted| ensures !Earlier(p.createdAt, sorted[k].createdAt) {
      if k > 0 {
        NotEarlierTransitive(p.createdAt, sorted[0].createdAt, sorted[k].createdAt);
      }
    }
    ConsNewestFirst(p, sorted);
  }

  /** A row older than the head, inserted into the tail, keeps the head first. */
  lemma InsertBehind(p: Product, sorted: seq<Product>, rest: seq<Product>)
    requires sorted != [] && Earlier(p.createdAt, sorted[0].createdAt) && NewestFirst(sorted)
    requires multiset(rest) == multiset(sorted[1..]) + multiset{p}
    requires NewestFirst(sorted[1..]) ==> NewestFirst(rest)
    ensures NewestFirst([sorted[0]] + rest)
  {
    var tail := sorted[1..];
    assert NewestFirst(tail) by {
      forall i, j | 0 <= i < j < |tail| ensures !Earlier(tail[i].createdAt, tail[j].createdAt) {
        assert tail[i] == sorted[i + 1] && tail[j] == sorted[j + 1];
      }
    }
    forall k | 0 <= k < |rest| ensures !Earlier(sorted[0].createdAt, rest[k].createdAt) {
      assert rest[k] in multiset(rest);
      if rest[k] != p {
        assert rest[k] in multiset(tail);
        var j :| 0 <= j < |tail| && tail[j] == rest[k];
        assert sorted[j + 1] == rest[k];
      } else {
        EarlierIsStrictTotalOrder(p.createdAt, sorted[0].createdAt, p.createdAt);
      }
    }
    ConsNewestFirst(sorted[0], rest);
  }

  /** Rows from newest to oldest by creation time. */
  ghost predicate NewestFirst(s: seq<Product>) {
    forall i, j :: 0 <= i < j < |s| ==> !Earlier(s[i].createdAt, s[j].createdAt)
  }

  /** `latest()`: the rows ordered by `created_at`, newest first; rows created
      at the same moment keep their table order. */
  function Latest(rows: seq<Product>): (r: seq<Product>)
    ensures |r| == |rows|
    ensures multiset(r) == multiset(rows)
    ensures NewestFirst(r)
  {
    if rows == [] then []
    else
      assert rows == [rows[0]] + rows[1..];
      Insert(rows[0], Latest(rows[1..]))
  }

  /** Reordering keeps exactly the same rows. */
  lemma LatestMembers(rows: seq<Product>, p: Product)
    ensures p in Latest(rows) <==> p in rows
  {
    assert p in Latest(rows) <==> p in multiset(Latest(rows));
    assert p in rows <==> p in multiset(rows);
  }

  /** `paginate` resolves the current page from the `page` parameter: an
      integer of at least 1, else 1. */
  function CurrentPage(page: Option<string>): (n: nat)
    ensures n >= 1
    ensures page.Some? && ParseInteger(page.value).Some? && ParseInteger(page.value).value >= 1
            ==> n == ParseInteger(page.value).value
    ensures (page.None? || ParseInteger(page.value).None? || ParseInteger(page.value).value < 1) ==> n == 1
  {
    if page.Some? && ParseInteger(page.value).Some? && ParseInteger(page.value).value >= 1
    then ParseInteger(page.value).value else 1
  }

  /** Page `n` (from 1) of a listing: the rows at positions [(n-1)*15, n*15). */
  function Paginate(rows: seq<Product>, n: nat): (r: seq<Product>)
    requires n >= 1
    ensures |r| <= PerPage
    ensures (n - 1) * PerPage >= |rows| ==> r == []
    ensures (n - 1) * PerPage < |rows| ==>
              |r| == (if n * PerPage <= |rows| then PerPage else |rows| - (n - 1) * PerPage)
    ensures forall k :: 0 <= k < |r| ==> (n - 1) * PerPage + k < |rows| && r[k] == rows[(n - 1) * PerPage + k]
  {
    var lo := (n - 1) * PerPage;
    if lo >= |rows| then []
    else rows[lo..if n * PerPage <= |rows| then n * PerPage else |rows|]
  }

  /** Every row of a listing is on exactly one page: row k is entry k % 15 of page k / 15 + 1. */
  lemma PaginateCovers(rows: seq<Product>, k: nat)
    requires k < |rows|
    ensures var n := k / PerPage + 1;
            k % PerPage < |Paginate(rows, n)| && Paginate(rows, n)[k % PerPage] == rows[k]
  {
    var n := k / PerPage + 1;
    assert (n - 1) * PerPage + k % PerPage == k;
  }

  /** A page of a newest-first listing is newest first. */
  lemma PaginateKeepsOrder(rows: seq<Product>, n: nat)
    requires n >= 1 && NewestFirst(rows)
    ensures NewestFirst(Paginate(rows, n))
  {
    var r := Paginate(rows, n);
    forall i, j | 0 <= i < j < |r| ensures !Earlier(r[i].createdAt, r[j].createdAt) {
      assert r[i] == rows[(n - 1) * PerPage + i] && r[j] == rows[(n - 1) * PerPage + j];
    }
  }

  /** No two rows of a listing share an id. */
  ghost predicate DistinctIds(s: seq<Product>) {
    forall i, j :: 0 <= i < j < |s| ==> s[i].id != s[j].id
  }

  /** A page of a listing without duplicates has none. */
  lemma PaginateKeepsDistinct(rows: seq<Product>, n: nat)
    requires n >= 1 && DistinctIds(rows)
    ensures DistinctIds(Paginate(rows, n))
  {
    var r := Paginate(rows, n);
    forall i, j | 0 <= i < j < |r| ensures r[i].id != r[j].id {
      assert r[i] == rows[(n - 1) * PerPage + i] && r[j] == rows[(n - 1) * PerPage + j];
    }
  }

  /** The rows an insertion adds to are the old rows and `p`. */
  lemma InsertMembers(p: Product, sorted: seq<Product>, q: Product)
    ensures q in Insert(p, sorted) <==> q == p || q in sorted
  {
    assert q in Insert(p, sorted) <==> q in multiset(Insert(p, sorted));
    assert q in sorted <==> q in multiset(sorted);
  }

  /** Inserting a row whose id is new keeps the ids distinct. */
  lemma {:induction false} InsertKeepsDistinct(p: Product, sorted: seq<Product>)
    requires DistinctIds(sorted)
    requires forall k :: 0 <= k < |sorted| ==> sorted[k].id != p.id
    ensures DistinctIds(Insert(p, sorted))
  {
    if sorted != [] && Earlier(p.createdAt, sorted[0].createdAt) {
      var tail := sorted[1..];
      InsertKeepsDistinct(p, tail);
      var rest := Insert(p, tail);
      forall k | 0 <= k < |rest| ensures rest[k].id != sorted[0].id {
        InsertMembers(p, tail, rest[k]);
        if rest[k] != p {
          var j :| 0 <= j < |tail| && tail[j] == rest[k];
          assert sorted[j + 1] == rest[k];
        }
      }
    }
  }

  /** Ordering a listing without duplicates keeps it without duplicates. */
  lemma {:induction false} LatestKeepsDistinct(rows: seq<Product>)
    requires DistinctIds(rows)
    ensures DistinctIds(Latest(rows))
  {
    if rows != [] {
      var tail := rows[1..];
      LatestKeepsDistinct(tail);
      forall k | 0 <= k < |Latest(tail)| ensures Latest(tail)[k].id != rows[0].id {
        LatestMembers(tail, Latest(tail)[k]);
        var j :| 0 <= j < |tail| && tail[j] == Latest(tail)[k];
        assert rows[j + 1] == tail[j];
      }
      InsertKeepsDistinct(rows[0], Latest(tail));
    }
  }

  /** What a paginator hands to the view or resource collection. */
  datatype Page = Page(items: seq<Product>, total: nat, currentPage: nat, perPage: nat)

  /** `paginate(15)` over a finished query. */
  function PageOf(listing: seq<Product>, page: Option<string>): (r: Page)
    ensures r.total == |listing| && r.perPage == PerPage && r.currentPage == CurrentPage(page)
    ensures r.items == Paginate(listing, CurrentPage(page))
  {
    Page(Paginate(listing, CurrentPage(page)), |listing|, CurrentPage(page), PerPage)
  }
}
