/**
 * Listing filters (internal/data/filters.go): validation of the page, page
 * size and sort parameters, the derived SQL sort column, direction, limit and
 * offset, and the pagination metadata sent with a listing.
 */
module Filters {

  datatype Filters = Filters(page: int, pageSize: int, sort: string, sortSafelist: seq<string>)

  /** The validator's error map: one message per failing key. */
  type Errors = map<string, string>

  /** The literal `10_000_00` written in the source, which is one million (the message says ten million). */
  const MaxPage: int := 10_000_00
  const MaxPageSize: int := 100

  const PageKey: string := "page"
  const PageSizeKey: string := "page_size"
  const SortKey: string := "sort"

  /**
   * The validator's `Check`: records `message` under `key` when `ok` is false.
   * A key that already holds a message keeps it.
   */
  function Check(errors: Errors, ok: bool, key: string, message: string): (r: Errors)
  {
    if ok || key in errors then errors else errors[key := message]
  }

  /** `ValidateFilters`: the five checks at filters.go:19-25, in order. */
  function ValidateFilters(errors: Errors, f: Filters): (r: Errors)
    ensures PageKey in r <==> PageKey in errors || f.page <= 0 || f.page > MaxPage
    ensures PageSizeKey in r <==> PageSizeKey in errors || f.pageSize <= 0 || f.pageSize > MaxPageSize
    ensures SortKey in r <==> SortKey in errors || f.sort !in f.sortSafelist
    ensures r.Keys <= errors.Keys + {PageKey, PageSizeKey, SortKey}
    ensures forall k :: k in errors ==> k in r && r[k] == errors[k]
  {
    var e := Check(errors, f.page > 0, PageKey, "must be greater than zero");
    var e := Check(e, f.page <= MaxPage, PageKey, "must be a maximum of 10 million");
    var e := Check(e, f.pageSize > 0, PageSizeKey, "must be greater than zero");
    var e := Check(e, f.pageSize <= MaxPageSize, PageSizeKey, "must be a maximum of 100");
    Check(e, f.sort in f.sortSafelist, SortKey, "invalid sort value")
  }

  /** Filters that pass validation from an empty validator. */
  predicate Valid(f: Filters)
  {
    ValidateFilters(map[], f) == map[]
  }

  /** Valid filters are exactly those with the page and page size in range and a safelisted sort. */
  lemma ValidIff(f: Filters)
    ensures Valid(f) <==>
      0 < f.page <= MaxPage && 0 < f.pageSize <= MaxPageSize && f.sort in f.sortSafelist
  {
    var r := ValidateFilters(map[], f);
    if !(0 < f.page <= MaxPage && 0 < f.pageSize <= MaxPageSize && f.sort in f.sortSafelist) {
      assert PageKey in r || PageSizeKey in r || SortKey in r;
    }
  }

  /** Each failing check of a fresh validator leaves the message written in the source. */
  lemma ValidateFiltersMessages(f: Filters)
    ensures var r := ValidateFilters(map[], f);
      && (f.page <= 0 ==> r[PageKey] == "must be greater than zero")
      && (f.page > MaxPage ==> r[PageKey] == "must be a maximum of 10 million")
      && (f.pageSize <= 0 ==> r[PageSizeKey] == "must be greater than zero")
      && (f.pageSize > MaxPageSize ==> r[PageSizeKey] == "must be a maximum of 100")
      && (f.sort !in f.sortSafelist ==> r[SortKey] == "invalid sort value")
  {
  }

  /** `strings.HasPrefix(s, "-")`. */
  predicate Descending(s: string)
  {
    |s| > 0 && s[0] == '-'
  }

  /** `sortDirection`: "DESC" exactly when the sort key carries a leading "-". */
  function SortDirection(f: Filters): (d: string)
    ensures d == "DESC" <==> "-" <= f.sort
    ensures d == "DESC" || d == "ASC"
  {
    if Descending(f.sort) then "DESC" else "ASC"
  }

  /**
   * `sortColumn`: defined only for a safelisted sort key (it panics
   * otherwise); that key with at most one leading "-" removed. The key is
   * recovered from the column and the direction.
   */
  function SortColumn(f: Filters): (c: string)
    requires f.sort in f.sortSafelist
    ensures (if SortDirection(f) == "DESC" then "-" + c else c) == f.sort
  {
    if Descending(f.sort) then f.sort[1..] else f.sort
  }

  /** `limit`: the page size, which valid filters keep between 1 and 100 rows. */
  function Limit(f: Filters): (l: int)
    ensures Valid(f) ==> 0 < l <= MaxPageSize
  {
    f.pageSize
  }

  /**
   * `offfset`: the number of records on the pages before this one, which
   * valid filters keep non-negative and below a hundred million.
   */
  function Offset(f: Filters): (o: int)
    ensures Valid(f) ==> 0 <= o < MaxPage * MaxPageSize
  {
    (f.page - 1) * f.pageSize
  }

  /**
   * For valid filters the page is the window [Offset, Offset + Limit): it
   * starts at a non-negative record, holds `pageSize` records, ends where
   * `page` full pages end, and stays far inside the 64-bit range.
   */
  lemma PageWindow(f: Filters)
    requires Valid(f)
    ensures 0 <= Offset(f) && Limit(f) == f.pageSize
    ensures Offset(f) + Limit(f) == f.page * f.pageSize
    ensures Offset(f) + Limit(f) <= MaxPage * MaxPageSize
  {
    ValidIff(f);
    var p, n := f.page, f.pageSize;
    MulNonNegative(p - 1, n);
    assert (p - 1) * n + n == p * n;
    MulMonotone(p, MaxPage, n);
    MulMonotone(n, MaxPageSize, MaxPage);
    assert MaxPage * n == n * MaxPage;
  }

  lemma MulNonNegative(a: int, b: int)
    requires a >= 0 && b >= 0
    ensures a * b >= 0
  {
  }

  lemma MulMonotone(a: int, b: int, c: int)
    requires a <= b && c >= 0
    ensures a * c <= b * c
  {
    assert b * c - a * c == (b - a) * c;
    MulNonNegative(b - a, c);
  }

  datatype Metadata = Metadata(currentPage: int, pageSize: int, firstPage: int, lastPage: int, totalRecords: int)

  /**
   * `CalculateMetaData`, with the last page computed by the integer ceiling
   * division that filters.go:76 gives in a comment. No records give the zero
   * metadata; otherwise the inputs are echoed, the first page is 1 and the
   * last page is the least number of pages that holds every record.
   */
  function CalculateMetaData(totalRecords: nat, page: int, pageSize: int): (m: Metadata)
    requires totalRecords > 0 ==> pageSize > 0
    ensures totalRecords == 0 ==> m == Metadata(0, 0, 0, 0, 0)
    ensures totalRecords > 0 ==>
      && m.currentPage == page && m.pageSize == pageSize && m.totalRecords == totalRecords
      && m.firstPage == 1 && m.lastPage >= 1
      && m.lastPage * pageSize >= totalRecords
      && (m.lastPage - 1) * pageSize < totalRecords
  {
    if totalRecords == 0 then Metadata(0, 0, 0, 0, 0)
    else
      var last := (totalRecords + pageSize - 1) / pageSize;
      CeilingDivision(totalRecords, pageSize);
      Metadata(page, pageSize, 1, last, totalRecords)
  }

  /** `(n + d - 1) / d` is the least `q` with `q * d >= n`. */
  lemma CeilingDivision(n: nat, d: int)
    requires n > 0 && d > 0
    ensures var q := (n + d - 1) / d;
      q >= 1 && q * d >= n && (q - 1) * d < n
  {
    var q := (n + d - 1) / d;
    var r := (n + d - 1) % d;
    assert n + d - 1 == q * d + r && 0 <= r < d;
    assert (q - 1) * d == q * d - d;
  }
}
