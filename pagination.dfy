/** PaginationHelper: the page window and the metadata of a paginated listing. */
module Pagination {
  import opened Wrappers

  /**
   * The `page` and `limit` query options. `None` is `undefined`; a value of 0 is falsy
   * in JavaScript and behaves like `undefined` in every `&&` and `||` below.
   */
  datatype PageOptions = PageOptions(page: Option<int>, limit: Option<int>)

  predicate Truthy(n: Option<int>) {
    n.Some? && n.value != 0
  }

  /** OFFSET and LIMIT handed to the query builder. */
  datatype Window = Window(skip: int, take: int)

  datatype Meta = Meta(total: nat, page: int, limit: int)

  datatype Paginated<T> = Paginated(data: seq<T>, meta: Meta)

  /** applyPagination: a window only when both options are truthy. */
  function ApplyPagination(o: PageOptions): (w: Option<Window>)
    ensures w.Some? <==> Truthy(o.page) && Truthy(o.limit)
    ensures w.Some? ==> w.value.take == o.limit.value
    ensures w.Some? ==> w.value.skip == (o.page.value - 1) * o.limit.value
  {
    if Truthy(o.limit) && Truthy(o.page) then
      Some(Window((o.page.value - 1) * o.limit.value, o.limit.value))
    else None
  }

  function Min(a: int, b: int): int {
    if a <= b then a else b
  }

  /**
   * The rows a window keeps, as OFFSET/LIMIT do once the rows are ordered.
   * MySQL refuses a negative OFFSET or LIMIT, so such a window is an error.
   */
  function Select<T>(rows: seq<T>, w: Option<Window>): (r: Result<seq<T>, string>)
    ensures w.None? ==> r == Success(rows)
    ensures w.Some? ==> (r.Success? <==> w.value.skip >= 0 && w.value.take >= 0)
    ensures r.Success? && w.Some? ==>
              |r.value| <= w.value.take &&
              forall i :: 0 <= i < |r.value| ==> w.value.skip + i < |rows| && r.value[i] == rows[w.value.skip + i]
  {
    match w
    case None => Success(rows)
    case Some(win) =>
      if win.skip < 0 || win.take < 0 then Failure("negative OFFSET or LIMIT")
      else
        var lo := Min(win.skip, |rows|);
        Success(rows[lo..Min(win.skip + win.take, |rows|)])
  }

  /**
   * executePaginatedQuery over the already filtered and ordered rows: the count is taken
   * before the window is applied, and the metadata falls back to page 1 and to the count.
   */
  function ExecutePaginatedQuery<T>(rows: seq<T>, o: PageOptions): (r: Result<Paginated<T>, string>)
    ensures r.Success? ==> r.value.meta.total == |rows|
    ensures r.Success? ==> forall x :: x in r.value.data ==> x in rows
    ensures r.Success? ==> r.value.meta.page == (if Truthy(o.page) then o.page.value else 1)
    ensures r.Success? ==> r.value.meta.limit == (if Truthy(o.limit) then o.limit.value else |rows|)
    ensures !(Truthy(o.page) && Truthy(o.limit)) ==> r.Success? && r.value.data == rows
    ensures Truthy(o.page) && Truthy(o.limit) && o.page.value >= 1 && o.limit.value >= 1 ==>
              r.Success? && r.value.data == PageOf(rows, o.page.value, o.limit.value)
  {
    if Truthy(o.page) && Truthy(o.limit) && o.page.value >= 1 && o.limit.value >= 1 then
      PageStep(o.page.value, o.limit.value);
      Paginate(rows, o)
    else Paginate(rows, o)
  }

  function Paginate<T>(rows: seq<T>, o: PageOptions): Result<Paginated<T>, string> {
    var total := |rows|;
    var data :- Select(rows, ApplyPagination(o));
    Success(Paginated(data, Meta(total,
      if Truthy(o.page) then o.page.value else 1,
      if Truthy(o.limit) then o.limit.value else total)))
  }

  /** What page `page` of `limit` rows shows: rows (page − 1)·limit up to page·limit, as far as there are rows. */
  function PageOf<T>(rows: seq<T>, page: int, limit: int): (r: seq<T>)
    requires page >= 1 && limit >= 1
    ensures |r| <= limit
  {
    PageStep(page, limit);
    rows[Min((page - 1) * limit, |rows|)..Min(page * limit, |rows|)]
  }

  /** The total does not depend on which page is asked for. */
  lemma TotalIndependentOfPage<T>(rows: seq<T>, o1: PageOptions, o2: PageOptions)
    requires ExecutePaginatedQuery(rows, o1).Success? && ExecutePaginatedQuery(rows, o2).Success?
    ensures ExecutePaginatedQuery(rows, o1).value.meta.total == ExecutePaginatedQuery(rows, o2).value.meta.total
  {
  }

  /** The data of pages 1..n, one after the other. */
  function Pages<T>(rows: seq<T>, limit: int, n: nat): seq<T>
    requires limit >= 1
  {
    if n == 0 then []
    else
      var r := ExecutePaginatedQuery(rows, PageOptions(Some(n), Some(limit)));
      Pages(rows, limit, n - 1) + r.value.data
  }

  /** Walking the pages in order visits every row once, in order: the first n pages are a prefix. */
  lemma {:induction false} PagesArePrefix<T>(rows: seq<T>, limit: int, n: nat)
    requires limit >= 1
    ensures Pages(rows, limit, n) == rows[..Min(n * limit, |rows|)]
  {
    var hi := Min(n * limit, |rows|);
    if n == 0 {
      assert hi == 0;
    } else {
      PagesArePrefix(rows, limit, n - 1);
      PagesStep(rows, limit, n);
      var lo := Min((n - 1) * limit, |rows|);
      PageOfWindow(rows, n, limit, lo, hi);
      AppendWindow(rows, Pages(rows, limit, n - 1), PageOf(rows, n, limit), lo, hi);
      assert Pages(rows, limit, n) == rows[..hi];
    }
  }

  /** Page n of PageOf is the window from lo to hi. */
  lemma PageOfWindow<T>(rows: seq<T>, n: nat, limit: int, lo: int, hi: int)
    requires limit >= 1 && n >= 1
    requires lo == Min((n - 1) * limit, |rows|) && hi == Min(n * limit, |rows|)
    ensures 0 <= lo <= hi <= |rows| && PageOf(rows, n, limit) == rows[lo..hi]
  {
    PageStep(n, limit);
  }

  /** The rows up to lo followed by the rows from lo up to hi are the rows up to hi. */
  lemma AppendWindow<T>(rows: seq<T>, prefix: seq<T>, page: seq<T>, lo: int, hi: int)
    requires 0 <= lo <= hi <= |rows| && prefix == rows[..lo] && page == rows[lo..hi]
    ensures prefix + page == rows[..hi]
  {
    assert rows[..hi] == rows[..lo] + rows[lo..hi];
  }

  /** Walking one page further appends that page's rows. */
  lemma PagesStep<T>(rows: seq<T>, limit: int, n: nat)
    requires limit >= 1 && n >= 1
    ensures Pages(rows, limit, n) == Pages(rows, limit, n - 1) + PageOf(rows, n, limit)
  {
  }

  /** Page n holds the rows from (n − 1)·limit up to n·limit, as far as there are rows. */
  lemma PageData<T>(rows: seq<T>, limit: int, n: nat, lo: int, hi: int)
    requires limit >= 1 && n >= 1
    requires lo == Min((n - 1) * limit, |rows|) && hi == Min(n * limit, |rows|)
    requires (n - 1) * limit >= 0 && (n - 1) * limit + limit == n * limit
    ensures 0 <= lo <= hi <= |rows|
    ensures ExecutePaginatedQuery(rows, PageOptions(Some(n), Some(limit))).value.data == rows[lo..hi]
  {
  }

  lemma PageStep(n: nat, limit: int)
    requires n >= 1 && limit >= 1
    ensures (n - 1) * limit >= 0 && (n - 1) * limit + limit == n * limit
  {
    var k: nat := n - 1;
    assert k * limit >= 0;
  }

  /** Enough pages cover all the rows. */
  lemma PagesCoverRows<T>(rows: seq<T>, limit: int, n: nat)
    requires limit >= 1 && n * limit >= |rows|
    ensures Pages(rows, limit, n) == rows
  {
    PagesArePrefix(rows, limit, n);
  }
}
