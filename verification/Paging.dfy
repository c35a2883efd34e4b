/** The pages of the customer table. */
module Paging {

  function CeilDiv(a: nat, b: nat): nat
    requires b > 0
  {
    (a + b - 1) / b
  }

  function TotalPages(count: nat, rowsPerPage: nat): (n: nat)
    ensures n >= 1
  {
    var pages := CeilDiv(count, if rowsPerPage > 1 then rowsPerPage else 1);
    if pages > 1 then pages else 1
  }

  /** `list.slice(start, end)` for bounds that are not negative. */
  function Slice<T>(list: seq<T>, start: nat, end: nat): seq<T> {
    var lo := if start < |list| then start else |list|;
    var hi := if end < |list| then end else |list|;
    if lo < hi then list[lo..hi] else []
  }

  function Page<T>(list: seq<T>, page: nat, rowsPerPage: nat): seq<T>
    requires page >= 1
  {
    var start := (page - 1) * rowsPerPage;
    Slice(list, start, start + rowsPerPage)
  }

  /** The effect that runs when the list gets shorter. */
  function ClampPage(page: nat, totalPages: nat): nat {
    if page > totalPages then totalPages else page
  }

  /** The numbers of the first and the last row shown. */
  function Range(count: nat, page: nat, rowsPerPage: nat): (nat, nat)
    requires page >= 1
  {
    if count == 0 then (0, 0)
    else
      var last := page * rowsPerPage;
      ((page - 1) * rowsPerPage + 1, if last < count then last else count)
  }

  /** The pages up to `n`, one behind the other. */
  function FirstPages<T>(list: seq<T>, n: nat, rowsPerPage: nat): seq<T> {
    if n == 0 then [] else FirstPages(list, n - 1, rowsPerPage) + Page(list, n, rowsPerPage)
  }

  lemma LastPage(count: nat, rowsPerPage: nat)
    requires rowsPerPage > 0
    ensures var n := TotalPages(count, rowsPerPage);
            (n - 1) * rowsPerPage <= count <= n * rowsPerPage
            && (count > 0 ==> (n - 1) * rowsPerPage < count)
  {
    var r := rowsPerPage;
    var q, m := (count + r - 1) / r, (count + r - 1) % r;
    assert count + r - 1 == q * r + m;
    assert (q - 1) * r == q * r - r;
  }

  lemma NextSlice<T>(list: seq<T>, start: nat, end: nat)
    requires start <= end
    ensures Slice(list, 0, start) + Slice(list, start, end) == Slice(list, 0, end)
  {
  }

  lemma AllSlice<T>(list: seq<T>, end: nat)
    requires |list| <= end
    ensures Slice(list, 0, end) == list
  {
  }

  lemma {:induction false} FirstPagesAre<T>(list: seq<T>, n: nat, rowsPerPage: nat)
    requires rowsPerPage > 0
    ensures FirstPages(list, n, rowsPerPage) == Slice(list, 0, n * rowsPerPage)
  {
    if n == 0 {
    } else {
      hide Slice;
      FirstPagesAre(list, n - 1, rowsPerPage);
      PageEnd(n, rowsPerPage);
      NextSlice(list, (n - 1) * rowsPerPage, n * rowsPerPage);
    }
  }

  /** Paging through shows every row once and in order. */
  lemma PagesPartition<T>(list: seq<T>, rowsPerPage: nat)
    requires rowsPerPage > 0
    ensures FirstPages(list, TotalPages(|list|, rowsPerPage), rowsPerPage) == list
  {
    var n := TotalPages(|list|, rowsPerPage);
    LastPage(|list|, rowsPerPage);
    FirstPagesAre(list, n, rowsPerPage);
    AllSlice(list, n * rowsPerPage);
  }

  lemma PageBound(page: nat, n: nat, rowsPerPage: nat)
    requires page <= n
    ensures page * rowsPerPage <= n * rowsPerPage
  {
    assert n * rowsPerPage == page * rowsPerPage + (n - page) * rowsPerPage;
  }

  /** After the clamp the page shown is not empty unless the list is, and the numbers above
      the table say which rows it shows. */
  lemma RangeIsPage<T>(list: seq<T>, page: nat, rowsPerPage: nat)
    requires rowsPerPage > 0 && page >= 1
    ensures var shown := ClampPage(page, TotalPages(|list|, rowsPerPage));
            var (from, to) := Range(|list|, shown, rowsPerPage);
            && shown >= 1
            && ((page - 1) * rowsPerPage < |list| ==> shown == page)
            && ((page - 1) * rowsPerPage >= |list| ==> shown * rowsPerPage >= |list|)
            && (list != [] ==> 1 <= from <= to <= |list| && Page(list, shown, rowsPerPage) == list[from - 1..to])
            && (list == [] ==> shown == 1 && Page(list, shown, rowsPerPage) == [] && from == to == 0)
  {
    var n := TotalPages(|list|, rowsPerPage);
    var shown := ClampPage(page, n);
    LastPage(|list|, rowsPerPage);
    PageBound(shown - 1, n - 1, rowsPerPage);
    PageBound(shown, n, rowsPerPage);
    PageEnd(shown, rowsPerPage);
    if page > n {
      PageBound(n, page - 1, rowsPerPage);
    } else {
      PageBound(page, n, rowsPerPage);
    }
    hide TotalPages;
  }

  lemma PageEnd(page: nat, rowsPerPage: nat)
    requires page >= 1
    ensures page * rowsPerPage == (page - 1) * rowsPerPage + rowsPerPage
  {
  }
}
