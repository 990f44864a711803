/** Fixed-size pages of the agents table in src/pages/AnalysisPage.js: the
    slice of sorted rows a page shows and the page count the pager offers. */
module Paging {
  const RowsPerPage: nat := 15

  /** `Array.prototype.slice(start, end)` for non-negative bounds: both are
      clamped to the length, and a start past the end gives nothing. */
  function Slice<T>(s: seq<T>, start: nat, end: nat): (r: seq<T>)
    ensures |r| == if start < end && start < |s| then (if end < |s| then end else |s|) - start else 0
    ensures forall k :: 0 <= k < |r| ==> r[k] == s[start + k]
  {
    var e := if end < |s| then end else |s|;
    if start < e then s[start..e] else []
  }

  /** `.slice((page - 1) * rowsPerPage, page * rowsPerPage)`: the rows of page `page`. */
  function PageRows<T>(s: seq<T>, page: nat): (r: seq<T>)
    requires page >= 1
  {
    Slice(s, (page - 1) * RowsPerPage, page * RowsPerPage)
  }

  /** `Math.ceil(n / rowsPerPage)`. */
  function PageCount(n: nat): (c: nat)
    ensures c * RowsPerPage >= n
    ensures c == 0 || (c - 1) * RowsPerPage < n
  {
    (n + RowsPerPage - 1) / RowsPerPage
  }

  /** A page holds the rows from its first position on, at most a full page. */
  lemma PageContents<T>(s: seq<T>, page: nat)
    requires page >= 1
    ensures var first := (page - 1) * RowsPerPage;
      && |PageRows(s, page)| == (if first < |s| then (if |s| - first < RowsPerPage then |s| - first else RowsPerPage) else 0)
      && forall k :: 0 <= k < |PageRows(s, page)| ==> PageRows(s, page)[k] == s[first + k]
  {
  }

  /** Every row is shown on exactly one page the pager offers, at position
      `k % rowsPerPage` of page `k / rowsPerPage + 1`. */
  lemma RowOnItsPage<T>(s: seq<T>, k: nat)
    requires k < |s|
    ensures var page := k / RowsPerPage + 1;
      && page <= PageCount(|s|)
      && k % RowsPerPage < |PageRows(s, page)|
      && PageRows(s, page)[k % RowsPerPage] == s[k]
  {
    var page := k / RowsPerPage + 1;
    assert (page - 1) * RowsPerPage + k % RowsPerPage == k;
  }

  /** Pages after the last one the pager offers are empty. */
  lemma PagesPastCountEmpty<T>(s: seq<T>, page: nat)
    requires page > PageCount(|s|)
    ensures PageRows(s, page) == []
  {
    assert (page - 1) * RowsPerPage >= PageCount(|s|) * RowsPerPage;
  }

  /** 32 rows give 3 pages, the last holding 2 rows. */
  lemma ThirtyTwoRows<T>(s: seq<T>)
    requires |s| == 32
    ensures PageCount(|s|) == 3
    ensures |PageRows(s, 3)| == 2 && PageRows(s, 3) == s[30..]
  {
  }
}
