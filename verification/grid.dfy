/**
 * The virtual grid: 1000 cell ids `cell-0` .. `cell-999`, shown 100 per
 * page, and the guarded page change of the previous/next controls.
 */
module Grid {
  import opened Text

  const GridSize: nat := 1000
  const RowsPerPage: nat := 100

  /** The id of the cell with index `i`: `cell-` followed by `i` in decimal. */
  function CellId(i: nat): (id: string)
    ensures |id| > 5 && id[..5] == "cell-"
    ensures forall j :: 5 <= j < |id| ==> IsDigit(id[j])
    ensures DecimalValue(id[5..]) == i
    ensures id[5] == '0' ==> id == "cell-0"
  {
    var id := "cell-" + NatToString(i);
    assert id[5..] == NatToString(i);
    DecimalRoundTrip(i);
    id
  }

  /** Different indices give different ids. */
  lemma CellIdInjective(a: nat, b: nat)
    ensures CellId(a) == CellId(b) ==> a == b
  {
    if CellId(a) == CellId(b) {
      assert CellId(a)[5..] == NatToString(a);
      assert CellId(b)[5..] == NatToString(b);
      NatToStringInjective(a, b);
    }
  }

  /** All ids of the grid, in index order. */
  function GridIds(): (ids: seq<string>)
    ensures |ids| == GridSize
    ensures forall i :: 0 <= i < GridSize ==> ids[i] == CellId(i)
  {
    seq(GridSize, i requires 0 <= i => CellId(i))
  }

  /** Where JavaScript's `slice` puts a bound for a sequence of length `len`:
      a negative bound counts from the end, and every bound is clamped to
      the sequence. */
  function SliceBound(len: nat, x: int): (b: nat)
    ensures b <= len
    ensures 0 <= x <= len ==> b == x
    ensures x > len ==> b == len
    ensures x < 0 && len + x >= 0 ==> b == len + x
    ensures len + x < 0 ==> b == 0
  {
    if x < 0 then (if len + x < 0 then 0 else len + x)
    else if x > len then len
    else x
  }

  /** JavaScript's `slice(start, end)` on a sequence: never fails, empty when
      the clamped bounds cross. */
  function JsSlice<T>(s: seq<T>, start: int, end: int): (r: seq<T>)
    ensures |r| <= |s|
    ensures 0 <= start <= end <= |s| ==> r == s[start..end]
  {
    var from, to := SliceBound(|s|, start), SliceBound(|s|, end);
    if from < to then s[from..to] else []
  }

  /** The ids the grid renders on `page`. */
  function PageIds(page: int): (ids: seq<string>)
    ensures |ids| <= RowsPerPage
    ensures forall k :: 0 <= k < |ids| ==> ids[k] in GridIds()
  {
    var start := page * RowsPerPage;
    JsSlice(GridIds(), start, start + RowsPerPage)
  }

  /** The page change guard: a page is accepted iff it is non-negative and
      starts inside the grid, i.e. iff it is one of the ten pages 0 .. 9;
      any other request leaves the page as it was. */
  function PageChange(page: int, newPage: int): (r: int)
    ensures 0 <= newPage <= 9 ==> r == newPage
    ensures !(0 <= newPage <= 9) ==> r == page
    ensures 0 <= page <= 9 ==> 0 <= r <= 9
  {
    if newPage >= 0 && newPage * RowsPerPage < GridSize then newPage else page
  }

  /** The previous control is disabled on the first page; on a valid page
      it is enabled exactly when pressing it would move the page. */
  predicate PreviousEnabled(page: int)
    ensures 0 <= page <= 9 ==> (PreviousEnabled(page) <==> PageChange(page, page - 1) != page)
  {
    page != 0
  }

  /** The next control is disabled once the following page would start past
      the end of the grid; on a valid page it is enabled exactly when
      pressing it would move the page. */
  predicate NextEnabled(page: int)
    ensures 0 <= page <= 9 ==> (NextEnabled(page) <==> PageChange(page, page + 1) != page)
  {
    (page + 1) * RowsPerPage < GridSize
  }

  /** From any valid page, the previous and next controls move the page
      exactly when they are enabled, and are no-ops at the edges. */
  lemma ControlsMatchGuard(page: int)
    requires 0 <= page <= 9
    ensures PageChange(page, page - 1) == (if PreviousEnabled(page) then page - 1 else page)
    ensures PageChange(page, page + 1) == (if NextEnabled(page) then page + 1 else page)
    ensures PreviousEnabled(page) <==> page > 0
    ensures NextEnabled(page) <==> page < 9
  {
  }

  /** Every valid page shows exactly 100 ids, those of the indices
      `100 * page + k` for k = 0 .. 99, in increasing index order. */
  lemma PageIdsExact(page: int)
    requires 0 <= page <= 9
    ensures |PageIds(page)| == RowsPerPage
    ensures forall k :: 0 <= k < RowsPerPage ==> PageIds(page)[k] == CellId(RowsPerPage * page + k)
  {
    var start := page * RowsPerPage;
    assert PageIds(page) == GridIds()[start..start + RowsPerPage];
  }

  /** A page shows the cell of index `n` iff `n` lies in
      `[100 * page, 100 * page + 100)`: no id outside the page's range is
      ever rendered. */
  lemma PageShows(page: int, n: nat)
    requires 0 <= page <= 9
    ensures CellId(n) in PageIds(page) <==> RowsPerPage * page <= n < RowsPerPage * page + RowsPerPage
  {
    PageIdsExact(page);
    var ids := PageIds(page);
    if RowsPerPage * page <= n < RowsPerPage * page + RowsPerPage {
      assert ids[n - RowsPerPage * page] == CellId(n);
    }
    if CellId(n) in ids {
      var k :| 0 <= k < |ids| && ids[k] == CellId(n);
      CellIdInjective(n, RowsPerPage * page + k);
    }
  }

  /** The ten pages partition the grid: the cell of index n < 1000 is shown
      on page n / 100 and on no other page. */
  lemma PagesPartitionGrid(n: nat, page: int)
    requires n < GridSize && 0 <= page <= 9
    ensures CellId(n) in PageIds(page) <==> page == n / RowsPerPage
  {
    PageShows(page, n);
  }
}
