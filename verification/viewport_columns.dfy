/**
 * The horizontal window of the grid: which columns to render for the current
 * horizontal scroll position. Frozen columns are always rendered; of the
 * others, those at least partly visible plus one column either side.
 */
module ViewportColumns {
  import opened Utils
  import opened ColumnUtils

  /** The grid-wide column defaults an application may pass. */
  datatype DefaultColumnOptions = DefaultColumnOptions(minWidth: Option<int>, sortable: Option<bool>, resizable: Option<bool>)

  const DEFAULT_MIN_COLUMN_WIDTH: int := 80

  /**
   * The layout inputs built from the grid's props: missing defaults become a
   * minimum width of 80 and neither sortable nor resizable; the group-by keys
   * are passed on only when a row grouper is supplied.
   */
  function ColumnMetricsInput(
    rawColumns: seq<Column>, columnWidths: map<string, int>, viewportWidth: int,
    defaultColumnOptions: Option<DefaultColumnOptions>, rawGroupBy: Option<seq<string>>, hasRowGrouper: bool): (m: Metrics)
    ensures m.rawColumns == rawColumns && m.columnWidths == columnWidths && m.viewportWidth == viewportWidth
    ensures defaultColumnOptions.None? ==>
      m.minColumnWidth == DEFAULT_MIN_COLUMN_WIDTH && !m.defaultSortable && !m.defaultResizable
    ensures defaultColumnOptions.Some? ==>
      && (defaultColumnOptions.value.minWidth.Some? ==> m.minColumnWidth == defaultColumnOptions.value.minWidth.value)
      && (defaultColumnOptions.value.minWidth.None? ==> m.minColumnWidth == DEFAULT_MIN_COLUMN_WIDTH)
      && (defaultColumnOptions.value.sortable.Some? ==> m.defaultSortable == defaultColumnOptions.value.sortable.value)
      && (defaultColumnOptions.value.sortable.None? ==> !m.defaultSortable)
      && (defaultColumnOptions.value.resizable.Some? ==> m.defaultResizable == defaultColumnOptions.value.resizable.value)
      && (defaultColumnOptions.value.resizable.None? ==> !m.defaultResizable)
    ensures hasRowGrouper ==> m.rawGroupBy == rawGroupBy
    ensures !hasRowGrouper ==> forall key :: !InGroupBy(m, key)
  {
    var minColumnWidth := if defaultColumnOptions.Some? then defaultColumnOptions.value.minWidth.GetOr(DEFAULT_MIN_COLUMN_WIDTH)
                          else DEFAULT_MIN_COLUMN_WIDTH;
    var defaultSortable := defaultColumnOptions.Some? && defaultColumnOptions.value.sortable.GetOr(false);
    var defaultResizable := defaultColumnOptions.Some? && defaultColumnOptions.value.resizable.GetOr(false);
    Metrics(rawColumns, columnWidths, minColumnWidth, viewportWidth, defaultResizable, defaultSortable,
            if hasRowGrouper then rawGroupBy else None)
  }

  // ---------------------------------------------------------------------
  // The overscan range
  // ---------------------------------------------------------------------

  function RightEdge(c: CalculatedColumn): int { c.left + c.width }

  /**
   * The first visible unfrozen column: the first index from `from` whose
   * right edge is past the viewport's left side, or `last` if none before it.
   */
  function ScanStart(columns: seq<CalculatedColumn>, from: int, last: int, viewportLeft: int): (s: int)
    requires last == |columns| - 1 && Min(0, last) <= from <= last
    ensures from <= s <= last
    decreases last - from
  {
    if from >= last then from
    else if RightEdge(columns[from]) > viewportLeft then from
    else ScanStart(columns, from + 1, last, viewportLeft)
  }

  /** No column before the start ends past the viewport's left side; the start does, unless it is the last column. */
  lemma {:induction false} ScanStartIsFirst(columns: seq<CalculatedColumn>, from: int, last: int, viewportLeft: int)
    requires last == |columns| - 1 && Min(0, last) <= from <= last
    ensures var s := ScanStart(columns, from, last, viewportLeft);
      && (forall i :: from <= i < s ==> RightEdge(columns[i]) <= viewportLeft)
      && (s < last ==> RightEdge(columns[s]) > viewportLeft)
    decreases last - from
  {
    if from < last && RightEdge(columns[from]) <= viewportLeft {
      ScanStartIsFirst(columns, from + 1, last, viewportLeft);
    }
  }

  /**
   * The last visible unfrozen column: the first index from `from` whose
   * right edge reaches the viewport's right side, or `last` if none before it.
   */
  function ScanEnd(columns: seq<CalculatedColumn>, from: int, last: int, viewportRight: int): (e: int)
    requires last == |columns| - 1 && Min(0, last) <= from <= last
    ensures from <= e <= last
    decreases last - from
  {
    if from >= last then from
    else if RightEdge(columns[from]) >= viewportRight then from
    else ScanEnd(columns, from + 1, last, viewportRight)
  }

  /** Every column before the end ends short of the viewport's right side; the end reaches it, unless it is the last column. */
  lemma {:induction false} ScanEndIsFirst(columns: seq<CalculatedColumn>, from: int, last: int, viewportRight: int)
    requires last == |columns| - 1 && Min(0, last) <= from <= last
    ensures var e := ScanEnd(columns, from, last, viewportRight);
      && (forall i :: from <= i < e ==> RightEdge(columns[i]) < viewportRight)
      && (e < last ==> RightEdge(columns[e]) >= viewportRight)
    decreases last - from
  {
    if from < last && RightEdge(columns[from]) < viewportRight {
      ScanEndIsFirst(columns, from + 1, last, viewportRight);
    }
  }

  /** The first unfrozen column, or the last column when every column is frozen. */
  function FirstUnfrozenColumnIdx(columns: seq<CalculatedColumn>, lastFrozenColumnIndex: int): int
  {
    Min(lastFrozenColumnIndex + 1, |columns| - 1)
  }

  /**
   * The overscan range of unfrozen columns: the visible range widened by one
   * column each side and kept within the unfrozen columns; a single column
   * when the frozen columns fill the viewport.
   */
  function ColOverscan(
    columns: seq<CalculatedColumn>, lastFrozenColumnIndex: int, scrollLeft: int,
    totalFrozenColumnWidth: int, viewportWidth: int): (range: (int, int))
    requires lastFrozenColumnIndex >= -1
  {
    var viewportLeft := scrollLeft + totalFrozenColumnWidth;
    var viewportRight := scrollLeft + viewportWidth;
    var lastColIdx := |columns| - 1;
    var firstUnfrozenColumnIdx := FirstUnfrozenColumnIdx(columns, lastFrozenColumnIndex);
    if viewportLeft >= viewportRight then (firstUnfrozenColumnIdx, firstUnfrozenColumnIdx)
    else
      var colVisibleStartIdx := ScanStart(columns, firstUnfrozenColumnIdx, lastColIdx, viewportLeft);
      var colVisibleEndIdx := ScanEnd(columns, colVisibleStartIdx, lastColIdx, viewportRight);
      (Max(firstUnfrozenColumnIdx, colVisibleStartIdx - 1), Min(lastColIdx, colVisibleEndIdx + 1))
  }

  /** The two scanning loops, computing `ColOverscan`. */
  method ColOverscanRange(
    columns: seq<CalculatedColumn>, lastFrozenColumnIndex: int, scrollLeft: int,
    totalFrozenColumnWidth: int, viewportWidth: int)
    returns (colOverscanStartIdx: int, colOverscanEndIdx: int)
    requires lastFrozenColumnIndex >= -1
    ensures (colOverscanStartIdx, colOverscanEndIdx)
      == ColOverscan(columns, lastFrozenColumnIndex, scrollLeft, totalFrozenColumnWidth, viewportWidth)
  {
    var viewportLeft := scrollLeft + totalFrozenColumnWidth;
    var viewportRight := scrollLeft + viewportWidth;
    var lastColIdx := |columns| - 1;
    var firstUnfrozenColumnIdx := Min(lastFrozenColumnIndex + 1, lastColIdx);
    if viewportLeft >= viewportRight {
      assert ColOverscan(columns, lastFrozenColumnIndex, scrollLeft, totalFrozenColumnWidth, viewportWidth)
        == (firstUnfrozenColumnIdx, firstUnfrozenColumnIdx);
      return firstUnfrozenColumnIdx, firstUnfrozenColumnIdx;
    }
    var colVisibleStartIdx := firstUnfrozenColumnIdx;
    while colVisibleStartIdx < lastColIdx
      invariant firstUnfrozenColumnIdx <= colVisibleStartIdx <= lastColIdx
      invariant ScanStart(columns, colVisibleStartIdx, lastColIdx, viewportLeft)
        == ScanStart(columns, firstUnfrozenColumnIdx, lastColIdx, viewportLeft)
      decreases lastColIdx - colVisibleStartIdx
    {
      if RightEdge(columns[colVisibleStartIdx]) > viewportLeft {
        break;
      }
      assert ScanStart(columns, colVisibleStartIdx, lastColIdx, viewportLeft)
        == ScanStart(columns, colVisibleStartIdx + 1, lastColIdx, viewportLeft);
      colVisibleStartIdx := colVisibleStartIdx + 1;
    }
    assert colVisibleStartIdx == ScanStart(columns, firstUnfrozenColumnIdx, lastColIdx, viewportLeft);
    var colVisibleEndIdx := colVisibleStartIdx;
    while colVisibleEndIdx < lastColIdx
      invariant colVisibleStartIdx <= colVisibleEndIdx <= lastColIdx
      invariant ScanEnd(columns, colVisibleEndIdx, lastColIdx, viewportRight)
        == ScanEnd(columns, colVisibleStartIdx, lastColIdx, viewportRight)
      decreases lastColIdx - colVisibleEndIdx
    {
      if RightEdge(columns[colVisibleEndIdx]) >= viewportRight {
        break;
      }
      assert ScanEnd(columns, colVisibleEndIdx, lastColIdx, viewportRight)
        == ScanEnd(columns, colVisibleEndIdx + 1, lastColIdx, viewportRight);
      colVisibleEndIdx := colVisibleEndIdx + 1;
    }
    assert colVisibleEndIdx == ScanEnd(columns, colVisibleStartIdx, lastColIdx, viewportRight);
    colOverscanStartIdx := Max(firstUnfrozenColumnIdx, colVisibleStartIdx - 1);
    colOverscanEndIdx := Min(lastColIdx, colVisibleEndIdx + 1);
    assert ColOverscan(columns, lastFrozenColumnIndex, scrollLeft, totalFrozenColumnWidth, viewportWidth).0 == colOverscanStartIdx;
    assert ColOverscan(columns, lastFrozenColumnIndex, scrollLeft, totalFrozenColumnWidth, viewportWidth).1 == colOverscanEndIdx;
  }

  /**
   * For a non-empty grid the range lies within the unfrozen columns
   * (`firstUnfrozen <= start <= end <= last`), and it widens the visible
   * range by at most one column on each side.
   */
  lemma ColOverscanBounds(
    columns: seq<CalculatedColumn>, lastFrozenColumnIndex: int, scrollLeft: int,
    totalFrozenColumnWidth: int, viewportWidth: int)
    requires lastFrozenColumnIndex >= -1 && |columns| > 0
    ensures var (start, end) := ColOverscan(columns, lastFrozenColumnIndex, scrollLeft, totalFrozenColumnWidth, viewportWidth);
      var first := FirstUnfrozenColumnIdx(columns, lastFrozenColumnIndex);
      var viewportLeft := scrollLeft + totalFrozenColumnWidth;
      var viewportRight := scrollLeft + viewportWidth;
      && 0 <= first <= start <= end <= |columns| - 1
      && (viewportLeft >= viewportRight ==> start == first && end == first)
      && (viewportLeft < viewportRight ==>
            var visStart := ScanStart(columns, first, |columns| - 1, viewportLeft);
            var visEnd := ScanEnd(columns, visStart, |columns| - 1, viewportRight);
            visStart - 1 <= start <= visStart && visEnd <= end <= visEnd + 1)
  {
  }

  /** Left offsets are running sums of non-negative widths. */
  predicate Contiguous(columns: seq<CalculatedColumn>)
  {
    OffsetsAreSums(columns) && forall i :: 0 <= i < |columns| ==> columns[i].width >= 0
  }

  /** No column starts before an earlier column ends. */
  predicate LeftToRight(columns: seq<CalculatedColumn>)
  {
    forall i, j :: 0 <= i < j < |columns| ==> columns[j].left >= RightEdge(columns[i])
  }

  /** Contiguous columns, as the layout produces, lie left to right. */
  lemma ContiguousIsLeftToRight(columns: seq<CalculatedColumn>)
    requires Contiguous(columns)
    ensures LeftToRight(columns)
  {
    forall i, j | 0 <= i < j < |columns| ensures columns[j].left >= RightEdge(columns[i]) {
      StartsAfterEarlierEnds(columns, i, j);
    }
  }

  lemma {:induction false} StartsAfterEarlierEnds(columns: seq<CalculatedColumn>, i: nat, j: nat)
    requires Contiguous(columns) && i < j < |columns|
    ensures columns[j].left >= RightEdge(columns[i])
  {
    if j == i + 1 {
      assert columns[..j] == columns[..i] + [columns[i]];
      assert columns[..j][..i] == columns[..i];
    } else {
      StartsAfterEarlierEnds(columns, i, j - 1);
      assert columns[..j][..j - 1] == columns[..j - 1];
    }
  }

  /**
   * When the frozen columns leave room in the viewport, every unfrozen column
   * that is at least partly visible between the frozen area and the
   * viewport's right side is inside the overscan range.
   */
  lemma VisibleColumnsInRange(
    columns: seq<CalculatedColumn>, lastFrozenColumnIndex: int, scrollLeft: int,
    totalFrozenColumnWidth: int, viewportWidth: int, i: nat)
    requires lastFrozenColumnIndex >= -1 && LeftToRight(columns)
    requires lastFrozenColumnIndex < i < |columns|
    requires totalFrozenColumnWidth < viewportWidth
    requires RightEdge(columns[i]) > scrollLeft + totalFrozenColumnWidth
    requires columns[i].left < scrollLeft + viewportWidth
    ensures var (start, end) := ColOverscan(columns, lastFrozenColumnIndex, scrollLeft, totalFrozenColumnWidth, viewportWidth);
      start <= i <= end
  {
    var viewportLeft := scrollLeft + totalFrozenColumnWidth;
    var viewportRight := scrollLeft + viewportWidth;
    var last := |columns| - 1;
    var first := FirstUnfrozenColumnIdx(columns, lastFrozenColumnIndex);
    var visStart := ScanStart(columns, first, last, viewportLeft);
    var visEnd := ScanEnd(columns, visStart, last, viewportRight);
    ScanStartIsFirst(columns, first, last, viewportLeft);
    ScanEndIsFirst(columns, visStart, last, viewportRight);
    assert first <= i;
    assert visStart <= i;
    if visEnd < last {
      assert forall k :: visEnd < k < |columns| ==> columns[k].left >= viewportRight;
    }
    assert i <= visEnd;
  }

  // ---------------------------------------------------------------------
  // The rendered columns
  // ---------------------------------------------------------------------

  /**
   * Positions of the columns rendered among the first `n`: those at or after
   * `colOverscanStartIdx` and the frozen ones, ascending.
   */
  function RenderedIndices(columns: seq<CalculatedColumn>, colOverscanStartIdx: int, n: nat): (r: seq<nat>)
    requires n <= |columns|
    ensures forall k :: 0 <= k < |r| ==> r[k] < n
    ensures forall a, b :: 0 <= a < b < |r| ==> r[a] < r[b]
    ensures forall i :: 0 <= i < n ==> (i in r <==> i >= colOverscanStartIdx || columns[i].frozen)
  {
    if n == 0 then []
    else
      var prefix := RenderedIndices(columns, colOverscanStartIdx, n - 1);
      if n - 1 < colOverscanStartIdx && !columns[n - 1].frozen then prefix else prefix + [n - 1]
  }

  /**
   * The columns to render, in ascending position: every column up to
   * `colOverscanEndIdx` that is frozen or at or after `colOverscanStartIdx`.
   */
  method GetViewportColumns(columns: seq<CalculatedColumn>, colOverscanStartIdx: int, colOverscanEndIdx: int)
    returns (viewportColumns: seq<CalculatedColumn>)
    requires colOverscanEndIdx < |columns|
    ensures var indices := RenderedIndices(columns, colOverscanStartIdx, Max(colOverscanEndIdx + 1, 0));
      |viewportColumns| == |indices| && forall k :: 0 <= k < |indices| ==> viewportColumns[k] == columns[indices[k]]
  {
    viewportColumns := [];
    var colIdx := 0;
    while colIdx <= colOverscanEndIdx
      invariant 0 <= colIdx <= Max(colOverscanEndIdx + 1, 0)
      invariant var indices := RenderedIndices(columns, colOverscanStartIdx, colIdx);
        |viewportColumns| == |indices| && forall k :: 0 <= k < |indices| ==> viewportColumns[k] == columns[indices[k]]
    {
      var column := columns[colIdx];
      if !(colIdx < colOverscanStartIdx && !column.frozen) {
        viewportColumns := viewportColumns + [column];
      }
      colIdx := colIdx + 1;
    }
  }
}
