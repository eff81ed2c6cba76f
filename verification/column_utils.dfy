/**
 * Column layout: the width each column gets, the display order, the left
 * offsets and totals, the last frozen column, and how far to scroll to bring
 * a column into view.
 */
module ColumnUtils {
  import opened Utils
  import ColumnOrder

  /** Key of the row-selection checkbox column, which always sorts first. */
  const SELECT_COLUMN_KEY: string := "select-row"

  /** A column's own width: none, a pixel number, or a string such as `"25%"`. */
  datatype ColumnWidth = Unset | Pixels(px: int) | Text(text: string)

  /** A column as the application defines it. */
  datatype Column = Column(
    key: string,
    width: ColumnWidth,
    minWidth: Option<int>,
    maxWidth: Option<int>,
    frozen: bool,
    sortable: Option<bool>,
    resizable: Option<bool>,
    hasEditor: bool)

  /** A column laid out: its display index, resolved width and left offset. */
  datatype CalculatedColumn = CalculatedColumn(
    key: string,
    idx: int,
    width: int,
    left: int,
    minWidth: Option<int>,
    maxWidth: Option<int>,
    frozen: bool,
    rowGroup: bool,
    sortable: bool,
    resizable: bool,
    isLastFrozenColumn: bool,
    hasEditor: bool)

  /** The inputs of the layout. `columnWidths` holds the widths the user resized columns to. */
  datatype Metrics = Metrics(
    rawColumns: seq<Column>,
    columnWidths: map<string, int>,
    minColumnWidth: int,
    viewportWidth: int,
    defaultResizable: bool,
    defaultSortable: bool,
    rawGroupBy: Option<seq<string>>)

  /** The layout. */
  datatype ColumnMetrics = ColumnMetrics(
    columns: seq<CalculatedColumn>,
    lastFrozenColumnIndex: int,
    totalFrozenColumnWidth: int,
    totalColumnWidth: int,
    groupBy: seq<string>)

  // ---------------------------------------------------------------------
  // Widths of single columns
  // ---------------------------------------------------------------------

  predicate IsDigit(c: char) { '0' <= c <= '9' }

  /** The width string is one or more decimal digits followed by `%`. */
  predicate IsPercentWidth(s: string)
  {
    |s| >= 2 && s[|s| - 1] == '%' && forall i :: 0 <= i < |s| - 1 ==> IsDigit(s[i])
  }

  /** The value of a string of decimal digits, as `parseInt(s, 10)` reads it. */
  function DecimalValue(digits: string): nat
    requires forall i :: 0 <= i < |digits| ==> IsDigit(digits[i])
  {
    if digits == [] then 0
    else
      var last := digits[|digits| - 1];
      assert IsDigit(last);
      DecimalValue(digits[..|digits| - 1]) * 10 + (last as int - '0' as int)
  }

  /**
   * The width a column asks for before clamping: a resized width first, then
   * a pixel width, then a percentage of the viewport rounded down; otherwise
   * none, and the column shares the width left over.
   */
  function GetSpecifiedWidth(column: Column, columnWidths: map<string, int>, viewportWidth: int): (w: Option<int>)
    ensures column.key in columnWidths ==> w == Some(columnWidths[column.key])
    ensures column.key !in columnWidths && column.width.Pixels? ==> w == Some(column.width.px)
    ensures column.key !in columnWidths && column.width.Text? && IsPercentWidth(column.width.text) ==>
      var percent := DecimalValue(column.width.text[..|column.width.text| - 1]);
      w.Some? && w.value * 100 <= viewportWidth * percent < (w.value + 1) * 100
    ensures w.None? <==>
      column.key !in columnWidths && (column.width.Unset? || (column.width.Text? && !IsPercentWidth(column.width.text)))
  {
    if column.key in columnWidths then Some(columnWidths[column.key])
    else match column.width
      case Pixels(px) => Some(px)
      case Text(s) =>
        if IsPercentWidth(s) then Some(viewportWidth * DecimalValue(s[..|s| - 1]) / 100) else None
      case Unset => None
  }

  /**
   * Clamp a width to the column's bounds: at least its `minWidth` (the grid's
   * `minColumnWidth` when it has none), at most its `maxWidth` when it has
   * one; `maxWidth` wins when the two conflict.
   */
  function ClampColumnWidth(width: int, column: Column, minColumnWidth: int): (w: int)
    ensures var lower := column.minWidth.GetOr(minColumnWidth);
      && (column.maxWidth.None? || lower <= column.maxWidth.value ==> w >= lower)
      && (column.maxWidth.Some? ==> w <= column.maxWidth.value)
      && (column.maxWidth.Some? && column.maxWidth.value < lower ==> w == column.maxWidth.value)
      && (lower <= width && (column.maxWidth.None? || width <= column.maxWidth.value) ==> w == width)
      && (width < lower && (column.maxWidth.None? || lower <= column.maxWidth.value) ==> w == lower)
      && (column.maxWidth.Some? && width > column.maxWidth.value ==> w == column.maxWidth.value)
      && (w == width || w == lower || (column.maxWidth.Some? && w == column.maxWidth.value))
  {
    var atLeast := Max(width, column.minWidth.GetOr(minColumnWidth));
    if column.maxWidth.Some? then Min(atLeast, column.maxWidth.value) else atLeast
  }

  // ---------------------------------------------------------------------
  // The first pass: widths, forced freezing, counts
  // ---------------------------------------------------------------------

  function GroupByKeys(m: Metrics): seq<string> { m.rawGroupBy.GetOr([]) }

  predicate InGroupBy(m: Metrics, key: string) { key in GroupByKeys(m) }

  /**
   * A column after the first pass: its clamped specified width (none when it
   * is unassigned), and whether it is frozen and a row-group column, group-by
   * columns being forced frozen.
   */
  datatype SizedColumn = SizedColumn(column: Column, width: Option<int>, frozen: bool, rowGroup: bool)

  function Sized(m: Metrics, column: Column): (s: SizedColumn)
    ensures s.column == column
    ensures s.rowGroup == InGroupBy(m, column.key) && s.frozen == (column.frozen || s.rowGroup)
  {
    var w := GetSpecifiedWidth(column, m.columnWidths, m.viewportWidth);
    var inGroupBy := InGroupBy(m, column.key);
    SizedColumn(
      column,
      if w.Some? then Some(ClampColumnWidth(w.value, column, m.minColumnWidth)) else None,
      column.frozen || inGroupBy,
      inGroupBy)
  }

  function SizedColumns(m: Metrics): (s: seq<SizedColumn>)
    ensures |s| == |m.rawColumns|
    ensures forall i :: 0 <= i < |s| ==> s[i] == Sized(m, m.rawColumns[i])
  {
    seq(|m.rawColumns|, i requires 0 <= i < |m.rawColumns| => Sized(m, m.rawColumns[i]))
  }

  function CountUnassigned(s: seq<SizedColumn>): nat
  {
    if s == [] then 0 else CountUnassigned(s[..|s| - 1]) + (if s[|s| - 1].width.None? then 1 else 0)
  }

  function SumAllocated(s: seq<SizedColumn>): int
  {
    if s == [] then 0
    else SumAllocated(s[..|s| - 1]) + (if s[|s| - 1].width.Some? then s[|s| - 1].width.value else 0)
  }

  function CountFrozen(s: seq<SizedColumn>): (n: nat)
    ensures n <= |s|
  {
    if s == [] then 0 else CountFrozen(s[..|s| - 1]) + (if s[|s| - 1].frozen then 1 else 0)
  }

  /**
   * The width each unassigned column gets before its own clamp: the leftover
   * width `rest` split equally among `count` columns and rounded down, but
   * never below `minColumnWidth`. With no unassigned column nothing is split
   * (the source divides by zero there and never uses the result).
   */
  function EqualShare(rest: int, count: nat, minColumnWidth: int): (share: int)
    ensures share >= minColumnWidth
    ensures count == 0 ==> share == minColumnWidth
  {
    if count > 0 then Max(rest / count, minColumnWidth) else minColumnWidth
  }

  /**
   * The share is the largest width whose `count` copies fit in `rest`, or
   * `minColumnWidth` when that is larger: one pixel more per column would
   * overflow `rest`.
   */
  lemma EqualShareIsFloor(rest: int, count: nat, minColumnWidth: int)
    requires count > 0
    ensures var share := EqualShare(rest, count, minColumnWidth);
      rest < (share + 1) * count && (share == minColumnWidth || share * count <= rest)
  {
    var share := EqualShare(rest, count, minColumnWidth);
    var q := rest / count;
    assert rest == q * count + rest % count;
    assert (share + 1) * count == (q + 1) * count + (share - q) * count;
    assert (share - q) * count >= 0;
  }

  function UnassignedShare(m: Metrics): int
  {
    var s := SizedColumns(m);
    EqualShare(m.viewportWidth - SumAllocated(s), CountUnassigned(s), m.minColumnWidth)
  }

  // ---------------------------------------------------------------------
  // Display order
  // ---------------------------------------------------------------------

  /**
   * The sort class of a column: 0 for the select column, 1 + its group-by
   * position for a group-by column, then frozen columns, then the rest.
   */
  function Rank(key: string, frozen: bool, groupBy: seq<string>): (r: nat)
    ensures key == SELECT_COLUMN_KEY <==> r == 0
    ensures key != SELECT_COLUMN_KEY && key in groupBy <==> 1 <= r <= |groupBy|
    ensures key != SELECT_COLUMN_KEY && key !in groupBy && frozen <==> r == |groupBy| + 1
    ensures key != SELECT_COLUMN_KEY && key !in groupBy && !frozen <==> r == |groupBy| + 2
  {
    if key == SELECT_COLUMN_KEY then 0
    else if key in groupBy then 1 + IndexOf(groupBy, key)
    else if frozen then |groupBy| + 1
    else |groupBy| + 2
  }

  function Ranks(s: seq<SizedColumn>, groupBy: seq<string>): (ranks: seq<nat>)
    ensures |ranks| == |s|
    ensures forall i :: 0 <= i < |s| ==> ranks[i] == Rank(s[i].column.key, s[i].frozen, groupBy)
  {
    seq(|s|, i requires 0 <= i < |s| => Rank(s[i].column.key, s[i].frozen, groupBy))
  }

  /**
   * The display order, as input positions: a permutation of the columns,
   * ascending in (rank, input position), which is what a stable sort by rank
   * yields.
   */
  function DisplayOrder(m: Metrics): (order: seq<nat>)
    ensures |order| == |m.rawColumns|
    ensures forall i :: 0 <= i < |m.rawColumns| ==> i in order
    ensures ColumnOrder.SortedByRank(Ranks(SizedColumns(m), GroupByKeys(m)), order)
  {
    var ranks := Ranks(SizedColumns(m), GroupByKeys(m));
    ColumnOrder.StableOrderIsStableSort(ranks);
    ColumnOrder.StableOrder(ranks)
  }

  /** The columns after the first pass, in display order. */
  function DisplayColumns(m: Metrics): (d: seq<SizedColumn>)
    ensures |d| == |m.rawColumns|
  {
    var order := DisplayOrder(m);
    var sized := SizedColumns(m);
    seq(|order|, j requires 0 <= j < |order| => sized[order[j]])
  }

  /**
   * The column comparator as written: negative when `a` sorts first,
   * positive when `b` does, zero when they tie.
   */
  function Compare(aKey: string, aFrozen: bool, bKey: string, bFrozen: bool, groupBy: seq<string>): int
  {
    if aKey == SELECT_COLUMN_KEY then -1
    else if bKey == SELECT_COLUMN_KEY then 1
    else if aKey in groupBy then
      (if bKey in groupBy then IndexOf(groupBy, aKey) - IndexOf(groupBy, bKey) else -1)
    else if bKey in groupBy then 1
    else if aFrozen then (if bFrozen then 0 else -1)
    else if bFrozen then 1
    else 0
  }

  /**
   * The comparator orders two columns exactly as their ranks do, unless both
   * carry the select key (then it is inconsistent and no order is defined).
   */
  lemma CompareAgreesWithRank(aKey: string, aFrozen: bool, bKey: string, bFrozen: bool, groupBy: seq<string>)
    requires aKey != SELECT_COLUMN_KEY || bKey != SELECT_COLUMN_KEY
    ensures var c := Compare(aKey, aFrozen, bKey, bFrozen, groupBy);
      var ra := Rank(aKey, aFrozen, groupBy);
      var rb := Rank(bKey, bFrozen, groupBy);
      (c < 0 <==> ra < rb) && (c == 0 <==> ra == rb) && (c > 0 <==> ra > rb)
  {
  }

  // ---------------------------------------------------------------------
  // The second pass: offsets and totals
  // ---------------------------------------------------------------------

  /** Sum of the widths of `cols`. */
  function SumWidths(cols: seq<CalculatedColumn>): int
  {
    if cols == [] then 0 else SumWidths(cols[..|cols| - 1]) + cols[|cols| - 1].width
  }

  /** Sum of the widths of the frozen columns among `cols`. */
  function FrozenWidth(cols: seq<CalculatedColumn>): int
  {
    if cols == [] then 0
    else FrozenWidth(cols[..|cols| - 1]) + (if cols[|cols| - 1].frozen then cols[|cols| - 1].width else 0)
  }

  /** The keys of the row-group columns among `cols`, in order. */
  function RowGroupKeys(cols: seq<CalculatedColumn>): seq<string>
  {
    if cols == [] then []
    else RowGroupKeys(cols[..|cols| - 1]) + (if cols[|cols| - 1].rowGroup then [cols[|cols| - 1].key] else [])
  }

  /** The resolved width: the clamped specified width, else the equal share clamped. */
  function ResolvedWidth(m: Metrics, s: SizedColumn, share: int): int
  {
    if s.width.Some? then s.width.value else ClampColumnWidth(share, s.column, m.minColumnWidth)
  }

  /** `c` is laid out from `s`: same key and bounds, resolved width, forced flags, defaults applied. */
  predicate LaidOutFrom(m: Metrics, c: CalculatedColumn, s: SizedColumn, share: int)
  {
    && c.key == s.column.key
    && c.width == ResolvedWidth(m, s, share)
    && c.minWidth == s.column.minWidth && c.maxWidth == s.column.maxWidth
    && c.frozen == s.frozen && c.rowGroup == s.rowGroup
    && c.sortable == s.column.sortable.GetOr(m.defaultSortable)
    && c.resizable == s.column.resizable.GetOr(m.defaultResizable)
    && c.hasEditor == s.column.hasEditor
  }

  lemma LaidOutIgnoresMark(m: Metrics, c: CalculatedColumn, s: SizedColumn, share: int, mark: bool)
    requires LaidOutFrom(m, c, s, share)
    ensures LaidOutFrom(m, c.(isLastFrozenColumn := mark), s, share)
  {
  }

  /** Each column's left offset is the sum of the widths before it. */
  predicate OffsetsAreSums(cols: seq<CalculatedColumn>)
  {
    forall k :: 0 <= k < |cols| ==> cols[k].left == SumWidths(cols[..k])
  }

  lemma AppendKeepsOffsets(cols: seq<CalculatedColumn>, c: CalculatedColumn)
    requires OffsetsAreSums(cols) && c.left == SumWidths(cols)
    ensures OffsetsAreSums(cols + [c])
  {
    var cols' := cols + [c];
    forall k | 0 <= k < |cols'| ensures cols'[k].left == SumWidths(cols'[..k]) {
      if k < |cols| {
        assert cols'[..k] == cols[..k];
      } else {
        assert cols'[..k] == cols;
      }
    }
  }

  /** Two column lists with the same widths, flags and keys have the same sums and group keys. */
  lemma {:induction false} SameLayout(a: seq<CalculatedColumn>, b: seq<CalculatedColumn>)
    requires |a| == |b|
    requires forall k :: 0 <= k < |a| ==>
      a[k].width == b[k].width && a[k].frozen == b[k].frozen && a[k].rowGroup == b[k].rowGroup && a[k].key == b[k].key
    ensures SumWidths(a) == SumWidths(b) && FrozenWidth(a) == FrozenWidth(b) && RowGroupKeys(a) == RowGroupKeys(b)
  {
    if a != [] {
      SameLayout(a[..|a| - 1], b[..|b| - 1]);
    }
  }

  /** The first pass: each column's clamped specified width and forced flags, with the counts. */
  method SizeColumns(m: Metrics) returns (columns: seq<SizedColumn>, unassignedColumnsCount: nat, allocatedWidths: int, lastFrozenColumnIndex: int)
    ensures columns == SizedColumns(m)
    ensures unassignedColumnsCount == CountUnassigned(columns)
    ensures allocatedWidths == SumAllocated(columns)
    ensures lastFrozenColumnIndex == CountFrozen(columns) - 1
  {
    allocatedWidths := 0;
    unassignedColumnsCount := 0;
    lastFrozenColumnIndex := -1;
    columns := [];
    for i := 0 to |m.rawColumns|
      invariant columns == SizedColumns(m)[..i]
      invariant unassignedColumnsCount == CountUnassigned(columns)
      invariant allocatedWidths == SumAllocated(columns)
      invariant lastFrozenColumnIndex == CountFrozen(columns) - 1
    {
      var metricsColumn := m.rawColumns[i];
      var width := GetSpecifiedWidth(metricsColumn, m.columnWidths, m.viewportWidth);
      if width.None? {
        unassignedColumnsCount := unassignedColumnsCount + 1;
      } else {
        width := Some(ClampColumnWidth(width.value, metricsColumn, m.minColumnWidth));
        allocatedWidths := allocatedWidths + width.value;
      }
      var column := SizedColumn(metricsColumn, width, metricsColumn.frozen, false);
      if InGroupBy(m, metricsColumn.key) {
        column := column.(frozen := true, rowGroup := true);
      }
      if column.frozen {
        lastFrozenColumnIndex := lastFrozenColumnIndex + 1;
      }
      assert (columns + [column])[..i] == columns;
      columns := columns + [column];
    }
  }

  /**
   * The second pass over the sorted columns: display index, resolved width,
   * left offset as the running sum of widths, defaults applied, and the
   * row-group keys collected in display order.
   */
  method LayOutColumns(m: Metrics, sorted: seq<SizedColumn>, share: int)
    returns (calculated: seq<CalculatedColumn>, groupBy: seq<string>, totalWidth: int)
    ensures |calculated| == |sorted|
    ensures OffsetsAreSums(calculated)
    ensures forall k :: 0 <= k < |sorted| ==> calculated[k].idx == k && !calculated[k].isLastFrozenColumn
    ensures forall k :: 0 <= k < |sorted| ==> LaidOutFrom(m, calculated[k], sorted[k], share)
    ensures totalWidth == SumWidths(calculated)
    ensures groupBy == RowGroupKeys(calculated)
  {
    var left := 0;
    totalWidth := 0;
    groupBy := [];
    calculated := [];
    for idx := 0 to |sorted|
      invariant |calculated| == idx
      invariant OffsetsAreSums(calculated)
      invariant forall k :: 0 <= k < idx ==> calculated[k].idx == k && !calculated[k].isLastFrozenColumn
      invariant forall k :: 0 <= k < idx ==> LaidOutFrom(m, calculated[k], sorted[k], share)
      invariant left == SumWidths(calculated) && totalWidth == left
      invariant groupBy == RowGroupKeys(calculated)
    {
      var column := sorted[idx];
      var width := if column.width.Some? then column.width.value
                   else ClampColumnWidth(share, column.column, m.minColumnWidth);
      var newColumn := CalculatedColumn(
        column.column.key, idx, width, left, column.column.minWidth, column.column.maxWidth,
        column.frozen, column.rowGroup,
        column.column.sortable.GetOr(m.defaultSortable),
        column.column.resizable.GetOr(m.defaultResizable),
        false, column.column.hasEditor);
      if newColumn.rowGroup {
        groupBy := groupBy + [column.column.key];
      }
      assert LaidOutFrom(m, newColumn, column, share);
      AppendKeepsOffsets(calculated, newColumn);
      totalWidth := totalWidth + width;
      left := left + width;
      assert (calculated + [newColumn])[..idx] == calculated;
      calculated := calculated + [newColumn];
    }
  }

  /**
   * Mark column `lastFrozenColumnIndex` (when not -1) as the last frozen one
   * and measure the frozen width up to its right edge; nothing else changes.
   */
  method MarkLastFrozen(cols: seq<CalculatedColumn>, lastFrozenColumnIndex: int)
    returns (marked: seq<CalculatedColumn>, totalFrozenColumnWidth: int)
    requires -1 <= lastFrozenColumnIndex < |cols|
    requires OffsetsAreSums(cols)
    requires forall k :: 0 <= k < |cols| ==> !cols[k].isLastFrozenColumn
    ensures |marked| == |cols| && OffsetsAreSums(marked)
    ensures forall k :: 0 <= k < |cols| ==> marked[k] == cols[k].(isLastFrozenColumn := k == lastFrozenColumnIndex)
    ensures SumWidths(marked) == SumWidths(cols) && RowGroupKeys(marked) == RowGroupKeys(cols)
    ensures totalFrozenColumnWidth ==
      if lastFrozenColumnIndex == -1 then 0
      else cols[lastFrozenColumnIndex].left + cols[lastFrozenColumnIndex].width
  {
    marked := cols;
    totalFrozenColumnWidth := 0;
    if lastFrozenColumnIndex != -1 {
      var lastFrozenColumn := cols[lastFrozenColumnIndex].(isLastFrozenColumn := true);
      marked := cols[lastFrozenColumnIndex := lastFrozenColumn];
      forall k | 0 <= k < |marked| ensures marked[k].left == SumWidths(marked[..k]) {
        SameLayout(marked[..k], cols[..k]);
      }
      SameLayout(marked, cols);
      totalFrozenColumnWidth := lastFrozenColumn.left + lastFrozenColumn.width;
    }
  }

  /**
   * The layout of columns already in display order, given the equal share
   * and the last frozen index: the second pass, then the marking.
   */
  method BuildMetrics(m: Metrics, sorted: seq<SizedColumn>, share: int, lastFrozenColumnIndex: int)
    returns (r: ColumnMetrics)
    requires -1 <= lastFrozenColumnIndex < |sorted|
    ensures |r.columns| == |sorted|
    ensures forall i :: 0 <= i < |r.columns| ==> r.columns[i].idx == i
    ensures OffsetsAreSums(r.columns)
    ensures r.totalColumnWidth == SumWidths(r.columns)
    ensures forall i :: 0 <= i < |r.columns| ==> LaidOutFrom(m, r.columns[i], sorted[i], share)
    ensures r.lastFrozenColumnIndex == lastFrozenColumnIndex
    ensures forall i :: 0 <= i < |r.columns| ==>
      (r.columns[i].isLastFrozenColumn <==> i == r.lastFrozenColumnIndex)
    ensures r.totalFrozenColumnWidth ==
      if r.lastFrozenColumnIndex == -1 then 0
      else r.columns[r.lastFrozenColumnIndex].left + r.columns[r.lastFrozenColumnIndex].width
    ensures r.groupBy == RowGroupKeys(r.columns)
  {
    var calculated, groupBy, totalWidth := LayOutColumns(m, sorted, share);
    var marked, totalFrozenColumnWidth := MarkLastFrozen(calculated, lastFrozenColumnIndex);
    forall i | 0 <= i < |marked| ensures LaidOutFrom(m, marked[i], sorted[i], share) {
      LaidOutIgnoresMark(m, calculated[i], sorted[i], share, i == lastFrozenColumnIndex);
    }
    r := ColumnMetrics(marked, lastFrozenColumnIndex, totalFrozenColumnWidth, totalWidth, groupBy);
  }

  /**
   * Lay out the columns. Each output column `i` has `idx == i`, its left
   * offset is the sum of the widths before it, the total is the sum of all
   * widths; column `i` is input column `DisplayOrder(m)[i]` with its resolved
   * width; the last frozen index is the number of frozen columns less one,
   * that column alone is marked, and the frozen width ends at its right
   * edge; `groupBy` lists the row-group keys in display order.
   */
  method GetColumnMetrics(m: Metrics) returns (r: ColumnMetrics)
    ensures |r.columns| == |m.rawColumns|
    ensures forall i :: 0 <= i < |r.columns| ==> r.columns[i].idx == i
    ensures OffsetsAreSums(r.columns)
    ensures r.totalColumnWidth == SumWidths(r.columns)
    ensures forall i :: 0 <= i < |r.columns| ==> LaidOutFrom(m, r.columns[i], DisplayColumns(m)[i], UnassignedShare(m))
    ensures r.lastFrozenColumnIndex == CountFrozen(SizedColumns(m)) - 1
    ensures -1 <= r.lastFrozenColumnIndex < |r.columns|
    ensures forall i :: 0 <= i < |r.columns| ==>
      (r.columns[i].isLastFrozenColumn <==> i == r.lastFrozenColumnIndex)
    ensures r.totalFrozenColumnWidth ==
      if r.lastFrozenColumnIndex == -1 then 0
      else r.columns[r.lastFrozenColumnIndex].left + r.columns[r.lastFrozenColumnIndex].width
    ensures r.groupBy == RowGroupKeys(r.columns)
  {
    var columns, unassignedColumnsCount, allocatedWidths, lastFrozenColumnIndex := SizeColumns(m);

    // the stable sort by rank
    var sorted := DisplayColumns(m);

    var unallocatedWidth := m.viewportWidth - allocatedWidths;
    var unallocatedColumnWidth := EqualShare(unallocatedWidth, unassignedColumnsCount, m.minColumnWidth);
    assert unallocatedColumnWidth == UnassignedShare(m);

    r := BuildMetrics(m, sorted, unallocatedColumnWidth, lastFrozenColumnIndex);
  }
  // ---------------------------------------------------------------------
  // Properties of the display order
  // ---------------------------------------------------------------------

  function RankOf(s: SizedColumn, groupBy: seq<string>): nat
  {
    Rank(s.column.key, s.frozen, groupBy)
  }

  /** Display column `i` is input column `DisplayOrder(m)[i]`, and ranks never decrease along the display. */
  lemma DisplayColumnsSortedByRank(m: Metrics)
    ensures forall i :: 0 <= i < |m.rawColumns| ==>
      DisplayOrder(m)[i] < |m.rawColumns| && DisplayColumns(m)[i] == SizedColumns(m)[DisplayOrder(m)[i]]
    ensures forall i, j :: 0 <= i < j < |m.rawColumns| ==>
      RankOf(DisplayColumns(m)[i], GroupByKeys(m)) <= RankOf(DisplayColumns(m)[j], GroupByKeys(m))
  {
    var d := DisplayColumns(m);
    var order := DisplayOrder(m);
    var ranks := Ranks(SizedColumns(m), GroupByKeys(m));
    forall i, j | 0 <= i < j < |m.rawColumns|
      ensures RankOf(d[i], GroupByKeys(m)) <= RankOf(d[j], GroupByKeys(m))
    {
      assert ColumnOrder.Before(ranks, order[i], order[j]);
    }
  }

  /** The select column comes before every other column. */
  lemma SelectColumnFirst(m: Metrics)
    ensures forall i, j :: 0 <= i < j < |m.rawColumns| && DisplayColumns(m)[j].column.key == SELECT_COLUMN_KEY ==>
      DisplayColumns(m)[i].column.key == SELECT_COLUMN_KEY
  {
    DisplayColumnsSortedByRank(m);
  }

  /** Group-by columns come right after it, in the order of `rawGroupBy`, before the other columns. */
  lemma GroupColumnsFollowGroupBy(m: Metrics)
    ensures forall i, j :: 0 <= i < j < |m.rawColumns| && DisplayColumns(m)[j].rowGroup ==>
      DisplayColumns(m)[i].column.key == SELECT_COLUMN_KEY
      || (DisplayColumns(m)[i].rowGroup
          && IndexOf(GroupByKeys(m), DisplayColumns(m)[i].column.key)
             <= IndexOf(GroupByKeys(m), DisplayColumns(m)[j].column.key))
  {
    DisplayColumnsSortedByRank(m);
  }

  /** No select-keyed column is left unfrozen (the select column is defined frozen). */
  predicate SelectColumnsFrozen(m: Metrics)
  {
    forall i :: 0 <= i < |m.rawColumns| && m.rawColumns[i].key == SELECT_COLUMN_KEY ==> m.rawColumns[i].frozen
  }

  lemma {:induction false} CountFrozenIsCountBelow(m: Metrics, n: nat)
    requires n <= |m.rawColumns| && SelectColumnsFrozen(m)
    ensures CountFrozen(SizedColumns(m)[..n])
      == ColumnOrder.CountBelow(Ranks(SizedColumns(m), GroupByKeys(m)), |GroupByKeys(m)| + 2, n)
  {
    if n > 0 {
      CountFrozenIsCountBelow(m, n - 1);
      assert SizedColumns(m)[..n][..n - 1] == SizedColumns(m)[..n - 1];
    }
  }

  /**
   * The frozen columns come first: display column `i` is frozen exactly when
   * `i` is below the number of frozen columns, i.e. at most the last frozen index.
   */
  lemma FrozenColumnsFirst(m: Metrics)
    requires SelectColumnsFrozen(m)
    ensures forall i :: 0 <= i < |m.rawColumns| ==>
      (DisplayColumns(m)[i].frozen <==> i < CountFrozen(SizedColumns(m)))
  {
    var sized := SizedColumns(m);
    var ranks := Ranks(sized, GroupByKeys(m));
    var bound := |GroupByKeys(m)| + 2;
    DisplayColumnsSortedByRank(m);
    CountFrozenIsCountBelow(m, |m.rawColumns|);
    assert sized[..|m.rawColumns|] == sized;
    assert DisplayOrder(m) == ColumnOrder.StableOrder(ranks);
    forall i | 0 <= i < |m.rawColumns|
      ensures DisplayColumns(m)[i].frozen <==> i < CountFrozen(sized)
    {
      ColumnOrder.RankBelowIsPrefix(ranks, bound, i);
      var k := DisplayOrder(m)[i];
      assert sized[k].frozen <==> ranks[k] < bound;
    }
  }

  /**
   * When the frozen columns are a prefix ending at `lastFrozenColumnIndex`,
   * the frozen width (the right edge of the last frozen column) is the sum
   * of the frozen widths, and every longer prefix has that frozen width.
   */
  lemma {:induction false} FrozenPrefixWidth(cols: seq<CalculatedColumn>, lastFrozenColumnIndex: int)
    requires -1 <= lastFrozenColumnIndex < |cols| && OffsetsAreSums(cols)
    requires forall i :: 0 <= i < |cols| ==> (cols[i].frozen <==> i <= lastFrozenColumnIndex)
    ensures FrozenWidth(cols) ==
      if lastFrozenColumnIndex == -1 then 0
      else cols[lastFrozenColumnIndex].left + cols[lastFrozenColumnIndex].width
    ensures forall k :: lastFrozenColumnIndex < k <= |cols| ==> FrozenWidth(cols[..k]) == FrozenWidth(cols)
  {
    var n := lastFrozenColumnIndex + 1;
    FrozenWidthOfFrozen(cols, n);
    FrozenWidthAfter(cols, n, |cols|);
    assert cols[..|cols|] == cols;
    forall k | lastFrozenColumnIndex < k <= |cols| ensures FrozenWidth(cols[..k]) == FrozenWidth(cols) {
      FrozenWidthAfter(cols, n, k);
    }
    if n > 0 {
      assert cols[..n][..n - 1] == cols[..n - 1];
    }
  }

  lemma {:induction false} FrozenWidthOfFrozen(cols: seq<CalculatedColumn>, n: nat)
    requires n <= |cols|
    requires forall i :: 0 <= i < n ==> cols[i].frozen
    ensures FrozenWidth(cols[..n]) == SumWidths(cols[..n])
  {
    if n > 0 {
      FrozenWidthOfFrozen(cols, n - 1);
      assert cols[..n][..n - 1] == cols[..n - 1];
    }
  }

  lemma {:induction false} FrozenWidthAfter(cols: seq<CalculatedColumn>, n: nat, k: nat)
    requires n <= k <= |cols|
    requires forall i :: n <= i < |cols| ==> !cols[i].frozen
    ensures FrozenWidth(cols[..k]) == FrozenWidth(cols[..n])
  {
    if k > n {
      FrozenWidthAfter(cols, n, k - 1);
      assert cols[..k][..k - 1] == cols[..k - 1];
    }
  }

  // ---------------------------------------------------------------------
  // Scrolling a column into view
  // ---------------------------------------------------------------------

  /**
   * How far to scroll horizontally so that column `idx` is visible: its left
   * edge, less the widths of the frozen columns before it, is compared with
   * the scroll position, and its right edge with the right end of the
   * viewport. Negative: scroll left until the column's left edge meets the
   * frozen area; positive: scroll right until its right edge meets the
   * viewport's end; zero: already visible, or no such column.
   */
  method GetColumnScrollPosition(columns: seq<CalculatedColumn>, idx: int, currentScrollLeft: int, currentClientWidth: int)
    returns (delta: int)
    ensures !(0 <= idx < |columns|) ==> delta == 0
    ensures 0 <= idx < |columns| ==>
      var left := SumWidths(columns[..idx]);
      var frozen := FrozenWidth(columns[..idx]);
      var right := left + columns[idx].width;
      && (delta < 0 <==> left - frozen < currentScrollLeft)
      && (delta < 0 ==> left - frozen == currentScrollLeft + delta)
      && (delta > 0 ==> right == currentScrollLeft + delta + currentClientWidth)
      && (delta >= 0 ==> left - frozen >= currentScrollLeft)
      && (delta == 0 ==> right <= currentScrollLeft + currentClientWidth)
  {
    var left := 0;
    var frozen := 0;
    var i := 0;
    while i < idx
      invariant 0 <= i && (0 <= idx ==> i <= idx)
      invariant left == SumWidths(columns[..Min(i, |columns|)])
      invariant frozen == FrozenWidth(columns[..Min(i, |columns|)])
    {
      if i < |columns| {
        var column := columns[i];
        assert columns[..i + 1][..i] == columns[..i];
        if column.width != 0 {
          left := left + column.width;
        }
        if column.frozen {
          frozen := frozen + column.width;
        }
      }
      i := i + 1;
    }
    delta := 0;
    if 0 <= idx < |columns| {
      var selectedColumn := columns[idx];
      var scrollLeft := left - frozen - currentScrollLeft;
      var scrollRight := left + selectedColumn.width - currentScrollLeft;
      if scrollLeft < 0 {
        delta := scrollLeft;
      } else if scrollRight > currentClientWidth {
        delta := scrollRight - currentClientWidth;
      }
    }
  }
}
