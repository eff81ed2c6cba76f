/**
 * The grid component's selection and editing state machine: the selected
 * position (a cell, or a whole row when grouping is on) in SELECT or EDIT
 * mode, keyboard navigation, group toggling, row selection, the fill
 * handle, and the reset the grid applies on every render.
 */
module DataGrid {
  import opened Utils
  import opened ViewportRows
  import ColumnUtils

  // ---------------------------------------------------------------------
  // State and view
  // ---------------------------------------------------------------------

  /** A cell: a column index and a displayed-row index; `idx == -1` stands for the whole row. */
  datatype Cell = Cell(idx: int, rowIdx: int)

  /** SELECT, or EDIT with the row being edited and the row as it was when editing began. */
  datatype Mode<R> = Select | Edit(key: Option<string>, row: R, originalRow: R)

  datatype SelectedPosition<R> = SelectedPosition(idx: int, rowIdx: int, mode: Mode<R>)
  {
    function At(): Cell { Cell(idx, rowIdx) }
  }

  /** The position meaning "nothing selected". */
  function NoSelection<R>(): SelectedPosition<R>
  {
    SelectedPosition(-1, -1, Select)
  }

  /** The cell copied with Ctrl+C: its row and its column's key. */
  datatype CopiedCell<R> = CopiedCell(row: R, columnKey: string)

  /**
   * What one render of the grid works with: the laid-out columns, the
   * application's rows, the displayed rows with the set of group rows among
   * them, whether grouping is on, and the body's height and row height.
   */
  datatype GridView<R(==)> = GridView(
    columns: seq<ColumnUtils.CalculatedColumn>,
    rawRows: seq<R>,
    rows: seq<GridRow<R>>,
    allGroupRows: set<GroupRow<R>>,
    hasGroups: bool,
    clientHeight: int,
    rowHeight: int)

  /** The whole-row column `-1` exists only when grouping is on. */
  function MinColIdx<R(==)>(view: GridView<R>): int
  {
    if view.hasGroups then -1 else 0
  }

  predicate IsCellWithinBounds<R(==)>(view: GridView<R>, cell: Cell)
  {
    0 <= cell.rowIdx < |view.rows| && MinColIdx(view) <= cell.idx < |view.columns|
  }

  /**
   * Column -1 (the whole row) is within bounds exactly when grouping is on;
   * the sentinel position "nothing selected" never is.
   */
  lemma WholeRowNeedsGroups<R>(view: GridView<R>, rowIdx: int)
    ensures IsCellWithinBounds(view, Cell(-1, rowIdx)) <==> view.hasGroups && 0 <= rowIdx < |view.rows|
    ensures !IsCellWithinBounds(view, NoSelection<R>().At())
  {
  }

  /**
   * A cell can be edited when it is within bounds, in a column, on one of the
   * application's rows, and the application's editability rule accepts it.
   */
  predicate IsCellEditable<R(==)>(view: GridView<R>, cell: Cell, isEditable: (ColumnUtils.CalculatedColumn, R) -> bool)
  {
    && IsCellWithinBounds(view, cell)
    && cell.idx >= 0
    && view.rows[cell.rowIdx].Leaf?
    && isEditable(view.columns[cell.idx], view.rows[cell.rowIdx].row)
  }

  /** The index in the application's rows of a displayed row: the same index without grouping, else the row's first occurrence (-1 if none). */
  function RawRowIdx<R(==)>(view: GridView<R>, rowIdx: int): (i: int)
    ensures !view.hasGroups ==> i == rowIdx
    ensures view.hasGroups ==> -1 <= i < |view.rawRows|
    ensures view.hasGroups && i >= 0 ==> 0 <= rowIdx < |view.rows| && view.rows[rowIdx] == Leaf(view.rawRows[i])
    ensures view.hasGroups && 0 <= rowIdx < |view.rows| && view.rows[rowIdx].Leaf? && view.rows[rowIdx].row in view.rawRows ==> i >= 0
  {
    if !view.hasGroups then rowIdx
    else if 0 <= rowIdx < |view.rows| && view.rows[rowIdx].Leaf? then IndexOf(view.rawRows, view.rows[rowIdx].row)
    else -1
  }

  /** A copy of `rows` with index `i` replaced; an index outside the rows leaves the elements as they are. */
  function WriteAt<R>(rows: seq<R>, i: int, row: R): (r: seq<R>)
    ensures |r| == |rows|
    ensures forall j :: 0 <= j < |rows| ==> r[j] == if j == i then row else rows[j]
  {
    if 0 <= i < |rows| then rows[i := row] else rows
  }

  // ---------------------------------------------------------------------
  // Editing
  // ---------------------------------------------------------------------

  /**
   * The rows handed to the row-change callback when the edit is committed:
   * only in EDIT mode, on a column with an editor, with a row that differs
   * from the original; the edited row replaces the application's row.
   */
  function CommitEditorChanges<R(==)>(view: GridView<R>, position: SelectedPosition<R>): (updatedRows: Option<seq<R>>)
    ensures updatedRows.Some? <==>
      && 0 <= position.idx < |view.columns| && view.columns[position.idx].hasEditor
      && position.mode.Edit? && position.mode.row != position.mode.originalRow
    ensures updatedRows.Some? ==>
      var i := RawRowIdx(view, position.rowIdx);
      && |updatedRows.value| == |view.rawRows|
      && (forall j :: 0 <= j < |view.rawRows| && j != i ==> updatedRows.value[j] == view.rawRows[j])
      && (0 <= i < |view.rawRows| ==> updatedRows.value[i] == position.mode.row)
  {
    if !(0 <= position.idx < |view.columns|) || !view.columns[position.idx].hasEditor
       || position.mode.Select? || position.mode.row == position.mode.originalRow
    then None
    else Some(WriteAt(view.rawRows, RawRowIdx(view, position.rowIdx), position.mode.row))
  }

  // ---------------------------------------------------------------------
  // The grid's state
  // ---------------------------------------------------------------------

  class Grid<R(==)> {
    var selectedPosition: SelectedPosition<R>
    /** The anchor of shift-click range selection, -1 when there is none. */
    var lastSelectedRowIdx: int
    var copiedCell: Option<CopiedCell<R>>
    var draggedOverRowIdx: Option<int>

    constructor ()
      ensures selectedPosition == NoSelection() && lastSelectedRowIdx == -1
      ensures copiedCell == None && draggedOverRowIdx == None
    {
      selectedPosition := NoSelection();
      lastSelectedRowIdx := -1;
      copiedCell := None;
      draggedOverRowIdx := None;
    }

    /**
     * The state fits the view: the position is no further than the last
     * column and row, an edit is on the displayed row it started from, and
     * the shift-click anchor is a row or -1.
     */
    predicate Consistent(view: GridView<R>)
      reads this
    {
      && selectedPosition.idx < |view.columns|
      && selectedPosition.rowIdx < |view.rows|
      && lastSelectedRowIdx >= -1
      && (selectedPosition.mode.Edit? ==>
            && 0 <= selectedPosition.rowIdx
            && view.rows[selectedPosition.rowIdx] == Leaf(selectedPosition.mode.originalRow))
    }

    /**
     * Select a cell: a position out of bounds is ignored; otherwise a
     * pending edit is committed first, then the cell is selected, in EDIT
     * mode on its row when the editor is asked for and the cell is editable.
     */
    method SelectCell(view: GridView<R>, position: Cell, enableEditor: bool,
                      isEditable: (ColumnUtils.CalculatedColumn, R) -> bool)
      returns (committed: Option<seq<R>>)
      modifies this
      ensures !IsCellWithinBounds(view, position) ==> committed == None && selectedPosition == old(selectedPosition)
      ensures IsCellWithinBounds(view, position) ==>
        && committed == CommitEditorChanges(view, old(selectedPosition))
        && selectedPosition ==
             if enableEditor && IsCellEditable(view, position, isEditable)
             then SelectedPosition(position.idx, position.rowIdx,
                                   Edit(None, view.rows[position.rowIdx].row, view.rows[position.rowIdx].row))
             else SelectedPosition(position.idx, position.rowIdx, Select)
      ensures lastSelectedRowIdx == old(lastSelectedRowIdx) && copiedCell == old(copiedCell)
      ensures draggedOverRowIdx == old(draggedOverRowIdx)
      ensures old(Consistent(view)) ==> Consistent(view)
    {
      committed := None;
      if !IsCellWithinBounds(view, position) {
        return;
      }
      committed := CommitEditorChanges(view, selectedPosition);
      if enableEditor && IsCellEditable(view, position, isEditable) {
        var row := view.rows[position.rowIdx].row;
        selectedPosition := SelectedPosition(position.idx, position.rowIdx, Edit(None, row, row));
      } else {
        selectedPosition := SelectedPosition(position.idx, position.rowIdx, Select);
      }
    }

    /** Leave EDIT mode, staying on the same cell. */
    method CloseEditor()
      modifies this
      ensures selectedPosition == SelectedPosition(old(selectedPosition.idx), old(selectedPosition.rowIdx), Select)
      ensures lastSelectedRowIdx == old(lastSelectedRowIdx) && copiedCell == old(copiedCell)
      ensures draggedOverRowIdx == old(draggedOverRowIdx)
    {
      if selectedPosition.mode.Select? {
        return;
      }
      selectedPosition := SelectedPosition(selectedPosition.idx, selectedPosition.rowIdx, Select);
    }

    /** Drop the selection, the copied cell and the drag target. */
    method DeselectCell()
      modifies this
      ensures selectedPosition == NoSelection() && copiedCell == None && draggedOverRowIdx == None
      ensures lastSelectedRowIdx == old(lastSelectedRowIdx)
    {
      selectedPosition := NoSelection();
      copiedCell := None;
      draggedOverRowIdx := None;
    }

    /**
     * What every render does before drawing: a position past the last
     * column or row (one was removed) is reset to no selection and the drag
     * target dropped; an edit whose displayed row is no longer the row it
     * started from (the rows were replaced from outside) is discarded.
     * Afterwards the state fits the view.
     */
    method Reconcile(view: GridView<R>)
      modifies this
      ensures var p := old(selectedPosition);
        var reset := p.idx >= |view.columns| || p.rowIdx >= |view.rows|;
        var stale := !reset && p.mode.Edit? && !(0 <= p.rowIdx && view.rows[p.rowIdx] == Leaf(p.mode.originalRow));
        && (reset ==> selectedPosition == NoSelection() && draggedOverRowIdx == None)
        && (stale ==> selectedPosition == SelectedPosition(p.idx, p.rowIdx, Select))
        && (!reset && !stale ==> selectedPosition == p)
        && (!reset ==> draggedOverRowIdx == old(draggedOverRowIdx))
      ensures lastSelectedRowIdx == old(lastSelectedRowIdx) && copiedCell == old(copiedCell)
      ensures old(lastSelectedRowIdx) >= -1 ==> Consistent(view)
    {
      if selectedPosition.idx >= |view.columns| || selectedPosition.rowIdx >= |view.rows| {
        selectedPosition := NoSelection();
        draggedOverRowIdx := None;
      }
      if selectedPosition.mode.Edit?
         && !(0 <= selectedPosition.rowIdx && view.rows[selectedPosition.rowIdx] == Leaf(selectedPosition.mode.originalRow))
      {
        CloseEditor();
      }
    }

    // -------------------------------------------------------------------
    // Navigation
    // -------------------------------------------------------------------

    /**
     * The next cell for a navigation key. ArrowLeft on a selected, collapsed,
     * nested group row goes to the nearest earlier row of its parent group
     * when there is one; otherwise the key's move applies.
     */
    method GetNextPosition(view: GridView<R>, key: string, ctrlKey: bool, shiftKey: bool) returns (next: Cell)
      ensures !MovesToParent(view, selectedPosition.At(), key) ==> next == KeyMove(view, selectedPosition.At(), key, ctrlKey, shiftKey)
      ensures MovesToParent(view, selectedPosition.At(), key) ==>
        var parentId := view.rows[selectedPosition.rowIdx].group.parentId;
        || (&& next.idx == selectedPosition.idx
            && 0 <= next.rowIdx < selectedPosition.rowIdx
            && IsParentGroupRow(view, next.rowIdx, parentId)
            && forall i :: next.rowIdx < i < selectedPosition.rowIdx ==> !IsParentGroupRow(view, i, parentId))
        || (&& next == KeyMove(view, selectedPosition.At(), key, ctrlKey, shiftKey)
            && forall i :: 0 <= i < selectedPosition.rowIdx ==> !IsParentGroupRow(view, i, parentId))
    {
      var position := selectedPosition.At();
      if MovesToParent(view, position, key) {
        var parentRowIdx := FindParentRowIdx(view, position.rowIdx, view.rows[position.rowIdx].group.parentId);
        if parentRowIdx != -1 {
          return Cell(position.idx, parentRowIdx);
        }
      }
      next := KeyMove(view, position, key, ctrlKey, shiftKey);
    }

    // -------------------------------------------------------------------
    // Row selection
    // -------------------------------------------------------------------

    /**
     * The row-selection handler. Without a selection callback it is not
     * subscribed; without a key getter it is a usage error. A group row
     * adds or removes the keys of all its rows. Checking one of the
     * application's rows adds its key and makes it the anchor, and a shift
     * click from a different anchor also adds the keys of the rows strictly
     * between; unchecking removes its key and clears the anchor.
     */
    method HandleRowSelectionChange<K(==)>(
      view: GridView<R>, selectedRows: Option<set<K>>, rowIdx: int, checked: bool, isShiftClick: bool,
      rowKeyGetter: Option<R -> K>, hasSelectionCallback: bool)
      returns (change: SelectionChange<K>)
      requires view.allGroupRows == GroupSet(view.rows) && 0 <= rowIdx < |view.rows|
      modifies this
      ensures var base := selectedRows.GetOr({});
        var row := view.rows[rowIdx];
        && (!hasSelectionCallback ==> change == NoCallback)
        && (hasSelectionCallback && rowKeyGetter.None? ==> change == UsageError(KEY_GETTER_ERROR))
        && (hasSelectionCallback && rowKeyGetter.Some? && row.Group? ==>
              change == Selected(if checked then base + KeysOf(row.group.childRows, rowKeyGetter.value)
                                 else base - KeysOf(row.group.childRows, rowKeyGetter.value)))
        && (hasSelectionCallback && rowKeyGetter.Some? && row.Leaf? && checked ==>
              var anchor := old(lastSelectedRowIdx);
              && change == Selected(base + {rowKeyGetter.value(row.row)} +
                                    if isShiftClick && anchor != -1 && anchor != rowIdx
                                    then RangeKeys(view, Min(anchor, rowIdx) + 1, Max(anchor, rowIdx), rowKeyGetter.value)
                                    else {})
              && lastSelectedRowIdx == rowIdx)
        && (hasSelectionCallback && rowKeyGetter.Some? && row.Leaf? && !checked ==>
              change == Selected(base - {rowKeyGetter.value(row.row)}) && lastSelectedRowIdx == -1)
        && (!(hasSelectionCallback && rowKeyGetter.Some? && row.Leaf?) ==> lastSelectedRowIdx == old(lastSelectedRowIdx))
      ensures selectedPosition == old(selectedPosition) && copiedCell == old(copiedCell)
      ensures draggedOverRowIdx == old(draggedOverRowIdx)
    {
      if !hasSelectionCallback {
        return NoCallback;
      }
      var error := AssertIsValidKeyGetter(rowKeyGetter);
      if error.Some? {
        return UsageError(error.value);
      }
      var getKey := rowKeyGetter.value;
      var newSelectedRows := selectedRows.GetOr({});
      var row := view.rows[rowIdx];
      if IsGroupRow(view.allGroupRows, row) {
        newSelectedRows := UpdateChildKeys(newSelectedRows, row.group.childRows, getKey, checked);
        return Selected(newSelectedRows);
      }
      assert row.Leaf?;
      var rowKey := getKey(row.row);
      if checked {
        newSelectedRows := newSelectedRows + {rowKey};
        var previousRowIdx := lastSelectedRowIdx;
        lastSelectedRowIdx := rowIdx;
        if isShiftClick && previousRowIdx != -1 && previousRowIdx != rowIdx {
          newSelectedRows := AddRangeKeys(view, newSelectedRows, previousRowIdx, rowIdx, getKey);
        }
      } else {
        newSelectedRows := newSelectedRows - {rowKey};
        lastSelectedRowIdx := -1;
      }
      change := Selected(newSelectedRows);
    }

    // -------------------------------------------------------------------
    // Fill handle
    // -------------------------------------------------------------------

    /**
     * Which column of row `currentRowIdx` shows as dragged over: the
     * selected column, on the rows strictly past the selected row up to and
     * including the row under the pointer.
     */
    function GetDraggedOverCellIdx(currentRowIdx: int): (idx: Option<int>)
      reads this
      ensures idx.Some? ==> idx.value == selectedPosition.idx
    {
      if draggedOverRowIdx.None? then None
      else
        var rowIdx := selectedPosition.rowIdx;
        var over := draggedOverRowIdx.value;
        var isDraggedOver :=
          if rowIdx < over then rowIdx < currentRowIdx && currentRowIdx <= over
          else rowIdx > currentRowIdx && currentRowIdx >= over;
        if isDraggedOver then Some(selectedPosition.idx) else None
    }

    /**
     * End of a fill drag: the rows from just past the selected row to the
     * row under the pointer (or from that row up to just before the
     * selected row) are replaced by what the fill callback makes of them,
     * every other row is kept, and the drag target is dropped.
     */
    method HandleDragEnd(view: GridView<R>, onFill: Option<FillCallback<R>>, hasRowsChange: bool)
      returns (updatedRows: Option<seq<R>>)
      requires draggedOverRowIdx.Some? ==> 0 <= draggedOverRowIdx.value < |view.rawRows|
      requires 0 <= selectedPosition.rowIdx < |view.rawRows| && 0 <= selectedPosition.idx < |view.columns|
      requires onFill.Some? ==> forall key, source, targets :: |onFill.value(key, source, targets)| == |targets|
      modifies this
      ensures old(draggedOverRowIdx.None?) || onFill.None? || !hasRowsChange ==>
        updatedRows == None && draggedOverRowIdx == old(draggedOverRowIdx)
      ensures old(draggedOverRowIdx.Some?) && onFill.Some? && hasRowsChange ==>
        var (start, end) := FillRange(old(selectedPosition.rowIdx), old(draggedOverRowIdx.value));
        var source := view.rawRows[old(selectedPosition.rowIdx)];
        var key := view.columns[old(selectedPosition.idx)].key;
        && updatedRows == Some(view.rawRows[..start] + onFill.value(key, source, view.rawRows[start..end]) + view.rawRows[end..])
        && draggedOverRowIdx == None
      ensures selectedPosition == old(selectedPosition) && lastSelectedRowIdx == old(lastSelectedRowIdx)
      ensures copiedCell == old(copiedCell)
    {
      var overRowIdx := draggedOverRowIdx;
      if overRowIdx.None? || onFill.None? || !hasRowsChange {
        return None;
      }
      var idx, rowIdx := selectedPosition.idx, selectedPosition.rowIdx;
      var sourceRow := view.rawRows[rowIdx];
      var (startRowIndex, endRowIndex) := FillRange(rowIdx, overRowIdx.value);
      var targetRows := view.rawRows[startRowIndex..endRowIndex];
      var updatedTargetRows := onFill.value(view.columns[idx].key, sourceRow, targetRows);
      var rows := WriteBack(view.rawRows, startRowIndex, endRowIndex, updatedTargetRows);
      updatedRows := Some(rows);
      draggedOverRowIdx := None;
    }

    /**
     * Double-click on the fill handle: every row after the selected one is
     * replaced by what the fill callback makes of it; the rows up to the
     * selected one are kept.
     */
    method HandleDoubleClick(view: GridView<R>, onFill: Option<FillCallback<R>>, hasRowsChange: bool)
      returns (updatedRows: Option<seq<R>>)
      requires 0 <= selectedPosition.rowIdx < |view.rawRows| && 0 <= selectedPosition.idx < |view.columns|
      requires onFill.Some? ==> forall key, source, targets :: |onFill.value(key, source, targets)| == |targets|
      ensures onFill.None? || !hasRowsChange ==> updatedRows == None
      ensures onFill.Some? && hasRowsChange ==>
        var rowIdx := selectedPosition.rowIdx;
        var key := view.columns[selectedPosition.idx].key;
        updatedRows == Some(view.rawRows[..rowIdx + 1] + onFill.value(key, view.rawRows[rowIdx], view.rawRows[rowIdx + 1..]))
    {
      if onFill.None? || !hasRowsChange {
        return None;
      }
      var idx, rowIdx := selectedPosition.idx, selectedPosition.rowIdx;
      var sourceRow := view.rawRows[rowIdx];
      var targetRows := view.rawRows[rowIdx + 1..];
      var updatedTargetRows := onFill.value(view.columns[idx].key, sourceRow, targetRows);
      var rows := WriteBack(view.rawRows, rowIdx + 1, |view.rawRows|, updatedTargetRows);
      assert view.rawRows[|view.rawRows|..] == [];
      assert rows == view.rawRows[..rowIdx + 1] + updatedTargetRows;
      updatedRows := Some(rows);
    }
  }

  // ---------------------------------------------------------------------
  // Navigation keys
  // ---------------------------------------------------------------------

  /** The whole row is selected: the position is within bounds on column -1. */
  predicate IsRowSelected<R(==)>(view: GridView<R>, position: Cell)
  {
    IsCellWithinBounds(view, position) && position.idx == -1
  }

  /** ArrowLeft on a selected, collapsed group row below the top level looks for the parent group's row. */
  predicate MovesToParent<R(==)>(view: GridView<R>, position: Cell, key: string)
  {
    && key == "ArrowLeft"
    && IsRowSelected(view, position)
    && IsGroupRow(view.allGroupRows, view.rows[position.rowIdx])
    && !view.rows[position.rowIdx].group.isExpanded
    && view.rows[position.rowIdx].group.level != 0
  }

  /** Row `i` is a group row whose id is `parentId`. */
  predicate IsParentGroupRow<R(==)>(view: GridView<R>, i: int, parentId: Option<string>)
  {
    0 <= i < |view.rows| && IsGroupRow(view.allGroupRows, view.rows[i]) && parentId == Some(view.rows[i].group.id)
  }

  /** Search upwards from the row above `rowIdx` for the nearest row of the group `parentId`; -1 if there is none. */
  method FindParentRowIdx<R(==)>(view: GridView<R>, rowIdx: int, parentId: Option<string>) returns (parentRowIdx: int)
    requires 0 <= rowIdx <= |view.rows|
    ensures parentRowIdx == -1 ==> forall i :: 0 <= i < rowIdx ==> !IsParentGroupRow(view, i, parentId)
    ensures parentRowIdx != -1 ==>
      && 0 <= parentRowIdx < rowIdx && IsParentGroupRow(view, parentRowIdx, parentId)
      && forall i :: parentRowIdx < i < rowIdx ==> !IsParentGroupRow(view, i, parentId)
  {
    var i := rowIdx - 1;
    while i >= 0
      invariant -1 <= i < rowIdx
      invariant forall j :: i < j < rowIdx ==> !IsParentGroupRow(view, j, parentId)
    {
      if IsGroupRow(view.allGroupRows, view.rows[i]) && parentId == Some(view.rows[i].group.id) {
        return i;
      }
      i := i - 1;
    }
    return -1;
  }

  /**
   * The cell a navigation key moves to, before the grid's clamping: arrows
   * move one row or column, Tab one column (back with Shift, and from no
   * selection to the first or last cell), Home/End to the first/last column
   * (and row with Ctrl) or, on a selected whole row, to the first/last row,
   * PageUp/PageDown by a page of rows. Any other key stays put.
   */
  function KeyMove<R(==)>(view: GridView<R>, position: Cell, key: string, ctrlKey: bool, shiftKey: bool): Cell
  {
    var idx := position.idx;
    var rowIdx := position.rowIdx;
    var pageRows := if view.rowHeight > 0 then view.clientHeight / view.rowHeight else 0;
    match key
    case "ArrowUp" => Cell(idx, rowIdx - 1)
    case "ArrowDown" => Cell(idx, rowIdx + 1)
    case "ArrowLeft" => Cell(idx - 1, rowIdx)
    case "ArrowRight" => Cell(idx + 1, rowIdx)
    case "Tab" =>
      if idx == -1 && rowIdx == -1 then
        (if shiftKey then Cell(|view.columns| - 1, |view.rows| - 1) else Cell(0, 0))
      else Cell(idx + (if shiftKey then -1 else 1), rowIdx)
    case "Home" =>
      if IsRowSelected(view, position) then Cell(idx, 0)
      else if ctrlKey then Cell(0, 0) else Cell(0, rowIdx)
    case "End" =>
      if IsRowSelected(view, position) then Cell(idx, |view.rows| - 1)
      else if ctrlKey then Cell(|view.columns| - 1, |view.rows| - 1) else Cell(|view.columns| - 1, rowIdx)
    case "PageUp" => Cell(idx, rowIdx - pageRows)
    case "PageDown" => Cell(idx, rowIdx + pageRows)
    case _ => position
  }

  /**
   * The arrow keys change one coordinate by one; Tab moves one column
   * (Shift+Tab back), and from no selection enters at the first cell or,
   * with Shift, the last; PageUp and PageDown move by the number of whole
   * rows that fit the body.
   */
  lemma KeyMoveSteps<R>(view: GridView<R>, p: Cell, ctrlKey: bool, shiftKey: bool)
    requires view.rowHeight > 0
    ensures KeyMove(view, p, "ArrowUp", ctrlKey, shiftKey) == Cell(p.idx, p.rowIdx - 1)
    ensures KeyMove(view, p, "ArrowDown", ctrlKey, shiftKey) == Cell(p.idx, p.rowIdx + 1)
    ensures KeyMove(view, p, "ArrowLeft", ctrlKey, shiftKey) == Cell(p.idx - 1, p.rowIdx)
    ensures KeyMove(view, p, "ArrowRight", ctrlKey, shiftKey) == Cell(p.idx + 1, p.rowIdx)
    ensures p != Cell(-1, -1) ==> KeyMove(view, p, "Tab", ctrlKey, shiftKey) == Cell(p.idx + (if shiftKey then -1 else 1), p.rowIdx)
    ensures KeyMove(view, Cell(-1, -1), "Tab", ctrlKey, false) == Cell(0, 0)
    ensures KeyMove(view, Cell(-1, -1), "Tab", ctrlKey, true) == Cell(|view.columns| - 1, |view.rows| - 1)
    ensures var page := KeyMove(view, p, "PageDown", ctrlKey, shiftKey).rowIdx - p.rowIdx;
      && page * view.rowHeight <= view.clientHeight < (page + 1) * view.rowHeight
      && KeyMove(view, p, "PageUp", ctrlKey, shiftKey) == Cell(p.idx, p.rowIdx - page)
  {
  }

  /**
   * Home and End: on a selected whole row they go to the first/last row in
   * the same column; otherwise to the first/last column, and with Ctrl also
   * to the first/last row.
   */
  lemma HomeEndMoves<R>(view: GridView<R>, p: Cell, ctrlKey: bool, shiftKey: bool)
    ensures IsRowSelected(view, p) ==>
      && KeyMove(view, p, "Home", ctrlKey, shiftKey) == Cell(p.idx, 0)
      && KeyMove(view, p, "End", ctrlKey, shiftKey) == Cell(p.idx, |view.rows| - 1)
    ensures !IsRowSelected(view, p) ==>
      && KeyMove(view, p, "Home", ctrlKey, shiftKey) == Cell(0, if ctrlKey then 0 else p.rowIdx)
      && KeyMove(view, p, "End", ctrlKey, shiftKey) == Cell(|view.columns| - 1, if ctrlKey then |view.rows| - 1 else p.rowIdx)
  {
  }

  /** Opposite keys undo each other: Up/Down, Left/Right, PageDown/PageUp, and Tab/Shift+Tab away from no selection. */
  lemma OppositeKeysCancel<R>(view: GridView<R>, p: Cell, ctrlKey: bool)
    requires view.rowHeight > 0
    ensures KeyMove(view, KeyMove(view, p, "ArrowDown", ctrlKey, false), "ArrowUp", ctrlKey, false) == p
    ensures KeyMove(view, KeyMove(view, p, "ArrowRight", ctrlKey, false), "ArrowLeft", ctrlKey, false) == p
    ensures KeyMove(view, KeyMove(view, p, "PageDown", ctrlKey, false), "PageUp", ctrlKey, false) == p
    ensures p != Cell(-1, -1) && p != Cell(-2, -1) ==>
      KeyMove(view, KeyMove(view, p, "Tab", ctrlKey, false), "Tab", ctrlKey, true) == p
  {
  }

  /**
   * In a grid whose rows come from the flattening, the parent search always
   * succeeds: a collapsed group row below the top level has its parent's
   * row above it, so ArrowLeft never falls back to moving a column.
   */
  lemma ParentRowAlwaysFound<R>(view: GridView<R>, rowIdx: int, expandedGroupIds: Option<set<string>>)
    requires view.allGroupRows == GroupSet(view.rows)
    requires Nested(view.rows, None, 0, expandedGroupIds)
    requires 0 <= rowIdx < |view.rows| && view.rows[rowIdx].Group? && view.rows[rowIdx].group.level != 0
    ensures exists i :: 0 <= i < rowIdx && IsParentGroupRow(view, i, view.rows[rowIdx].group.parentId)
  {
    var j :| 0 <= j < rowIdx && IsParentRow(view.rows[j], view.rows[rowIdx].group);
    assert view.rows[j].group in GroupSet(view.rows);
    assert IsParentGroupRow(view, j, view.rows[rowIdx].group.parentId);
  }

  // ---------------------------------------------------------------------
  // Group toggling
  // ---------------------------------------------------------------------

  /**
   * The group id a key toggles instead of moving: ArrowLeft on an expanded
   * group row, ArrowRight on a collapsed one, when the whole row is
   * selected.
   */
  function GroupToggleOnKey<R(==)>(view: GridView<R>, position: Cell, key: string): (id: Option<string>)
    ensures id.Some? ==> IsRowSelected(view, position) && IsGroupRow(view.allGroupRows, view.rows[position.rowIdx])
    ensures id.Some? ==> id.value == view.rows[position.rowIdx].group.id
    ensures id.Some? ==> !MovesToParent(view, position, key)
  {
    if IsCellWithinBounds(view, position) && IsGroupRow(view.allGroupRows, view.rows[position.rowIdx]) && position.idx == -1
       && ((key == "ArrowLeft" && view.rows[position.rowIdx].group.isExpanded)
           || (key == "ArrowRight" && !view.rows[position.rowIdx].group.isExpanded))
    then Some(view.rows[position.rowIdx].group.id)
    else None
  }

  /**
   * The key toggle flips what the group row shows: in rows laid out from
   * `expandedGroupIds`, ArrowRight on a collapsed group row makes its id
   * expanded and ArrowLeft on an expanded one makes it collapsed.
   */
  lemma KeyToggleFlipsExpansion<R>(view: GridView<R>, position: Cell, key: string, expandedGroupIds: Option<set<string>>)
    requires Nested(view.rows, None, 0, expandedGroupIds)
    requires GroupToggleOnKey(view, position, key).Some?
    ensures var id := GroupToggleOnKey(view, position, key).value;
      var expanded := IsExpanded(Some(Toggled(expandedGroupIds.GetOr({}), id)), id);
      && (key == "ArrowRight" ==> expanded && !IsExpanded(expandedGroupIds, id))
      && (key == "ArrowLeft" ==> !expanded && IsExpanded(expandedGroupIds, id))
  {
    var g := view.rows[position.rowIdx].group;
    assert WellFormedGroupRow(g, expandedGroupIds);
  }

  /** `ids` with `id` removed if present, added if absent. */
  function Toggled(ids: set<string>, id: string): (r: set<string>)
    ensures forall x :: x in r <==> (x in ids) != (x == id)
  {
    if id in ids then ids - {id} else ids + {id}
  }

  /** Toggling the same id twice restores the set. */
  lemma ToggledTwice(ids: set<string>, id: string)
    ensures Toggled(Toggled(ids, id), id) == ids
  {
  }

  /**
   * The group-toggle handler: subscribed only with an expanded-ids callback,
   * to which it hands the expanded ids (none when absent) with `id` toggled.
   */
  method ToggleGroup(expandedGroupIds: Option<set<string>>, id: string, hasExpandedCallback: bool)
    returns (newExpandedGroupIds: Option<set<string>>)
    ensures !hasExpandedCallback ==> newExpandedGroupIds == None
    ensures hasExpandedCallback ==>
      && newExpandedGroupIds.Some?
      && (forall x :: x != id ==> (x in newExpandedGroupIds.value <==> x in expandedGroupIds.GetOr({})))
      && (id in newExpandedGroupIds.value <==> id !in expandedGroupIds.GetOr({}))
  {
    if !hasExpandedCallback {
      return None;
    }
    var ids := expandedGroupIds.GetOr({});
    if id in ids {
      ids := ids - {id};
    } else {
      ids := ids + {id};
    }
    assert ids == Toggled(expandedGroupIds.GetOr({}), id);
    newExpandedGroupIds := Some(ids);
  }

  // ---------------------------------------------------------------------
  // Row-selection helpers
  // ---------------------------------------------------------------------

  /** The keys of the application's rows displayed at indices `lo` up to but excluding `hi`. */
  function RangeKeys<R(==), K(==)>(view: GridView<R>, lo: int, hi: int, getKey: R -> K): set<K>
  {
    set i | lo <= i < hi && 0 <= i < |view.rows| && view.rows[i].Leaf? :: getKey(view.rows[i].row)
  }

  /** Add (when `checked`) or remove the key of every row of a group. */
  method UpdateChildKeys<R, K(==)>(selected: set<K>, childRows: seq<R>, getKey: R -> K, checked: bool)
    returns (result: set<K>)
    ensures result == if checked then selected + KeysOf(childRows, getKey) else selected - KeysOf(childRows, getKey)
  {
    result := selected;
    for i := 0 to |childRows|
      invariant result == if checked then selected + KeysOf(childRows[..i], getKey) else selected - KeysOf(childRows[..i], getKey)
    {
      KeysOfAppend(childRows, i, getKey);
      var rowKey := getKey(childRows[i]);
      if checked {
        result := result + {rowKey};
      } else {
        result := result - {rowKey};
      }
    }
    assert childRows[..|childRows|] == childRows;
  }

  /**
   * The shift-click loop: walk from the anchor towards the clicked row and
   * add the key of every row strictly between that is not a group row.
   */
  method AddRangeKeys<R(==), K(==)>(view: GridView<R>, selected: set<K>, from: int, to: int, getKey: R -> K)
    returns (result: set<K>)
    requires view.allGroupRows == GroupSet(view.rows) && from != to
    ensures result == selected + RangeKeys(view, Min(from, to) + 1, Max(from, to), getKey)
  {
    var step := if to > from then 1 else -1;
    result := selected;
    var i := from + step;
    while i != to
      invariant step == 1 ==> from < i <= to && result == selected + RangeKeys(view, from + 1, i, getKey)
      invariant step == -1 ==> to <= i < from && result == selected + RangeKeys(view, i + 1, from, getKey)
      decreases if step == 1 then to - i else i - to
    {
      if step == 1 {
        RangeKeysExtendHigh(view, from + 1, i, getKey);
      } else {
        RangeKeysExtendLow(view, i, from, getKey);
      }
      if 0 <= i < |view.rows| && !IsGroupRow(view.allGroupRows, view.rows[i]) {
        assert view.rows[i].Leaf?;
        result := result + {getKey(view.rows[i].row)};
      }
      i := i + step;
    }
  }

  lemma RangeKeysExtendHigh<R, K>(view: GridView<R>, lo: int, hi: int, getKey: R -> K)
    requires lo <= hi
    ensures RangeKeys(view, lo, hi + 1, getKey) ==
      RangeKeys(view, lo, hi, getKey) + if 0 <= hi < |view.rows| && view.rows[hi].Leaf? then {getKey(view.rows[hi].row)} else {}
  {
  }

  lemma RangeKeysExtendLow<R, K>(view: GridView<R>, lo: int, hi: int, getKey: R -> K)
    requires lo < hi
    ensures RangeKeys(view, lo, hi, getKey) ==
      RangeKeys(view, lo + 1, hi, getKey) + if 0 <= lo < |view.rows| && view.rows[lo].Leaf? then {getKey(view.rows[lo].row)} else {}
  {
  }

  // ---------------------------------------------------------------------
  // Fill
  // ---------------------------------------------------------------------

  /** The fill callback: the column's key, the source row and the target rows give the updated target rows. */
  type FillCallback<!R> = (string, R, seq<R>) -> seq<R>

  /**
   * The rows a drag from `rowIdx` to `overRowIdx` fills, as a half-open
   * range: below the selected row up to the target when dragging down, from
   * the target up to the selected row when dragging up.
   */
  function FillRange(rowIdx: int, overRowIdx: int): (range: (int, int))
    ensures rowIdx < overRowIdx ==> range == (rowIdx + 1, overRowIdx + 1)
    ensures rowIdx >= overRowIdx ==> range == (overRowIdx, rowIdx)
  {
    if rowIdx < overRowIdx then (rowIdx + 1, overRowIdx + 1) else (overRowIdx, rowIdx)
  }

  /**
   * The rows shown as dragged over are exactly the rows the drag will fill,
   * and they never include the selected row itself.
   */
  lemma DraggedOverIsFillRange<R>(grid: Grid<R>, currentRowIdx: int)
    requires grid.draggedOverRowIdx.Some?
    ensures var (start, end) := FillRange(grid.selectedPosition.rowIdx, grid.draggedOverRowIdx.value);
      && (grid.GetDraggedOverCellIdx(currentRowIdx).Some? <==> start <= currentRowIdx < end)
      && grid.GetDraggedOverCellIdx(grid.selectedPosition.rowIdx).None?
  {
  }

  /** Copy `rows`, writing `updatedTargetRows` over indices `start` up to `end`. */
  method WriteBack<R>(rows: seq<R>, start: int, end: int, updatedTargetRows: seq<R>) returns (updatedRows: seq<R>)
    requires 0 <= start <= end <= |rows| && |updatedTargetRows| == end - start
    ensures updatedRows == rows[..start] + updatedTargetRows + rows[end..]
  {
    updatedRows := rows;
    for i := start to end
      invariant |updatedRows| == |rows|
      invariant forall j :: 0 <= j < |rows| ==>
        updatedRows[j] == if start <= j < i then updatedTargetRows[j - start] else rows[j]
    {
      updatedRows := updatedRows[i := updatedTargetRows[i - start]];
    }
    assert updatedRows == rows[..start] + updatedTargetRows + rows[end..] by {
      var expected := rows[..start] + updatedTargetRows + rows[end..];
      assert |expected| == |rows|;
      forall j | 0 <= j < |rows| ensures updatedRows[j] == expected[j] {
        if j < start {
        } else if j < end {
          assert expected[j] == updatedTargetRows[j - start];
        } else {
          assert expected[j] == rows[j];
        }
      }
    }
  }

  /** Outside the filled range a fill keeps every row; inside, row `j` is the callback's `j - start`-th row. */
  lemma FillTouchesOnlyRange<R>(rows: seq<R>, start: int, end: int, updatedTargetRows: seq<R>, j: int)
    requires 0 <= start <= end <= |rows| && |updatedTargetRows| == end - start && 0 <= j < |rows|
    ensures var filled := rows[..start] + updatedTargetRows + rows[end..];
      && |filled| == |rows|
      && (start <= j < end ==> filled[j] == updatedTargetRows[j - start])
      && (!(start <= j < end) ==> filled[j] == rows[j])
  {
    var filled := rows[..start] + updatedTargetRows + rows[end..];
    if j >= end {
      assert filled[j] == rows[end..][j - end];
    }
  }

  // ---------------------------------------------------------------------
  // Paste
  // ---------------------------------------------------------------------

  /** The paste callback: source row, source column key, target row and target column key give the updated target row. */
  type PasteCallback<!R> = (R, string, R, string) -> R

  /**
   * Paste as the grid does it: the target row is looked up through the
   * displayed-to-application index, but the pasted row is written at the
   * displayed index. The write is a JavaScript array assignment, so an index
   * at or past the end grows the array; the slots it skips hold no row
   * (`None`, JavaScript's `undefined`).
   */
  function PasteAsWritten<R(==)>(view: GridView<R>, position: Cell, copied: CopiedCell<R>, onPaste: PasteCallback<R>): (updatedRows: seq<Option<R>>)
    requires 0 <= position.idx < |view.columns| && 0 <= RawRowIdx(view, position.rowIdx) < |view.rawRows|
    ensures 0 <= position.rowIdx && |updatedRows| == Max(|view.rawRows|, position.rowIdx + 1)
    ensures updatedRows[position.rowIdx]
      == Some(onPaste(copied.row, copied.columnKey, view.rawRows[RawRowIdx(view, position.rowIdx)], view.columns[position.idx].key))
    ensures forall j :: 0 <= j < |updatedRows| && j != position.rowIdx ==>
      updatedRows[j] == if j < |view.rawRows| then Some(view.rawRows[j]) else None
  {
    var targetRow := view.rawRows[RawRowIdx(view, position.rowIdx)];
    var updatedTargetRow := onPaste(copied.row, copied.columnKey, targetRow, view.columns[position.idx].key);
    var grown := seq(Max(|view.rawRows|, position.rowIdx + 1), j requires 0 <= j => if j < |view.rawRows| then Some(view.rawRows[j]) else None);
    grown[position.rowIdx := Some(updatedTargetRow)]
  }

  /**
   * With grouping on, the displayed index is not the application's index:
   * pasting into row 1 of the display (the first row of the only group),
   * which is the application's row 0, overwrites the application's row 1
   * and leaves row 0 as it was.
   */
  lemma PasteAsWrittenHitsWrongRow()
    ensures var g := GroupRow("a", None, "a", true, [1, 2], 0, 0, 0, 1);
      var view := GridView([ColumnUtils.CalculatedColumn("c", 0, 100, 0, None, None, false, false, false, false, false, true)],
                           [1, 2], [Group(g), Leaf(1), Leaf(2)], {g}, true, 0, 35);
      var result := PasteAsWritten(view, Cell(0, 1), CopiedCell(7, "c"), (s: int, sk: string, t: int, tk: string) => s);
      RawRowIdx(view, 1) == 0 && result == [Some(1), Some(7)]
  {
    var g := GroupRow("a", None, "a", true, [1, 2], 0, 0, 0, 1);
    var view := GridView([ColumnUtils.CalculatedColumn("c", 0, 100, 0, None, None, false, false, false, false, false, true)],
                         [1, 2], [Group(g), Leaf(1), Leaf(2)], {g}, true, 0, 35);
    assert view.rows[1] == Leaf(1);
    assert IndexOf(view.rawRows, 1) == 0;
  }

  /**
   * Pasting into the last displayed row of the same view, the application's
   * row 1, writes one past the end: the array grows to three rows and both
   * application rows keep their old values.
   */
  lemma PasteAsWrittenGrowsRows()
    ensures var g := GroupRow("a", None, "a", true, [1, 2], 0, 0, 0, 1);
      var view := GridView([ColumnUtils.CalculatedColumn("c", 0, 100, 0, None, None, false, false, false, false, false, true)],
                           [1, 2], [Group(g), Leaf(1), Leaf(2)], {g}, true, 0, 35);
      var result := PasteAsWritten(view, Cell(0, 2), CopiedCell(7, "c"), (s: int, sk: string, t: int, tk: string) => s);
      RawRowIdx(view, 2) == 1 && result == [Some(1), Some(2), Some(7)]
  {
    var g := GroupRow("a", None, "a", true, [1, 2], 0, 0, 0, 1);
    var view := GridView([ColumnUtils.CalculatedColumn("c", 0, 100, 0, None, None, false, false, false, false, false, true)],
                         [1, 2], [Group(g), Leaf(1), Leaf(2)], {g}, true, 0, 35);
    assert view.rows[2] == Leaf(2);
    assert IndexOf(view.rawRows, 2) == 1;
  }

  /**
   * Paste with the write at the application's index of the target row: the
   * row the callback was given is the row replaced, and no other row changes.
   */
  function Paste<R(==)>(view: GridView<R>, position: Cell, copied: CopiedCell<R>, onPaste: PasteCallback<R>): (updatedRows: seq<R>)
    requires 0 <= position.idx < |view.columns| && 0 <= RawRowIdx(view, position.rowIdx) < |view.rawRows|
    ensures var i := RawRowIdx(view, position.rowIdx);
      && |updatedRows| == |view.rawRows|
      && updatedRows[i] == onPaste(copied.row, copied.columnKey, view.rawRows[i], view.columns[position.idx].key)
      && forall j :: 0 <= j < |view.rawRows| && j != i ==> updatedRows[j] == view.rawRows[j]
  {
    var i := RawRowIdx(view, position.rowIdx);
    var updatedTargetRow := onPaste(copied.row, copied.columnKey, view.rawRows[i], view.columns[position.idx].key);
    WriteAt(view.rawRows, i, updatedTargetRow)
  }

  /** Without grouping the two agree: the displayed index is the application's index. */
  lemma PasteAgreesWithoutGroups<R>(view: GridView<R>, position: Cell, copied: CopiedCell<R>, onPaste: PasteCallback<R>)
    requires !view.hasGroups
    requires 0 <= position.idx < |view.columns| && 0 <= RawRowIdx(view, position.rowIdx) < |view.rawRows|
    ensures var written := PasteAsWritten(view, position, copied, onPaste);
      var pasted := Paste(view, position, copied, onPaste);
      |written| == |pasted| && forall j :: 0 <= j < |pasted| ==> written[j] == Some(pasted[j])
  {
  }
}
