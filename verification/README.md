# react-data-grid: a verified model of the grid's layout, virtualisation and selection logic

This project models, in Dafny, the logic at the centre of the react-data-grid
component:

- **Column layout** (`ColumnUtils`, `ColumnOrder`). Each column gets a width,
  taken from a resized width, a pixel width, a percentage of the viewport or
  an equal share of what is left, and clamped to its minimum and maximum.
  The columns are then ordered: the select column, the group-by columns,
  the frozen columns, then the rest, by a stable sort. They get their
  display index and left offset. The totals are summed and the last frozen
  column is marked. The module also gives the scroll delta that brings a
  column into view.
- **Column window** (`ViewportColumns`). The default column options are
  resolved. Two scans find the first and last partly visible unfrozen
  column. The overscan range widens them by one column on each side, and
  the rendered columns are the frozen ones plus that range.
- **Row grouping and row window** (`ViewportRows`). The rows are grouped
  recursively by the group-by keys using the application's grouper. Each
  group carries its start row index, and the tree's size is the count of
  group rows plus leaf rows. The tree is flattened depth first, showing the
  children of expanded groups only. The overscanned row range is snapped to
  batches of 8.
- **Selection and editing** (`DataGrid`). The `Grid` class holds the
  selected position (in SELECT or EDIT mode), the shift-click anchor, the
  copied cell and the fill-drag target. The module covers:
  - bounds checks and keyboard navigation, including the move to a parent
    group row;
  - toggling groups;
  - entering, committing and discarding edits;
  - the render-time reset;
  - row selection, including shift-click ranges;
  - fill by drag and by double click;
  - paste.
- **Keys and the select-all checkbox** (`KeyboardUtils`, `HeaderRow`):
  printable key codes, Ctrl chords, the keys that open an editor, and the
  select-all handler.

Callbacks supplied by the application are function parameters: the row
grouper, the row key getter, the fill and paste callbacks, and the
editability rule. So are values the browser supplies: scroll offsets, the
viewport size and key events. A JavaScript `undefined` becomes `Option.None`.
A thrown usage error becomes a `UsageError` result. Objects compared by
identity in the source (rows, group rows) are compared by value here.

## Model

| member | source | states |
|---|---|---|
| Utils.AssertIsValidKeyGetter | lib/utils/index.js:5-9 | a missing key getter, and only that, gives the usage error with the source's message |
| Utils.IndexOf | lib/DataGrid.js:257-259 | the result is -1 exactly when the element is absent; otherwise it is the index of its first occurrence |
| KeyboardUtils.PrintableRanges | lib/utils/keyboardUtils.js:1-8 | the printable key codes are exactly 48-57, 32, 13, 65-90, 96-111, 186-192 and 219-222 |
| KeyboardUtils.NavigationKeysNotPrintable | lib/utils/keyboardUtils.js:1-8 | arrows, Tab, Escape, Home/End, the page keys, the modifiers and F1-F12 are not printable |
| KeyboardUtils.CtrlChordCases | lib/utils/keyboardUtils.js:9-11 | Ctrl or Meta with any key but Control is a chord; with neither held it is not; a chord is never the Control key itself |
| KeyboardUtils.ControlAloneIsNotChord | lib/utils/keyboardUtils.js:9-11 | pressing Control alone is never a chord |
| KeyboardUtils.CellInputCases | lib/utils/keyboardUtils.js:12-14 | Enter, F2, Backspace and Delete always open the editor; any other key opens it exactly when its code is in the printable ranges |
| KeyboardUtils.ArrowKeysAreNotCellInput | lib/utils/keyboardUtils.js:12-14 | an arrow key never opens the editor |
| ColumnOrder.StableOrderIsStableSort | lib/utils/columnUtils.js:30-55 | the order holds every column index once, sorted by rank, and ties keep input order |
| ColumnOrder.ColumnOrderNoRepeats | lib/utils/columnUtils.js:30-55 | an order sorted by rank and input index repeats no column |
| ColumnOrder.RankBelowIsPrefix | lib/utils/columnUtils.js:30-55 | the columns of rank below r form exactly a prefix of the order, of length their count |
| ColumnUtils.GetSpecifiedWidth | lib/utils/columnUtils.js:94-106 | a resized width wins; then a pixel width; an `N%` width is floor(viewportWidth*N/100); any other text or no width gives no width |
| ColumnUtils.ClampColumnWidth | lib/utils/columnUtils.js:107-113 | the result is at least the minimum (the column's own, else the default) and at most a numeric maximum; the maximum wins when they conflict; a width already in range is kept, a width below the minimum becomes the minimum and a width above the maximum becomes the maximum |
| ColumnUtils.Sized | lib/utils/columnUtils.js:11-29 | a group-by column is a row-group column and is forced frozen; other columns keep their frozen flag |
| ColumnUtils.SizedColumns | lib/utils/columnUtils.js:11-29 | the first pass maps every input column, in input order |
| ColumnUtils.EqualShare | lib/utils/columnUtils.js:56-57 | the equal share is never below the minimum column width, and is that minimum when no column is unassigned |
| ColumnUtils.EqualShareIsFloor | lib/utils/columnUtils.js:56-57 | with unassigned columns, the share is the floor of the leftover width over their count, raised to the minimum |
| ColumnUtils.Rank | lib/utils/columnUtils.js:30-55 | rank 0 for the select column, 1..n for group-by keys in group-by order, n+1 for other frozen columns, n+2 for the rest |
| ColumnUtils.CompareAgreesWithRank | lib/utils/columnUtils.js:30-55 | the comparator's sign is the comparison of the two ranks |
| ColumnUtils.DisplayOrder | lib/utils/columnUtils.js:30-55 | the display order is a permutation of the input indices sorted by rank, ties in input order |
| ColumnUtils.SizeColumns | lib/utils/columnUtils.js:11-29 | the first pass yields the sized columns, the unassigned count, the sum of assigned widths, and the frozen count minus one |
| ColumnUtils.LayOutColumns | lib/utils/columnUtils.js:59-80 | column k gets idx k, its resolved width and `left` equal to the sum of the earlier widths; the total is the sum of all widths; groupBy lists the row-group keys in display order |
| ColumnUtils.MarkLastFrozen | lib/utils/columnUtils.js:81-85 | only the column at lastFrozenColumnIndex is marked; the frozen width is its right edge, or 0 when there is no frozen column |
| ColumnUtils.BuildMetrics | lib/utils/columnUtils.js:56-92 | the layout of the sorted columns with offsets, totals, the marked last frozen column and the group-by keys |
| ColumnUtils.GetColumnMetrics | lib/utils/columnUtils.js:3-93 | the whole layout: idx is the position; left is a prefix sum; the total is the sum of widths; each column is laid out from the display order; exactly the last frozen column is marked; the frozen width is its right edge; groupBy is the row-group keys |
| ColumnUtils.DisplayColumnsSortedByRank | lib/utils/columnUtils.js:30-55 | the displayed columns are the sized columns in display order, with non-decreasing rank |
| ColumnUtils.SelectColumnFirst | lib/utils/columnUtils.js:31-35 | nothing comes before the select column except select columns |
| ColumnUtils.GroupColumnsFollowGroupBy | lib/utils/columnUtils.js:36-44 | before a group-by column come only select columns and group-by columns earlier in the group-by list |
| ColumnUtils.FrozenColumnsFirst | lib/utils/columnUtils.js:25-27 | the frozen columns (group-by ones included) are exactly the first lastFrozenColumnIndex+1 displayed columns |
| ColumnUtils.FrozenPrefixWidth | lib/utils/columnUtils.js:81-85 | with frozen columns first, their summed width is the right edge of the last frozen column |
| ColumnUtils.GetColumnScrollPosition | lib/utils/columnUtils.js:114-140 | negative by exactly the overshoot when the column's left edge minus the frozen width is left of the scroll position; else positive by the overshoot past the right side; else 0; 0 for an index outside the columns |
| ViewportColumns.ColumnMetricsInput | lib/hooks/useViewportColumns.js:6-20 | defaults: minimum width 80, not sortable, not resizable; group-by keys are ignored without a row grouper |
| ViewportColumns.ScanStart | lib/hooks/useViewportColumns.js:34-43 | the scan stays between its start and the last column |
| ViewportColumns.ScanStartIsFirst | lib/hooks/useViewportColumns.js:34-43 | the visible start is the first column whose right edge passes the viewport's left side, or the last column |
| ViewportColumns.ScanEnd | lib/hooks/useViewportColumns.js:45-54 | the scan stays between its start and the last column |
| ViewportColumns.ScanEndIsFirst | lib/hooks/useViewportColumns.js:45-54 | the visible end is the first column reaching the viewport's right side, or the last column |
| ViewportColumns.ColOverscanRange | lib/hooks/useViewportColumns.js:22-58 | the two scanning loops compute the range the overscan function defines |
| ViewportColumns.ColOverscanBounds | lib/hooks/useViewportColumns.js:22-58 | first unfrozen <= start <= end <= last column; with no room for unfrozen columns both are the first unfrozen one; otherwise at most one column beyond the visible range on each side |
| ViewportColumns.VisibleColumnsInRange | lib/hooks/useViewportColumns.js:22-58 | every unfrozen column that overlaps the unfrozen part of the viewport lies inside the overscan range |
| ViewportColumns.RenderedIndices | lib/hooks/useViewportColumns.js:59-68 | ascending indices up to the overscan end, being exactly the frozen columns and those from the overscan start |
| ViewportColumns.GetViewportColumns | lib/hooks/useViewportColumns.js:59-68 | the rendered columns are the columns at those indices, in that order |
| ViewportRows.GroupRows | lib/hooks/useViewportRows.js:7-19 | the groups are the grouping tree of the rows; the count is the number of group rows plus leaf rows |
| ViewportRows.GroupEntriesFollowEntries | lib/hooks/useViewportRows.js:10-17 | one group per grouper entry, in entry order, with its key and rows; at the last level its children are its rows |
| ViewportRows.GroupEntriesOffsets | lib/hooks/useViewportRows.js:14-16 | each group starts after its earlier siblings' subtrees; its children start one row later |
| ViewportRows.GroupChildrenOffsets | lib/hooks/useViewportRows.js:12-16 | nested groups start at the offset passed down |
| ViewportRows.OffsetsAt | lib/hooks/useViewportRows.js:14-16 | group k starts at the parent offset plus the sizes of groups 0..k-1 |
| ViewportRows.LeafRows | lib/hooks/useViewportRows.js:24-25 | without grouping the displayed rows are the raw rows, unchanged |
| ViewportRows.ExpandGroup | lib/hooks/useViewportRows.js:27-31 | appends the flattening of a group's children (its leaf rows, or its groups) and adds exactly the group rows appended |
| ViewportRows.ExpandNodes | lib/hooks/useViewportRows.js:32-54 | appends the flattening of the sibling groups in key order and adds exactly the group rows appended |
| ViewportRows.ExpandNode | lib/hooks/useViewportRows.js:33-53 | appends the group row, then its descendants only when expanded, and adds exactly the group rows appended |
| ViewportRows.GroupedRows | lib/hooks/useViewportRows.js:4-21 | no grouping exactly when group-by is empty or there is no grouper, and then the count is the raw row count; otherwise the tree and its size |
| ViewportRows.FlattenRows | lib/hooks/useViewportRows.js:22-58 | raw rows and no group rows without grouping; otherwise the depth-first flattening from level 0; the group-row set is exactly the group rows displayed |
| ViewportRows.IsGroupRowExactly | lib/hooks/useViewportRows.js:59 | a row is a group row exactly when it was emitted as one; with no group rows none is |
| ViewportRows.CollapsedFlattening | lib/hooks/useViewportRows.js:51-56 | with nothing expanded the rows are exactly the top-level group rows in key order, with position, set size and start index |
| ViewportRows.FlattenChildrenNested | lib/hooks/useViewportRows.js:27-55 | every displayed group row has the right id, expansion flag and position; rows below level 0 come after their expanded parent's row |
| ViewportRows.FlattenNodesNested | lib/hooks/useViewportRows.js:32-54 | the same for a run of sibling groups |
| ViewportRows.NodeRowsNested | lib/hooks/useViewportRows.js:35-53 | the same for one group and its descendants |
| ViewportRows.RowVisibleStartIdx | lib/hooks/useViewportRows.js:61 | the first visible row is the row containing scrollTop |
| ViewportRows.RowVisibleEndIdx | lib/hooks/useViewportRows.js:62 | the last visible row is the row containing the bottom edge, or the last row when the bottom edge is at or below the last row's top |
| ViewportRows.CeilDiv | lib/hooks/useViewportRows.js:64 | the result is the ceiling of the quotient |
| ViewportRows.RowOverscanStartIdx | lib/hooks/useViewportRows.js:60-63 | a non-negative multiple of 8, no later than the visible start and within one batch before it less the threshold |
| ViewportRows.RowOverscanEndIdx | lib/hooks/useViewportRows.js:64 | the first multiple of 8 at or after the visible end plus the threshold (lying within one batch of it), or the last row when that row comes first, with no multiple of 8 between the visible end plus the threshold and the last row; never before the visible end |
| ViewportRows.RowWindowCoversVisibleRows | lib/hooks/useViewportRows.js:60-64 | 0 <= overscan start <= visible start <= visible end <= overscan end < row count |
| DataGrid.WholeRowNeedsGroups | lib/DataGrid.js:82-83 | column -1 is in bounds exactly when grouping is on; the sentinel never is |
| DataGrid.RawRowIdx | lib/DataGrid.js:257-259 | the displayed index without grouping; otherwise -1 or the index of the raw row displayed there |
| DataGrid.CommitEditorChanges | lib/DataGrid.js:260-270 | rows are handed back only in EDIT mode, on a column with an editor, with a changed row; the edited row replaces the raw row and nothing else changes |
| DataGrid.Grid.constructor | lib/DataGrid.js:43-53 | no selection, no anchor, no copied cell, no drag target |
| DataGrid.Grid.SelectCell | lib/DataGrid.js:405-417 | out of bounds is ignored; otherwise a pending edit is committed, then the cell is selected in EDIT with row == originalRow when asked and editable, else SELECT; keeps the state consistent |
| DataGrid.Grid.CloseEditor | lib/DataGrid.js:423-427 | same cell, SELECT mode, nothing else changes |
| DataGrid.Grid.DeselectCell | lib/DataGrid.js:418-422 | the sentinel position, no copied cell, no drag target |
| DataGrid.Grid.Reconcile | lib/DataGrid.js:597-605 | a position past the columns or rows becomes the sentinel with no drag target; an edit whose row changed becomes SELECT; afterwards the state is consistent with the view |
| DataGrid.Grid.GetNextPosition | lib/DataGrid.js:453-506 | ArrowLeft on a collapsed nested group row goes to the nearest earlier row of its parent group, and falls back to the key's move only when there is none; any other key gives the key's move |
| DataGrid.FindParentRowIdx | lib/DataGrid.js:463-473 | the nearest row above that is the parent group's row, or -1 when no row above is |
| DataGrid.KeyMoveSteps | lib/DataGrid.js:476-502 | arrows change one coordinate by 1; Tab moves one column (Shift back); from no selection Tab enters at the first cell and Shift+Tab at the last; page keys move by whole rows fitting the body |
| DataGrid.HomeEndMoves | lib/DataGrid.js:489-498 | on a whole-row selection Home/End go to the first/last row; otherwise to the first/last column, and with Ctrl also to the first/last row |
| DataGrid.OppositeKeysCancel | lib/DataGrid.js:476-502 | Down then Up, Right then Left, PageDown then PageUp, and Tab then Shift+Tab return to the start |
| DataGrid.ParentRowAlwaysFound | lib/DataGrid.js:458-474 | in rows laid out by the flattening, a nested group row always has its parent's row above it |
| DataGrid.GroupToggleOnKey | lib/DataGrid.js:215-226 | a toggle only on a whole-row selection of a group row, for that row's id, and never where ArrowLeft would move to the parent |
| DataGrid.KeyToggleFlipsExpansion | lib/DataGrid.js:215-226 | ArrowRight on a collapsed group expands it; ArrowLeft on an expanded one collapses it |
| DataGrid.Toggled | lib/DataGrid.js:149-158 | the id's membership flips; every other id keeps its membership |
| DataGrid.ToggledTwice | lib/DataGrid.js:149-158 | toggling twice restores the set |
| DataGrid.ToggleGroup | lib/DataGrid.js:146-160 | nothing without a callback; otherwise the expanded ids (none when absent) with the id flipped and the others kept |
| DataGrid.Grid.HandleRowSelectionChange | lib/DataGrid.js:100-140 | no callback: nothing; no key getter: usage error; a group row adds or removes all its rows' keys; checking a row adds its key and, on a shift click from another anchor, the keys of the rows strictly between, and makes it the anchor; unchecking removes its key and clears the anchor |
| DataGrid.UpdateChildKeys | lib/DataGrid.js:107-116 | the selection plus (checked) or minus (unchecked) the keys of the group's rows |
| DataGrid.AddRangeKeys | lib/DataGrid.js:124-131 | adds the keys of the non-group rows strictly between the anchor and the clicked row, in either direction |
| DataGrid.Grid.GetDraggedOverCellIdx | lib/DataGrid.js:538-546 | a dragged-over cell is always in the selected column |
| DataGrid.DraggedOverIsFillRange | lib/DataGrid.js:538-546 | the rows shown as dragged over are exactly the rows a drag end fills, and never the selected row |
| DataGrid.FillRange | lib/DataGrid.js:331-332 | dragging down fills from the row below the selection through the target; dragging up fills from the target to just above the selection |
| DataGrid.WriteBack | lib/DataGrid.js:335-338 | the copy has the filled rows in the range and the old rows elsewhere |
| DataGrid.FillTouchesOnlyRange | lib/DataGrid.js:335-338 | a fill changes no row outside its range and puts the callback's rows, in order, inside it |
| DataGrid.Grid.HandleDragEnd | lib/DataGrid.js:324-340 | without a drag target, fill callback or rows callback nothing happens; otherwise the fill range is replaced by the callback's rows and the drag target is dropped |
| DataGrid.Grid.HandleDoubleClick | lib/DataGrid.js:362-375 | without callbacks nothing; otherwise every row after the selected one is replaced by the callback's rows |
| DataGrid.PasteAsWritten | lib/DataGrid.js:275-293 | the paste as written: the callback is given the row at the raw index, and its result is written at the displayed index as a JavaScript array write, growing the rows to one past that index with empty slots in between; every other slot keeps its row |
| DataGrid.PasteAsWrittenHitsWrongRow | lib/DataGrid.js:275-293 | with grouping on, pasting into the first row of a group overwrites another raw row and leaves the target unchanged |
| DataGrid.PasteAsWrittenGrowsRows | lib/DataGrid.js:275-293 | with grouping on, pasting into the last displayed row writes past the end of the raw rows: they grow by one and the target is unchanged |
| DataGrid.Paste | lib/DataGrid.js:275-293 | the corrected paste: the target raw row is replaced by the callback's row and no other row changes |
| DataGrid.PasteAgreesWithoutGroups | lib/DataGrid.js:275-293 | without grouping the paste as written and the corrected paste agree slot for slot, with no growth |
| HeaderRow.HandleAllRowsSelectionChange | lib/HeaderRow.js:5-16 | no callback: nothing; no key getter: usage error; checked gives the keys of all rows, unchecked gives none, whatever was selected before |
| HeaderRow.SelectAllShowsChecked | lib/DataGrid.js:613 | with distinct keys, selecting all shows the checkbox checked, and clearing shows it unchecked unless there are no rows |

## Left out

- React plumbing is not modelled: hooks, refs, memoisation, JSX, focus handling and the effects that scroll a cell into view. The DOM side of `scrollToCell` and the window mouse listeners are left out too. Each memoised computation is a plain function or method over its inputs.
- The event bus is left out: a dispatched `ToggleGroup` or `SelectRow` event is a direct call to `ToggleGroup` or `Grid.HandleRowSelectionChange`.
- Callbacks whose effect is to notify the application are represented by their argument: the new rows, the new selection, or the new expanded ids (`onRowsChange`, `onSelectedRowsChange`, `onExpandedGroupIdsChange`, `onSelectedCellChange`). `CommitEditorChanges` returns its rows even when `onRowsChange` is absent, because the source then does nothing with them.
- `navigate`'s clamping and grid-exit rules are not modelled. They live in `getNextSelectedCellPosition` and `canExitGrid` in lib/utils/selectedCellUtils.js, which is not part of this model. For the same reason, the application's editability rule is a function parameter.
- `onEditorNavigation`, copy (`handleCopy`), typing into a cell (`handleCellInput`) and the editor's row changes (`handleRowChange`) are not modelled; they are outside the core named here.
- Formatters, group formatters and the default formatter are rendering only and are left out of the column records.
- `SELECT_COLUMN_KEY` is taken to be `"select-row"`: lib/Columns.js is not part of this model.
- Scroll offsets and sizes are integers. The browser's fractional scroll positions are not modelled.
- `rowHeight > 0` is assumed where the source divides by it. With a zero height, JavaScript yields `Infinity`/`NaN`, and the model gives page moves of 0 instead.
- DataGrid.Grid.HandleDragEnd: requires the fill callback to return one row per target row. It does not model the writes of `undefined` the source makes when the callback returns fewer rows.
- DataGrid.Grid.HandleDoubleClick: requires the fill callback to return one row per target row, for the same reason.
- DataGrid.Grid.HandleDragEnd: requires the selected row and the drag target to be rows of the grid. Both come from rendered cells, and drag is disabled with grouping, so displayed and raw rows coincide.
- DataGrid.Grid.HandleRowSelectionChange: requires the clicked row to exist. A stale anchor pointing past the last row skips the missing rows, where the source would call the key getter with `undefined`.
- DataGrid.Grid.SelectCell: the `onSelectedCellChange` notification is not modelled.
- DataGrid.PasteAsWritten and DataGrid.Paste model only the write-back. The guards before it (a paste callback, a rows callback, a copied cell, an editable cell) are preconditions of the key handler and are not modelled.
- Group rows and rows are compared by value; the source compares them by identity (`Set.has`, `indexOf`, `!==`). Two equal raw rows are therefore indistinguishable: `RawRowIdx` finds the first.
- Object key order: the grouper's result is a sequence of entries in `Object.entries` order. The rebuilt `groups` object enumerates its keys in that same order, which the model takes as given.

## Findings

| source | as written | input that shows it | evidently intended | confidence | as-written member | corrected member |
|---|---|---|---|---|---|---|
| lib/DataGrid.js:290-291 | paste reads the target row at `getRawRowIdx(rowIdx)` but writes the result at `updatedRows[rowIdx]`, the displayed index | grouping on; raw rows `[1, 2]` displayed as `[group, 1, 2]` with the group expanded; paste into displayed row 1: raw row 1 is overwritten and raw row 0, the target, is unchanged; pasting into displayed row 2 instead appends a third row and leaves raw row 1, the target, unchanged (a deeper index leaves `undefined` holes) | write at `getRawRowIdx(rowIdx)`, as `commitEditorChanges` does | high (not executed) | DataGrid.PasteAsWritten, DataGrid.PasteAsWrittenHitsWrongRow, DataGrid.PasteAsWrittenGrowsRows | DataGrid.Paste |
