/**
 * The header row's select-all checkbox: checking it selects the key of
 * every row of the application, unchecking it clears the selection.
 */
module HeaderRow {
  import opened Utils

  /**
   * The select-all handler. Without a selection callback it does nothing;
   * without a key getter it is a usage error; otherwise the new selection is
   * the keys of all rows when checked and empty when unchecked, whatever
   * was selected before.
   */
  method HandleAllRowsSelectionChange<R, K(==)>(rows: seq<R>, rowKeyGetter: Option<R -> K>,
                                                hasSelectionCallback: bool, checked: bool)
    returns (change: SelectionChange<K>)
    ensures !hasSelectionCallback ==> change == NoCallback
    ensures hasSelectionCallback && rowKeyGetter.None? ==> change == UsageError(KEY_GETTER_ERROR)
    ensures hasSelectionCallback && rowKeyGetter.Some? ==>
      change == Selected(if checked then KeysOf(rows, rowKeyGetter.value) else {})
  {
    if !hasSelectionCallback {
      return NoCallback;
    }
    var error := AssertIsValidKeyGetter(rowKeyGetter);
    if error.Some? {
      return UsageError(error.value);
    }
    var getKey := rowKeyGetter.value;
    var newSelectedRows: set<K> := {};
    if checked {
      for i := 0 to |rows|
        invariant newSelectedRows == KeysOf(rows[..i], getKey)
      {
        KeysOfAppend(rows, i, getKey);
        newSelectedRows := newSelectedRows + {getKey(rows[i])};
      }
      assert rows[..|rows|] == rows;
    }
    change := Selected(newSelectedRows);
  }

  /** The checkbox shows checked when as many keys are selected as there are rows. */
  predicate AllRowsSelected<K>(selectedRows: Option<set<K>>, rowsCount: nat)
  {
    selectedRows.Some? && |selectedRows.value| == rowsCount
  }

  /**
   * When every row has its own key, checking select-all leaves the checkbox
   * checked, and unchecking it leaves it unchecked unless there are no rows.
   */
  lemma SelectAllShowsChecked<R, K>(rows: seq<R>, getKey: R -> K)
    requires forall i, j :: 0 <= i < j < |rows| ==> getKey(rows[i]) != getKey(rows[j])
    ensures AllRowsSelected(Some(KeysOf(rows, getKey)), |rows|)
    ensures AllRowsSelected(Some(KeysOf([], getKey)), |rows|) <==> rows == []
  {
    KeysOfDistinct(rows, getKey);
  }
}
