/**
 * The vertical side of the grid: grouping rows into a tree by successive
 * group-by keys, flattening the tree into the displayed rows (a group's
 * children appear only when the group is expanded), and the window of rows
 * to render, snapped to batches of 8.
 */
module ViewportRows {
  import opened Utils

  // ---------------------------------------------------------------------
  // Grouping
  // ---------------------------------------------------------------------

  /** One group the row grouper returns: its key and its rows. */
  datatype Entry<R> = Entry(key: string, rows: seq<R>)

  /**
   * A group in the tree: its key, all its rows, its children (the rows
   * themselves at the last level, sub-groups otherwise), and its row index
   * in the fully expanded flattening.
   */
  datatype GroupNode<R> = GroupNode(key: string, childRows: seq<R>, childGroups: Children<R>, startRowIndex: int)

  datatype Children<R> = Leaves(rows: seq<R>) | Groups(nodes: seq<GroupNode<R>>)

  /**
   * The application's row grouper: the groups of `rows` by the column `key`,
   * in the order its result object lists them (its keys are distinct).
   */
  type Grouper<!R> = (seq<R>, string) -> seq<Entry<R>>

  /** The groups the grouper makes of `rows` by the column `key`. */
  function GroupsOf<R>(grouper: Grouper<R>, rows: seq<R>, key: string): seq<Entry<R>>
  {
    grouper(rows, key)
  }

  /** Rows a group takes when fully expanded: itself plus its children. */
  function NodeSize<R>(node: GroupNode<R>): nat
    decreases node, 1
  {
    1 + match node.childGroups
      case Leaves(rows) => |rows|
      case Groups(nodes) => TreeSize(nodes)
  }

  /** Rows a list of sibling groups takes when fully expanded. */
  function TreeSize<R>(nodes: seq<GroupNode<R>>): nat
    decreases nodes, 0
  {
    if nodes == [] then 0 else TreeSize(nodes[..|nodes| - 1]) + NodeSize(nodes[|nodes| - 1])
  }

  /**
   * Each group starts at `startRowIndex` plus the sizes of its earlier
   * siblings, and its sub-groups start one row after it.
   */
  predicate Offsets<R>(nodes: seq<GroupNode<R>>, startRowIndex: int)
    decreases nodes, 1
  {
    nodes == [] ||
      var before := nodes[..|nodes| - 1];
      Offsets(before, startRowIndex) && NodeOffsets(nodes[|nodes| - 1], startRowIndex + TreeSize(before))
  }

  /** The group starts at `startRowIndex` and its sub-groups one row after it. */
  predicate NodeOffsets<R>(node: GroupNode<R>, startRowIndex: int)
    decreases node, 0
  {
    && node.startRowIndex == startRowIndex
    && (node.childGroups.Groups? ==> Offsets(node.childGroups.nodes, startRowIndex + 1))
  }

  /**
   * The groups built from the first `n` entries of one level, `rest` being
   * the group-by keys still to apply below it. Each group starts at
   * `startRowIndex` plus the fully expanded size of the groups before it.
   */
  function GroupEntries<R>(grouper: Grouper<R>, entries: seq<Entry<R>>, rest: seq<string>, startRowIndex: int, n: nat)
    : seq<GroupNode<R>>
    requires n <= |entries|
    decreases |rest|, 1, n
  {
    if n == 0 then []
    else
      var before := GroupEntries(grouper, entries, rest, startRowIndex, n - 1);
      var start := startRowIndex + TreeSize(before);
      var entry := entries[n - 1];
      before + [GroupNode(entry.key, entry.rows, GroupChildren(grouper, entry.rows, rest, start + 1), start)]
  }

  /**
   * The children of a group whose rows are `rows`: the rows themselves at the
   * last level, else their groups by the next key.
   */
  function GroupChildren<R>(grouper: Grouper<R>, rows: seq<R>, rest: seq<string>, startRowIndex: int): Children<R>
    decreases |rest|, 0, 0
  {
    if rest == [] then Leaves(rows)
    else
      var entries := GroupsOf(grouper, rows, rest[0]);
      Groups(GroupEntries(grouper, entries, rest[1..], startRowIndex, |entries|))
  }

  /** The group tree of `rows` under the group-by keys `groupBy`. */
  function GroupTree<R>(grouper: Grouper<R>, rows: seq<R>, groupBy: seq<string>, startRowIndex: int): seq<GroupNode<R>>
    requires |groupBy| > 0
  {
    var entries := GroupsOf(grouper, rows, groupBy[0]);
    GroupEntries(grouper, entries, groupBy[1..], startRowIndex, |entries|)
  }

  /**
   * Group the rows level by level: a loop over the groups of one level,
   * recursing into each group. The count returned is the size of the tree,
   * i.e. every group plus every row at the last level.
   */
  method GroupRows<R>(grouper: Grouper<R>, rows: seq<R>, groupBy: seq<string>, startRowIndex: int)
    returns (groups: seq<GroupNode<R>>, groupRowsCount: int)
    requires |groupBy| > 0
    ensures groups == GroupTree(grouper, rows, groupBy, startRowIndex)
    ensures groupRowsCount == TreeSize(groups)
    decreases |groupBy|
  {
    var groupByKey := groupBy[0];
    var remainingGroupByKeys := groupBy[1..];
    var entries := GroupsOf(grouper, rows, groupByKey);
    groupRowsCount := 0;
    groups := [];
    for i := 0 to |entries|
      invariant groups == GroupEntries(grouper, entries, remainingGroupByKeys, startRowIndex, i)
      invariant groupRowsCount == TreeSize(groups)
    {
      var key := entries[i].key;
      var childRows := entries[i].rows;
      var childGroups: Children<R>;
      var childRowsCount: int;
      if |remainingGroupByKeys| == 0 {
        childGroups, childRowsCount := Leaves(childRows), |childRows|;
      } else {
        var subGroups, subCount := GroupRows(grouper, childRows, remainingGroupByKeys, startRowIndex + groupRowsCount + 1);
        childGroups, childRowsCount := Groups(subGroups), subCount;
      }
      var node := GroupNode(key, childRows, childGroups, startRowIndex + groupRowsCount);
      assert (groups + [node])[..|groups|] == groups;
      assert NodeSize(node) == childRowsCount + 1;
      groups := groups + [node];
      groupRowsCount := groupRowsCount + childRowsCount + 1;
    }
  }

  /** One group per entry, in the grouper's order, with the entry's key and rows; the rows are the children at the last level. */
  lemma {:induction false} GroupEntriesFollowEntries<R>(
    grouper: Grouper<R>, entries: seq<Entry<R>>, rest: seq<string>, startRowIndex: int, n: nat)
    requires n <= |entries|
    ensures var nodes := GroupEntries(grouper, entries, rest, startRowIndex, n);
      && |nodes| == n
      && (forall k :: 0 <= k < n ==> nodes[k].key == entries[k].key && nodes[k].childRows == entries[k].rows)
      && (rest == [] ==> forall k :: 0 <= k < n ==> nodes[k].childGroups == Leaves(entries[k].rows))
  {
    if n > 0 {
      GroupEntriesFollowEntries(grouper, entries, rest, startRowIndex, n - 1);
    }
  }

  /**
   * Every group's `startRowIndex` is the offset given plus the sizes of its
   * earlier siblings, its sub-groups starting one row after it.
   */
  lemma {:induction false} GroupEntriesOffsets<R>(
    grouper: Grouper<R>, entries: seq<Entry<R>>, rest: seq<string>, startRowIndex: int, n: nat)
    requires n <= |entries|
    ensures Offsets(GroupEntries(grouper, entries, rest, startRowIndex, n), startRowIndex)
    decreases |rest|, 1, n
  {
    if n > 0 {
      var nodes := GroupEntries(grouper, entries, rest, startRowIndex, n);
      var before := GroupEntries(grouper, entries, rest, startRowIndex, n - 1);
      GroupEntriesOffsets(grouper, entries, rest, startRowIndex, n - 1);
      var start := startRowIndex + TreeSize(before);
      GroupChildrenOffsets(grouper, entries[n - 1].rows, rest, start + 1);
      var node := GroupNode(entries[n - 1].key, entries[n - 1].rows, GroupChildren(grouper, entries[n - 1].rows, rest, start + 1), start);
      assert NodeOffsets(node, start);
      assert nodes == before + [node];
      assert nodes[..|nodes| - 1] == before;
    }
  }

  lemma {:induction false} GroupChildrenOffsets<R>(grouper: Grouper<R>, rows: seq<R>, rest: seq<string>, startRowIndex: int)
    ensures var children := GroupChildren(grouper, rows, rest, startRowIndex);
      children.Groups? ==> Offsets(children.nodes, startRowIndex)
    decreases |rest|, 0, 0
  {
    if rest != [] {
      var entries := GroupsOf(grouper, rows, rest[0]);
      GroupEntriesOffsets(grouper, entries, rest[1..], startRowIndex, |entries|);
    }
  }

  /**
   * Under consistent offsets, the k-th sibling starts after the fully
   * expanded sizes of the siblings before it.
   */
  lemma {:induction false} OffsetsAt<R>(nodes: seq<GroupNode<R>>, startRowIndex: int)
    requires Offsets(nodes, startRowIndex)
    ensures forall k :: 0 <= k < |nodes| ==> nodes[k].startRowIndex == startRowIndex + TreeSize(nodes[..k])
  {
    if nodes != [] {
      var before := nodes[..|nodes| - 1];
      OffsetsAt(before, startRowIndex);
      forall k | 0 <= k < |nodes|
        ensures nodes[k].startRowIndex == startRowIndex + TreeSize(nodes[..k])
      {
        if k < |before| {
          assert nodes[..k] == before[..k];
        }
      }
    }
  }

  // ---------------------------------------------------------------------
  // Flattening
  // ---------------------------------------------------------------------

  /**
   * A group row as the grid displays it: `id` is the path of group keys,
   * `level` the depth, `posInSet`/`setSize` the index among and the number
   * of its siblings.
   */
  datatype GroupRow<R> = GroupRow(
    id: string, parentId: Option<string>, groupKey: string, isExpanded: bool, childRows: seq<R>,
    level: nat, posInSet: nat, startRowIndex: int, setSize: nat)

  /** A displayed row: one of the application's rows, or a group row. */
  datatype GridRow<R> = Leaf(row: R) | Group(group: GroupRow<R>)

  /** The id of a group: its key, prefixed by its parent's id and `__` below the top level. */
  function GroupId(parentId: Option<string>, groupKey: string): string
  {
    if parentId.Some? then parentId.value + "__" + groupKey else groupKey
  }

  /** A group is expanded when the set of expanded ids is given and holds its id. */
  predicate IsExpanded(expandedGroupIds: Option<set<string>>, id: string)
  {
    expandedGroupIds.Some? && id in expandedGroupIds.value
  }

  /** The application's rows, displayed as they are. */
  function LeafRows<R>(rows: seq<R>): (r: seq<GridRow<R>>)
    ensures |r| == |rows|
    ensures forall i :: 0 <= i < |rows| ==> r[i] == Leaf(rows[i])
  {
    seq(|rows|, i requires 0 <= i < |rows| => Leaf(rows[i]))
  }

  /** The group row of the `k`-th sibling. */
  function MakeGroupRow<R>(nodes: seq<GroupNode<R>>, k: nat, parentId: Option<string>, level: nat,
                           expandedGroupIds: Option<set<string>>): GroupRow<R>
    requires k < |nodes|
  {
    var id := GroupId(parentId, nodes[k].key);
    GroupRow(id, parentId, nodes[k].key, IsExpanded(expandedGroupIds, id), nodes[k].childRows,
             level, k, nodes[k].startRowIndex, |nodes|)
  }

  /** The displayed rows of a group's children: its rows at the last level, else its sub-groups. */
  function FlattenChildren<R>(children: Children<R>, parentId: Option<string>, level: nat,
                              expandedGroupIds: Option<set<string>>): seq<GridRow<R>>
    decreases children, 2, 0
  {
    match children
    case Leaves(rows) => LeafRows(rows)
    case Groups(nodes) => FlattenNodes(nodes, |nodes|, parentId, level, expandedGroupIds)
  }

  /** The displayed rows of the first `n` siblings, depth first. */
  function FlattenNodes<R>(nodes: seq<GroupNode<R>>, n: nat, parentId: Option<string>, level: nat,
                           expandedGroupIds: Option<set<string>>): seq<GridRow<R>>
    requires n <= |nodes|
    decreases nodes, 1, n
  {
    if n == 0 then []
    else FlattenNodes(nodes, n - 1, parentId, level, expandedGroupIds) + NodeRows(nodes, n - 1, parentId, level, expandedGroupIds)
  }

  /** The `k`-th sibling's group row, followed by its children's rows when it is expanded. */
  function NodeRows<R>(nodes: seq<GroupNode<R>>, k: nat, parentId: Option<string>, level: nat,
                       expandedGroupIds: Option<set<string>>): seq<GridRow<R>>
    requires k < |nodes|
    decreases nodes, 0, 0
  {
    var g := MakeGroupRow(nodes, k, parentId, level, expandedGroupIds);
    [Group(g)] + if g.isExpanded then FlattenChildren(nodes[k].childGroups, Some(g.id), level + 1, expandedGroupIds) else []
  }

  /** The group rows among `rows`. */
  function GroupSet<R(==)>(rows: seq<GridRow<R>>): set<GroupRow<R>>
  {
    set i | 0 <= i < |rows| && rows[i].Group? :: rows[i].group
  }

  lemma GroupSetAppend<R>(a: seq<GridRow<R>>, b: seq<GridRow<R>>)
    ensures GroupSet(a + b) == GroupSet(a) + GroupSet(b)
  {
    var ab := a + b;
    forall g | g in GroupSet(ab) ensures g in GroupSet(a) + GroupSet(b) {
      var i :| 0 <= i < |ab| && ab[i].Group? && ab[i].group == g;
      if i < |a| {
        assert ab[i] == a[i];
      } else {
        assert ab[i] == b[i - |a|];
      }
    }
    forall g | g in GroupSet(a) + GroupSet(b) ensures g in GroupSet(ab) {
      if g in GroupSet(a) {
        var i :| 0 <= i < |a| && a[i].Group? && a[i].group == g;
        assert ab[i] == a[i];
      } else {
        var i :| 0 <= i < |b| && b[i].Group? && b[i].group == g;
        assert ab[|a| + i] == b[i];
      }
    }
  }

  /**
   * Push the displayed rows of `children` onto `flattenedRows` and their
   * group rows into `allGroupRows`: the rows themselves at the last level,
   * else each sub-group's row followed, when it is expanded, by its own
   * children.
   */
  method ExpandGroup<R(==)>(children: Children<R>, parentId: Option<string>, level: nat,
                        expandedGroupIds: Option<set<string>>,
                        flattenedRows: seq<GridRow<R>>, allGroupRows: set<GroupRow<R>>)
    returns (flattened: seq<GridRow<R>>, groupRows: set<GroupRow<R>>)
    ensures flattened == flattenedRows + FlattenChildren(children, parentId, level, expandedGroupIds)
    ensures groupRows == allGroupRows + GroupSet(FlattenChildren(children, parentId, level, expandedGroupIds))
    decreases children, 1
  {
    match children
    case Leaves(rows) =>
      flattened := flattenedRows + LeafRows(rows);
      groupRows := allGroupRows;
      assert GroupSet(LeafRows(rows)) == {};
    case Groups(nodes) =>
      flattened, groupRows := ExpandNodes(nodes, parentId, level, expandedGroupIds, flattenedRows, allGroupRows);
  }

  /** The sub-group case of `ExpandGroup`: each sibling in turn. */
  method ExpandNodes<R(==)>(nodes: seq<GroupNode<R>>, parentId: Option<string>, level: nat,
                            expandedGroupIds: Option<set<string>>,
                            flattenedRows: seq<GridRow<R>>, allGroupRows: set<GroupRow<R>>)
    returns (flattened: seq<GridRow<R>>, groupRows: set<GroupRow<R>>)
    ensures flattened == flattenedRows + FlattenNodes(nodes, |nodes|, parentId, level, expandedGroupIds)
    ensures groupRows == allGroupRows + GroupSet(FlattenNodes(nodes, |nodes|, parentId, level, expandedGroupIds))
    decreases nodes, 1
  {
    flattened, groupRows := flattenedRows, allGroupRows;
    for posInSet := 0 to |nodes|
      invariant flattened == flattenedRows + FlattenNodes(nodes, posInSet, parentId, level, expandedGroupIds)
      invariant groupRows == allGroupRows + GroupSet(FlattenNodes(nodes, posInSet, parentId, level, expandedGroupIds))
    {
      ghost var before := FlattenNodes(nodes, posInSet, parentId, level, expandedGroupIds);
      flattened, groupRows := ExpandNode(nodes, posInSet, parentId, level, expandedGroupIds, flattened, groupRows);
      GroupSetAppend(before, NodeRows(nodes, posInSet, parentId, level, expandedGroupIds));
    }
  }

  /**
   * One sibling: push its group row, record it as a group row, and expand
   * its children when its id is among the expanded ones.
   */
  method ExpandNode<R(==)>(nodes: seq<GroupNode<R>>, posInSet: nat, parentId: Option<string>, level: nat,
                           expandedGroupIds: Option<set<string>>,
                           flattenedRows: seq<GridRow<R>>, allGroupRows: set<GroupRow<R>>)
    returns (flattened: seq<GridRow<R>>, groupRows: set<GroupRow<R>>)
    requires posInSet < |nodes|
    ensures flattened == flattenedRows + NodeRows(nodes, posInSet, parentId, level, expandedGroupIds)
    ensures groupRows == allGroupRows + GroupSet(NodeRows(nodes, posInSet, parentId, level, expandedGroupIds))
    decreases nodes, 0
  {
    var groupKey := nodes[posInSet].key;
    var id := GroupId(parentId, groupKey);
    var isExpanded := IsExpanded(expandedGroupIds, id);
    var groupRow := GroupRow(id, parentId, groupKey, isExpanded, nodes[posInSet].childRows,
                             level, posInSet, nodes[posInSet].startRowIndex, |nodes|);
    ghost var rest := if isExpanded then FlattenChildren(nodes[posInSet].childGroups, Some(id), level + 1, expandedGroupIds) else [];
    assert NodeRows(nodes, posInSet, parentId, level, expandedGroupIds) == [Group(groupRow)] + rest;
    GroupSetAppend([Group(groupRow)], rest);
    assert [Group(groupRow)][0] == Group(groupRow);
    assert GroupSet([Group(groupRow)]) == {groupRow};
    flattened := flattenedRows + [Group(groupRow)];
    groupRows := allGroupRows + {groupRow};
    if isExpanded {
      assert nodes[posInSet] in nodes;
      flattened, groupRows := ExpandGroup(nodes[posInSet].childGroups, Some(id), level + 1, expandedGroupIds, flattened, groupRows);
    }
  }

  // ---------------------------------------------------------------------
  // The hook's two memoised results
  // ---------------------------------------------------------------------

  /**
   * The grouped rows and the row count: without group-by keys or a grouper
   * the rows stay ungrouped and the count is theirs; otherwise the count is
   * the size of the fully expanded group tree.
   */
  method GroupedRows<R>(rawRows: seq<R>, groupBy: seq<string>, rowGrouper: Option<Grouper<R>>)
    returns (groupedRows: Option<seq<GroupNode<R>>>, rowsCount: int)
    ensures groupedRows.None? <==> |groupBy| == 0 || rowGrouper.None?
    ensures groupedRows.None? ==> rowsCount == |rawRows|
    ensures groupedRows.Some? ==>
      && rowGrouper.Some? && |groupBy| > 0
      && groupedRows.value == GroupTree(rowGrouper.value, rawRows, groupBy, 0)
      && rowsCount == TreeSize(groupedRows.value)
  {
    if |groupBy| == 0 || rowGrouper.None? {
      return None, |rawRows|;
    }
    var groups, count := GroupRows(rowGrouper.value, rawRows, groupBy, 0);
    groupedRows, rowsCount := Some(groups), count;
  }

  /**
   * The displayed rows and the set of group rows among them: the rows as
   * they are when they are not grouped, else the depth-first flattening of
   * the group tree from the top level.
   */
  method FlattenRows<R(==)>(rawRows: seq<R>, groupedRows: Option<seq<GroupNode<R>>>, expandedGroupIds: Option<set<string>>)
    returns (rows: seq<GridRow<R>>, allGroupRows: set<GroupRow<R>>)
    ensures groupedRows.None? ==> rows == LeafRows(rawRows) && allGroupRows == {}
    ensures groupedRows.Some? ==> rows == FlattenNodes(groupedRows.value, |groupedRows.value|, None, 0, expandedGroupIds)
    ensures allGroupRows == GroupSet(rows)
  {
    if groupedRows.None? {
      rows, allGroupRows := LeafRows(rawRows), {};
      assert GroupSet(rows) == {};
      return;
    }
    rows, allGroupRows := ExpandGroup(Groups(groupedRows.value), None, 0, expandedGroupIds, [], {});
  }

  /** Whether a displayed row is one of the group rows of the flattening. */
  predicate IsGroupRow<R(==)>(allGroupRows: set<GroupRow<R>>, row: GridRow<R>)
  {
    row.Group? && row.group in allGroupRows
  }

  /**
   * Against the set built with the flattening, `IsGroupRow` holds exactly for
   * the group rows the flattening emitted; without grouping it holds for no row.
   */
  lemma IsGroupRowExactly<R>(rows: seq<GridRow<R>>, allGroupRows: set<GroupRow<R>>, row: GridRow<R>)
    requires allGroupRows == GroupSet(rows)
    ensures IsGroupRow(allGroupRows, row) <==> row.Group? && row in rows
    ensures rows == [] || (forall i :: 0 <= i < |rows| ==> rows[i].Leaf?) ==> !IsGroupRow(allGroupRows, row)
  {
    if IsGroupRow(allGroupRows, row) {
      var i :| 0 <= i < |rows| && rows[i].Group? && rows[i].group == row.group;
      assert rows[i] == row;
    }
    if row.Group? && row in rows {
      var i :| 0 <= i < |rows| && rows[i] == row;
      assert row.group in GroupSet(rows);
    }
  }

  /**
   * With no expanded group, the flattening is exactly the top-level group
   * rows in the grouper's order, each collapsed, at level 0, numbered by its
   * position among the `|nodes|` top-level groups.
   */
  lemma {:induction false} CollapsedFlattening<R>(nodes: seq<GroupNode<R>>, n: nat, expandedGroupIds: Option<set<string>>)
    requires n <= |nodes|
    requires expandedGroupIds.None? || expandedGroupIds.value == {}
    ensures var rows := FlattenNodes(nodes, n, None, 0, expandedGroupIds);
      && |rows| == n
      && forall k :: 0 <= k < n ==>
        rows[k] == Group(GroupRow(nodes[k].key, None, nodes[k].key, false, nodes[k].childRows, 0, k, nodes[k].startRowIndex, |nodes|))
  {
    if n > 0 {
      CollapsedFlattening(nodes, n - 1, expandedGroupIds);
      var before := FlattenNodes(nodes, n - 1, None, 0, expandedGroupIds);
      var g := MakeGroupRow(nodes, n - 1, None, 0, expandedGroupIds);
      assert !g.isExpanded;
      assert FlattenNodes(nodes, n, None, 0, expandedGroupIds) == before + [Group(g)];
    }
  }

  // ---------------------------------------------------------------------
  // Nesting of the flattening
  // ---------------------------------------------------------------------

  /** `parent` is the row of `g`'s parent group: expanded, one level up, with `g`'s `parentId` as id. */
  predicate IsParentRow<R>(parent: GridRow<R>, g: GroupRow<R>)
  {
    parent.Group? && parent.group.isExpanded && g.parentId == Some(parent.group.id) && g.level == parent.group.level + 1
  }

  /** A group row's id is its key path, it is expanded exactly when its id is, and it is one of `setSize` siblings. */
  predicate WellFormedGroupRow<R>(g: GroupRow<R>, expandedGroupIds: Option<set<string>>)
  {
    && g.id == GroupId(g.parentId, g.groupKey)
    && g.isExpanded == IsExpanded(expandedGroupIds, g.id)
    && g.posInSet < g.setSize
  }

  /**
   * The rows displayed below `parentId` at depth `level`: every group row is
   * well formed and at least that deep; those at that depth are the
   * siblings whose parent is `parentId`, and every deeper one comes after
   * the row of its parent group, which is expanded.
   */
  predicate Nested<R>(rows: seq<GridRow<R>>, parentId: Option<string>, level: nat, expandedGroupIds: Option<set<string>>)
  {
    forall i :: 0 <= i < |rows| && rows[i].Group? ==>
      && WellFormedGroupRow(rows[i].group, expandedGroupIds)
      && rows[i].group.level >= level
      && (rows[i].group.level == level ==> rows[i].group.parentId == parentId)
      && (rows[i].group.level > level ==> exists j :: 0 <= j < i && IsParentRow(rows[j], rows[i].group))
  }

  lemma NestedAppend<R>(a: seq<GridRow<R>>, b: seq<GridRow<R>>, parentId: Option<string>, level: nat,
                        expandedGroupIds: Option<set<string>>)
    requires Nested(a, parentId, level, expandedGroupIds)
    requires Nested(b, parentId, level, expandedGroupIds)
    ensures Nested(a + b, parentId, level, expandedGroupIds)
  {
    var ab := a + b;
    forall i | 0 <= i < |ab| && ab[i].Group? && ab[i].group.level > level
      ensures exists j :: 0 <= j < i && IsParentRow(ab[j], ab[i].group)
    {
      if i < |a| {
        assert ab[i] == a[i];
        var j :| 0 <= j < i && IsParentRow(a[j], a[i].group);
        assert ab[j] == a[j];
      } else {
        assert ab[i] == b[i - |a|];
        var j :| 0 <= j < i - |a| && IsParentRow(b[j], b[i - |a|].group);
        assert ab[|a| + j] == b[j];
      }
    }
    forall i | 0 <= i < |ab| && ab[i].Group?
      ensures WellFormedGroupRow(ab[i].group, expandedGroupIds) && ab[i].group.level >= level
      ensures ab[i].group.level == level ==> ab[i].group.parentId == parentId
    {
      if i < |a| {
        assert ab[i] == a[i];
      } else {
        assert ab[i] == b[i - |a|];
      }
    }
  }

  /** A group row followed by its children's rows, when expanded, is nested under its own parent. */
  lemma NestedGroup<R>(g: GroupRow<R>, rest: seq<GridRow<R>>, parentId: Option<string>, level: nat,
                       expandedGroupIds: Option<set<string>>)
    requires WellFormedGroupRow(g, expandedGroupIds) && g.level == level && g.parentId == parentId
    requires rest == [] || (g.isExpanded && Nested(rest, Some(g.id), level + 1, expandedGroupIds))
    ensures Nested([Group(g)] + rest, parentId, level, expandedGroupIds)
  {
    var rows := [Group(g)] + rest;
    forall i | 0 < i < |rows| && rows[i].Group?
      ensures WellFormedGroupRow(rows[i].group, expandedGroupIds) && rows[i].group.level > level
      ensures exists j :: 0 <= j < i && IsParentRow(rows[j], rows[i].group)
    {
      assert rows[i] == rest[i - 1];
      if rows[i].group.level == level + 1 {
        assert IsParentRow(rows[0], rows[i].group);
      } else {
        var j :| 0 <= j < i - 1 && IsParentRow(rest[j], rest[i - 1].group);
        assert rows[j + 1] == rest[j];
      }
    }
  }

  /**
   * The flattening is nested: group rows carry their key path as id, their
   * depth as level, their index among their siblings, and a row deeper than
   * the top comes after its parent's row, which is expanded. Hence a group's
   * descendants appear only after it and only when it is expanded.
   */
  lemma {:induction false} FlattenChildrenNested<R>(children: Children<R>, parentId: Option<string>, level: nat,
                                                    expandedGroupIds: Option<set<string>>)
    ensures Nested(FlattenChildren(children, parentId, level, expandedGroupIds), parentId, level, expandedGroupIds)
    decreases children, 2, 0
  {
    match children
    case Leaves(rows) =>
    case Groups(nodes) => FlattenNodesNested(nodes, |nodes|, parentId, level, expandedGroupIds);
  }

  lemma {:induction false} FlattenNodesNested<R>(nodes: seq<GroupNode<R>>, n: nat, parentId: Option<string>, level: nat,
                                                 expandedGroupIds: Option<set<string>>)
    requires n <= |nodes|
    ensures Nested(FlattenNodes(nodes, n, parentId, level, expandedGroupIds), parentId, level, expandedGroupIds)
    decreases nodes, 1, n
  {
    if n > 0 {
      FlattenNodesNested(nodes, n - 1, parentId, level, expandedGroupIds);
      NodeRowsNested(nodes, n - 1, parentId, level, expandedGroupIds);
      NestedAppend(FlattenNodes(nodes, n - 1, parentId, level, expandedGroupIds),
                   NodeRows(nodes, n - 1, parentId, level, expandedGroupIds), parentId, level, expandedGroupIds);
    }
  }

  lemma {:induction false} NodeRowsNested<R>(nodes: seq<GroupNode<R>>, k: nat, parentId: Option<string>, level: nat,
                                             expandedGroupIds: Option<set<string>>)
    requires k < |nodes|
    ensures Nested(NodeRows(nodes, k, parentId, level, expandedGroupIds), parentId, level, expandedGroupIds)
    decreases nodes, 0, 0
  {
    var g := MakeGroupRow(nodes, k, parentId, level, expandedGroupIds);
    if g.isExpanded {
      FlattenChildrenNested(nodes[k].childGroups, Some(g.id), level + 1, expandedGroupIds);
      NestedGroup(g, FlattenChildren(nodes[k].childGroups, Some(g.id), level + 1, expandedGroupIds), parentId, level, expandedGroupIds);
    } else {
      NestedGroup(g, [], parentId, level, expandedGroupIds);
    }
  }

  // ---------------------------------------------------------------------
  // Row window
  // ---------------------------------------------------------------------

  /** Rows are rendered in batches of this many. */
  const RENDER_BATCH_SIZE: int := 8
  /** Rows kept rendered beyond each edge of the visible window. */
  const OVERSCAN_THRESHOLD: int := 4

  /** `Math.ceil(a / b)` for a positive `b`; Dafny's `/` already rounds down for a positive divisor. */
  function CeilDiv(a: int, b: int): (q: int)
    requires b > 0
    ensures (q - 1) * b < a <= q * b
  {
    -((-a) / b)
  }

  /** The first visible row: the number of whole rows scrolled past. */
  function RowVisibleStartIdx(scrollTop: int, rowHeight: int): (r: int)
    requires rowHeight > 0
    ensures r * rowHeight <= scrollTop < (r + 1) * rowHeight
  {
    scrollTop / rowHeight
  }

  /** The last visible row: the row at the bottom edge, or the last row. */
  function RowVisibleEndIdx(rowsLength: nat, scrollTop: int, clientHeight: int, rowHeight: int): (r: int)
    requires rowHeight > 0
    ensures r <= rowsLength - 1
    ensures r == rowsLength - 1 || r * rowHeight <= scrollTop + clientHeight < (r + 1) * rowHeight
    ensures r == rowsLength - 1 ==> (rowsLength - 1) * rowHeight <= scrollTop + clientHeight
  {
    Min(rowsLength - 1, (scrollTop + clientHeight) / rowHeight)
  }

  /**
   * The first rendered row: four rows before the first visible one, rounded
   * down to a batch boundary and not before row 0.
   */
  function RowOverscanStartIdx(rowVisibleStartIdx: int): (r: int)
    ensures r >= 0 && r % RENDER_BATCH_SIZE == 0
    ensures rowVisibleStartIdx >= 0 ==> r <= rowVisibleStartIdx
    ensures r <= Max(0, rowVisibleStartIdx - OVERSCAN_THRESHOLD)
    ensures r > rowVisibleStartIdx - OVERSCAN_THRESHOLD - RENDER_BATCH_SIZE
  {
    Max(0, (rowVisibleStartIdx - OVERSCAN_THRESHOLD) / RENDER_BATCH_SIZE * RENDER_BATCH_SIZE)
  }

  /**
   * The last rendered row: four rows after the last visible one, rounded up
   * to a batch boundary and not past the last row.
   */
  function RowOverscanEndIdx(rowsLength: nat, rowVisibleEndIdx: int): (r: int)
    ensures r <= rowsLength - 1
    ensures rowVisibleEndIdx <= rowsLength - 1 ==> r >= rowVisibleEndIdx
    ensures r == rowsLength - 1 || (BatchAligned(r) && rowVisibleEndIdx + OVERSCAN_THRESHOLD <= r < rowVisibleEndIdx + OVERSCAN_THRESHOLD + RENDER_BATCH_SIZE)
    ensures r == rowsLength - 1 ==>
      forall m :: rowVisibleEndIdx + OVERSCAN_THRESHOLD <= m < rowsLength - 1 ==> !BatchAligned(m)
  {
    var q := CeilDiv(rowVisibleEndIdx + OVERSCAN_THRESHOLD, RENDER_BATCH_SIZE);
    var r := Min(rowsLength - 1, q * RENDER_BATCH_SIZE);
    assert r == rowsLength - 1 ==>
      forall m :: rowVisibleEndIdx + OVERSCAN_THRESHOLD <= m < rowsLength - 1 ==> !BatchAligned(m)
    by {
      forall m | rowVisibleEndIdx + OVERSCAN_THRESHOLD <= m < q * RENDER_BATCH_SIZE
        ensures !BatchAligned(m)
      {
        BatchBelowCeiling(rowVisibleEndIdx + OVERSCAN_THRESHOLD, q, m);
      }
    }
    r
  }

  /** `m` starts a batch of rows. */
  predicate BatchAligned(m: int)
  {
    m % RENDER_BATCH_SIZE == 0
  }

  /**
   * `q * RENDER_BATCH_SIZE` is the first batch start at or after `a` when
   * `q` is the rounded-up quotient: no batch starts in between.
   */
  lemma BatchBelowCeiling(a: int, q: int, m: int)
    requires (q - 1) * RENDER_BATCH_SIZE < a && a <= m < q * RENDER_BATCH_SIZE
    ensures !BatchAligned(m)
  {
    var k := m / RENDER_BATCH_SIZE;
    assert m == k * RENDER_BATCH_SIZE + m % RENDER_BATCH_SIZE;
    if m % RENDER_BATCH_SIZE == 0 {
      if k >= q {
        MulMonotonic(q, k, RENDER_BATCH_SIZE);
      } else {
        MulMonotonic(k, q - 1, RENDER_BATCH_SIZE);
      }
    }
  }

  /**
   * The rendered window covers the visible rows whenever there is a row to
   * show and the grid is scrolled within its rows.
   */
  lemma RowWindowCoversVisibleRows(rowsLength: nat, scrollTop: nat, clientHeight: nat, rowHeight: int)
    requires rowHeight > 0 && scrollTop < rowsLength * rowHeight
    ensures var visStart := RowVisibleStartIdx(scrollTop, rowHeight);
      var visEnd := RowVisibleEndIdx(rowsLength, scrollTop, clientHeight, rowHeight);
      0 <= RowOverscanStartIdx(visStart) <= visStart <= visEnd <= RowOverscanEndIdx(rowsLength, visEnd) < rowsLength
  {
    var visStart := RowVisibleStartIdx(scrollTop, rowHeight);
    if visStart >= rowsLength {
      MulMonotonic(rowsLength, visStart, rowHeight);
    }
    var q := (scrollTop + clientHeight) / rowHeight;
    if q < visStart {
      MulMonotonic(q + 1, visStart, rowHeight);
    }
  }

  lemma MulMonotonic(a: int, b: int, c: int)
    requires a <= b && c > 0
    ensures a * c <= b * c
  {
    assert b * c - a * c == (b - a) * c;
  }
}
