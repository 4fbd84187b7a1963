/**
 * The sidebar's flattening of the workspace tree into the rows it shows, and
 * the guard of its drag-and-drop handler.
 *
 * The rows are defined over any `kids` function from a group id to its
 * children; the sidebar uses `childrenOf(items, id)`, and the properties that
 * depend on it are stated for that function.
 */
module Sidebar {
  import opened Wrappers
  import opened Workspace
  import WorkspaceDrop

  /** A row of the sidebar: an item and its indentation depth. */
  datatype VisibleRow = VisibleRow(item: Item, depth: nat)

  /** A root item whose children are shown: a group that is not collapsed. */
  predicate Expanded(item: Item) {
    item.Group? && !item.collapsed
  }

  /** The rows of a group's children, at depth 1. */
  function ChildRows(children: seq<Item>): (rows: seq<VisibleRow>)
    ensures |rows| == |children|
    ensures forall k :: 0 <= k < |rows| ==> rows[k] == VisibleRow(children[k], 1)
  {
    seq(|children|, k requires 0 <= k < |children| => VisibleRow(children[k], 1))
  }

  /** The rows of one root item: itself, then its children when it is expanded. */
  function RootRows(kids: string -> seq<Item>, root: Item): seq<VisibleRow> {
    [VisibleRow(root, 0)] + (if Expanded(root) then ChildRows(kids(root.id)) else [])
  }

  /** The rows of a list of root items, in order. */
  function RowsFrom(kids: string -> seq<Item>, roots: seq<Item>): seq<VisibleRow> {
    if roots == [] then []
    else RowsFrom(kids, roots[..|roots| - 1]) + RootRows(kids, roots[|roots| - 1])
  }

  /** The children of a group, as the sidebar lists them. */
  function Kids(items: seq<Item>): string -> seq<Item> {
    id => ChildrenOf(items, Some(id))
  }

  /** The rows the sidebar shows. */
  function VisibleRows(items: seq<Item>): seq<VisibleRow> {
    RowsFrom(Kids(items), ChildrenOf(items, None))
  }

  /** `buildVisibleRows`: the rows of the root items of `childrenOf(items, null)`. */
  method BuildVisibleRows(items: seq<Item>) returns (rows: seq<VisibleRow>)
    ensures rows == VisibleRows(items)
  {
    rows := FlattenRoots(Kids(items), ChildrenOf(items, None));
  }

  /** The loop of `buildVisibleRows` over the root items and, inside it, over the children of an expanded group. */
  method FlattenRoots(kids: string -> seq<Item>, rootItems: seq<Item>) returns (rows: seq<VisibleRow>)
    ensures rows == RowsFrom(kids, rootItems)
  {
    rows := [];
    for r := 0 to |rootItems|
      invariant rows == RowsFrom(kids, rootItems[..r])
    {
      var rootItem := rootItems[r];
      assert rootItems[..r + 1][..r] == rootItems[..r];
      ghost var before := rows;
      rows := rows + [VisibleRow(rootItem, 0)];
      if Expanded(rootItem) {
        var groupChildren := kids(rootItem.id);
        for c := 0 to |groupChildren|
          invariant rows == before + [VisibleRow(rootItem, 0)] + ChildRows(groupChildren[..c])
        {
          assert ChildRows(groupChildren[..c + 1]) == ChildRows(groupChildren[..c]) + [VisibleRow(groupChildren[c], 1)];
          rows := rows + [VisibleRow(groupChildren[c], 1)];
        }
        assert groupChildren[..|groupChildren|] == groupChildren;
      }
    }
    assert rootItems[..|rootItems|] == rootItems;
  }

  // ---------------------------------------------------------------------------
  // Properties of the rows

  /** The items of the depth-0 rows, in order. */
  function DepthZeroItems(rows: seq<VisibleRow>): seq<Item> {
    if rows == [] then []
    else DepthZeroItems(rows[..|rows| - 1]) + (if rows[|rows| - 1].depth == 0 then [rows[|rows| - 1].item] else [])
  }

  lemma {:induction false} DepthZeroItemsAppend(xs: seq<VisibleRow>, ys: seq<VisibleRow>)
    ensures DepthZeroItems(xs + ys) == DepthZeroItems(xs) + DepthZeroItems(ys)
  {
    if ys == [] {
      assert xs + ys == xs;
    } else {
      var n := |ys| - 1;
      assert (xs + ys)[..|xs + ys| - 1] == xs + ys[..n];
      DepthZeroItemsAppend(xs, ys[..n]);
    }
  }

  lemma {:induction false} ChildRowsHaveNoRoot(children: seq<Item>)
    ensures DepthZeroItems(ChildRows(children)) == []
  {
    if children != [] {
      var n := |children| - 1;
      assert ChildRows(children)[..n] == ChildRows(children[..n]);
      ChildRowsHaveNoRoot(children[..n]);
    }
  }

  /** The depth-0 rows are exactly the root items, in their order. */
  lemma {:induction false} RootsAtDepthZero(kids: string -> seq<Item>, roots: seq<Item>)
    ensures DepthZeroItems(RowsFrom(kids, roots)) == roots
  {
    if roots != [] {
      var n := |roots| - 1;
      var last := roots[n];
      var shown := if Expanded(last) then ChildRows(kids(last.id)) else [];
      RootsAtDepthZero(kids, roots[..n]);
      DepthZeroItemsAppend(RowsFrom(kids, roots[..n]), RootRows(kids, last));
      DepthZeroItemsAppend([VisibleRow(last, 0)], shown);
      assert DepthZeroItems([VisibleRow(last, 0)]) == [last] by {
        assert [VisibleRow(last, 0)][..0] == [];
      }
      if Expanded(last) {
        ChildRowsHaveNoRoot(kids(last.id));
      }
      assert roots[..n] + [last] == roots;
    }
  }

  /** Every root item is shown at depth 0, in `childrenOf(items, null)` order. */
  lemma VisibleRootsInOrder(items: seq<Item>)
    ensures DepthZeroItems(VisibleRows(items)) == ChildrenOf(items, None)
  {
    RootsAtDepthZero(Kids(items), ChildrenOf(items, None));
  }

  /** The number of children shown under the expanded root items of a list. */
  function ShownChildCount(kids: string -> seq<Item>, roots: seq<Item>): nat {
    if roots == [] then 0
    else
      var last := roots[|roots| - 1];
      ShownChildCount(kids, roots[..|roots| - 1]) + (if Expanded(last) then |kids(last.id)| else 0)
  }

  /** `item` is listed among the children of `g`, an expanded item of `roots`. */
  predicate ShownUnder(kids: string -> seq<Item>, roots: seq<Item>, item: Item, g: Item) {
    g in roots && Expanded(g) && item in kids(g.id)
  }

  /** A row is a root item at depth 0, or a child of an expanded root at depth 1. */
  ghost predicate ShapedRow(kids: string -> seq<Item>, roots: seq<Item>, row: VisibleRow) {
    (row.depth == 0 && row.item in roots)
    || (row.depth == 1 && exists g :: ShownUnder(kids, roots, row.item, g))
  }

  /** Each row is a root item or a child of an expanded root, and the row count adds up. */
  lemma {:induction false} RowsShape(kids: string -> seq<Item>, roots: seq<Item>)
    ensures |RowsFrom(kids, roots)| == |roots| + ShownChildCount(kids, roots)
    ensures forall k :: 0 <= k < |RowsFrom(kids, roots)| ==> ShapedRow(kids, roots, RowsFrom(kids, roots)[k])
  {
    if roots != [] {
      var n := |roots| - 1;
      var last := roots[n];
      var prefix := RowsFrom(kids, roots[..n]);
      var tail := RootRows(kids, last);
      RowsShape(kids, roots[..n]);
      forall k | 0 <= k < |prefix + tail|
        ensures ShapedRow(kids, roots, (prefix + tail)[k])
      {
        if k < |prefix| {
          assert (prefix + tail)[k] == prefix[k];
          var row := prefix[k];
          if row.depth != 0 {
            var g :| ShownUnder(kids, roots[..n], row.item, g);
            assert ShownUnder(kids, roots, row.item, g);
          }
        } else {
          var j := k - |prefix|;
          assert (prefix + tail)[k] == tail[j];
          if j > 0 {
            assert tail[j].item == kids(last.id)[j - 1];
            assert ShownUnder(kids, roots, tail[j].item, last);
          }
        }
      }
    }
  }

  /** `kids` lists, for every id, only items of `items` whose parent is that id. */
  ghost predicate ChildrenWithin(items: seq<Item>, kids: string -> seq<Item>) {
    forall id, x :: x in kids(id) ==> x in items && x.parentId == Some(id)
  }

  lemma KidsWithin(items: seq<Item>)
    ensures ChildrenWithin(items, Kids(items))
  {
    forall id, x | x in Kids(items)(id) ensures x in items && x.parentId == Some(id) {
      ChildrenOfMembers(items, Some(id));
    }
  }

  /**
   * No row is deeper than 1; a row is at depth 0 exactly when its item is a
   * root item; the rows are the root items plus the children of the expanded ones.
   */
  lemma VisibleRowsDepth(items: seq<Item>)
    ensures forall k :: 0 <= k < |VisibleRows(items)| ==>
              VisibleRows(items)[k].depth <= 1
              && (VisibleRows(items)[k].depth == 0 <==> VisibleRows(items)[k].item.parentId.None?)
    ensures |VisibleRows(items)| == |ChildrenOf(items, None)| + ShownChildCount(Kids(items), ChildrenOf(items, None))
  {
    var roots := ChildrenOf(items, None);
    var kids := Kids(items);
    RowsShape(kids, roots);
    KidsWithin(items);
    forall k | 0 <= k < |VisibleRows(items)|
      ensures VisibleRows(items)[k].depth == 0 <==> VisibleRows(items)[k].item.parentId.None?
    {
      var row := VisibleRows(items)[k];
      assert ShapedRow(kids, roots, row);
      if row.depth != 0 {
        var g :| ShownUnder(kids, roots, row.item, g);
        assert row.item.parentId == Some(g.id);
      }
    }
  }

  /** The rows of one root item sit, as a block, right where the rows of the earlier roots end. */
  lemma {:induction false} RootBlock(kids: string -> seq<Item>, roots: seq<Item>, k: nat)
    requires k < |roots|
    ensures var start := |RowsFrom(kids, roots[..k])|;
            start + |RootRows(kids, roots[k])| <= |RowsFrom(kids, roots)|
            && RowsFrom(kids, roots)[start..start + |RootRows(kids, roots[k])|] == RootRows(kids, roots[k])
  {
    var n := |roots| - 1;
    assert roots[..n + 1] == roots;
    if k < n {
      assert roots[..n][..k] == roots[..k];
      assert roots[..n][k] == roots[k];
      RootBlock(kids, roots[..n], k);
    }
  }

  /** Taking fewer roots shows fewer rows. */
  lemma {:induction false} CountGrows(kids: string -> seq<Item>, roots: seq<Item>, k: nat)
    requires k < |roots|
    ensures |RowsFrom(kids, roots[..k])| < |RowsFrom(kids, roots)|
  {
    var n := |roots| - 1;
    assert roots[..n + 1] == roots;
    if k < n {
      assert roots[..n][..k] == roots[..k];
      CountGrows(kids, roots[..n], k);
    }
  }

  /** After a root's block comes the next root, at depth 0, unless it was the last root. */
  lemma NextRowIsRoot(kids: string -> seq<Item>, roots: seq<Item>, k: nat)
    requires k < |roots|
    ensures var next := |RowsFrom(kids, roots[..k])| + |RootRows(kids, roots[k])|;
            (next < |RowsFrom(kids, roots)| <==> k + 1 < |roots|)
            && (k + 1 < |roots| ==> RowsFrom(kids, roots)[next] == VisibleRow(roots[k + 1], 0))
  {
    assert roots[..k + 1][..k] == roots[..k];
    assert roots[..k + 1][k] == roots[k];
    var next := |RowsFrom(kids, roots[..k + 1])|;
    if k + 1 < |roots| {
      RootBlock(kids, roots, k + 1);
      var block := RootRows(kids, roots[k + 1]);
      assert RowsFrom(kids, roots)[next..next + |block|][0] == RowsFrom(kids, roots)[next];
    } else {
      assert roots[..k + 1] == roots;
    }
  }

  /** The children a root shows: its children when it is an expanded group, none otherwise. */
  function Shown(kids: string -> seq<Item>, root: Item): seq<Item> {
    if Expanded(root) then kids(root.id) else []
  }

  /** At `start`, `rows` hold the root at depth 0 and then the rows of the children it shows. */
  predicate FollowedByChildren(rows: seq<VisibleRow>, start: nat, root: Item, shown: seq<Item>) {
    start + 1 + |shown| <= |rows|
    && rows[start] == VisibleRow(root, 0)
    && rows[start + 1..start + 1 + |shown|] == ChildRows(shown)
  }

  /**
   * A root's children follow it directly, at depth 1, when it is an expanded
   * group (and `NextRowIsRoot` says what follows them).
   */
  lemma ChildrenFollowTheirRoot(kids: string -> seq<Item>, roots: seq<Item>, k: nat)
    requires k < |roots|
    ensures FollowedByChildren(RowsFrom(kids, roots), |RowsFrom(kids, roots[..k])|, roots[k], Shown(kids, roots[k]))
  {
    RootBlock(kids, roots, k);
    var shown := Shown(kids, roots[k]);
    assert RootRows(kids, roots[k]) == [VisibleRow(roots[k], 0)] + ChildRows(shown);
    BlockHeadAndTail(RowsFrom(kids, roots), |RowsFrom(kids, roots[..k])|, VisibleRow(roots[k], 0), ChildRows(shown));
  }

  /** A block `[x] + tail` found at `start` puts `x` at `start` and `tail` right after it. */
  lemma BlockHeadAndTail<T>(s: seq<T>, start: nat, x: T, tail: seq<T>)
    requires start + 1 + |tail| <= |s| && s[start..start + 1 + |tail|] == [x] + tail
    ensures s[start] == x && s[start + 1..start + 1 + |tail|] == tail
  {
    assert s[start..start + 1 + |tail|][0] == s[start];
    assert s[start + 1..start + 1 + |tail|] == s[start..start + 1 + |tail|][1..];
  }

  /** In the sidebar, every expanded root group is followed directly by its children's rows. */
  lemma ChildrenFollowTheirGroup(items: seq<Item>, k: nat)
    requires k < |ChildrenOf(items, None)|
    ensures var roots := ChildrenOf(items, None);
            FollowedByChildren(VisibleRows(items), |RowsFrom(Kids(items), roots[..k])|, roots[k], Shown(Kids(items), roots[k]))
  {
    ChildrenFollowTheirRoot(Kids(items), ChildrenOf(items, None), k);
  }

  /** Two different items of a list with distinct ids carry different ids. */
  lemma DifferentItemsDifferentIds(items: seq<Item>, x: Item, y: Item)
    requires DistinctIds(items) && x in items && y in items && x != y
    ensures x.id != y.id
  {
  }

  /** A row of the earlier roots and a row of the last root never show the same item. */
  lemma PrefixRowIsNotInTail(items: seq<Item>, kids: string -> seq<Item>, roots: seq<Item>, early: VisibleRow, late: VisibleRow)
    requires DistinctIds(items) && DistinctIds(roots) && roots != []
    requires ChildrenWithin(items, kids)
    requires forall k :: 0 <= k < |roots| ==> roots[k] in items && roots[k].parentId.None?
    requires ShapedRow(kids, roots[..|roots| - 1], early)
    requires late in RootRows(kids, roots[|roots| - 1])
    ensures early.item.id != late.item.id
  {
    var n := |roots| - 1;
    var last := roots[n];
    var lateIsLast := late.item == last;
    assert late.item in items && (lateIsLast || late.item.parentId == Some(last.id)) by {
      if !lateIsLast {
        var j :| 0 <= j < |RootRows(kids, last)| && RootRows(kids, last)[j] == late;
        assert late.item in kids(last.id);
      }
    }
    if early.depth == 0 {
      var i :| 0 <= i < n && roots[..n][i] == early.item;
      assert roots[i].id != roots[n].id;
      assert early.item in items && early.item != late.item;
    } else {
      var g :| ShownUnder(kids, roots[..n], early.item, g);
      var i :| 0 <= i < n && roots[..n][i] == g;
      assert roots[i].id != roots[n].id;
      assert early.item in items && early.item.parentId == Some(g.id);
      assert early.item != late.item;
    }
    DifferentItemsDifferentIds(items, early.item, late.item);
  }

  /** The rows of one root item show pairwise different ids. */
  lemma RootRowsDistinct(items: seq<Item>, kids: string -> seq<Item>, root: Item)
    requires DistinctIds(items) && ChildrenWithin(items, kids) && DistinctIds(kids(root.id))
    requires root in items && root.parentId.None?
    ensures var rows := RootRows(kids, root);
            forall a, b :: 0 <= a < b < |rows| ==> rows[a].item.id != rows[b].item.id
  {
    var rows := RootRows(kids, root);
    var children := kids(root.id);
    forall a, b | 0 <= a < b < |rows| ensures rows[a].item.id != rows[b].item.id {
      assert rows[b].item == children[b - 1];
      assert children[b - 1] in kids(root.id);
      if a > 0 {
        assert rows[a].item == children[a - 1];
      } else {
        assert rows[a].item == root;
        DifferentItemsDifferentIds(items, root, children[b - 1]);
      }
    }
  }

  /** With distinct ids in the workspace and in every list of children, no item is shown twice. */
  lemma {:induction false} RowsDistinct(items: seq<Item>, kids: string -> seq<Item>, roots: seq<Item>)
    requires DistinctIds(items) && DistinctIds(roots)
    requires ChildrenWithin(items, kids)
    requires forall id :: DistinctIds(kids(id))
    requires forall k :: 0 <= k < |roots| ==> roots[k] in items && roots[k].parentId.None?
    ensures forall a, b :: 0 <= a < b < |RowsFrom(kids, roots)| ==>
              RowsFrom(kids, roots)[a].item.id != RowsFrom(kids, roots)[b].item.id
  {
    if roots != [] {
      var n := |roots| - 1;
      var last := roots[n];
      var prefix := RowsFrom(kids, roots[..n]);
      var tail := RootRows(kids, last);
      var rows := prefix + tail;
      RowsDistinct(items, kids, roots[..n]);
      RowsShape(kids, roots[..n]);
      RootRowsDistinct(items, kids, last);
      forall a, b | 0 <= a < b < |rows| ensures rows[a].item.id != rows[b].item.id {
        if b < |prefix| {
          assert rows[a] == prefix[a] && rows[b] == prefix[b];
        } else if a >= |prefix| {
          assert rows[a] == tail[a - |prefix|] && rows[b] == tail[b - |prefix|];
        } else {
          assert rows[a] == prefix[a] && rows[b] == tail[b - |prefix|];
          PrefixRowIsNotInTail(items, kids, roots, prefix[a], tail[b - |prefix|]);
        }
      }
    }
  }

  /** With distinct ids in the workspace, no item is shown twice. */
  lemma VisibleRowsDistinct(items: seq<Item>)
    requires DistinctIds(items)
    ensures forall a, b :: 0 <= a < b < |VisibleRows(items)| ==>
              VisibleRows(items)[a].item.id != VisibleRows(items)[b].item.id
  {
    var roots := ChildrenOf(items, None);
    var kids := Kids(items);
    ChildrenOfMembers(items, None);
    WorkspaceDrop.ChildrenOfDistinct(items, None);
    KidsWithin(items);
    forall id ensures DistinctIds(kids(id)) {
      WorkspaceDrop.ChildrenOfDistinct(items, Some(id));
    }
    RowsDistinct(items, kids, roots);
  }

  // ---------------------------------------------------------------------------
  // Drag and drop

  /**
   * `onDragEnd`: the move `onMoveByDrop(activeId, overId)` it asks for, or
   * `None` when nothing is under the cursor (or its id is empty) or the item
   * was dropped on itself.
   */
  function DragEndMove(activeId: string, overId: Option<string>): (r: Option<(string, string)>)
    ensures r.Some? <==> overId.Some? && overId.value != "" && overId.value != activeId
    ensures r.Some? ==> r.value == (activeId, overId.value)
  {
    if overId.None? || overId.value == "" || activeId == overId.value then None
    else Some((activeId, overId.value))
  }
}
