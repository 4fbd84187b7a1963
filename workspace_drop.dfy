/**
 * Drag-and-drop reordering of the workspace tree (`moveItemByDrop` and the
 * two cases it dispatches to): a group is moved among the root groups, any
 * other item into the group it is dropped on, before the item it is dropped on.
 */
module WorkspaceDrop {
  import opened Wrappers
  import opened Workspace
  import opened WorkspaceReindex

  /** `over.kind === "group" ? over.id : over.parentId`: the group an item is dropped into. */
  function TargetOf(over: Item): Option<string> {
    if over.Group? then Some(over.id) else over.parentId
  }

  /** A null or empty target id is falsy in JavaScript, and aborts the drop. */
  predicate IsFalsy(target: Option<string>) {
    target.None? || target.value == ""
  }

  /** `Math.max(min, Math.min(max, value))`. */
  function Clamp(value: int, min: int, max: int): (r: int)
    ensures min <= max ==> min <= r <= max
    ensures min <= value <= max ==> r == value
    ensures min > max ==> r == min
  {
    var capped := if value < max then value else max;
    if min > capped then min else capped
  }

  /** `xs.splice(at, 0, x)` on a copy. */
  function Insert<T>(xs: seq<T>, at: nat, x: T): (r: seq<T>)
    requires at <= |xs|
    ensures |r| == |xs| + 1 && r[at] == x
    ensures r[..at] == xs[..at] && r[at + 1..] == xs[at..]
    ensures r[..at] + r[at + 1..] == xs
  {
    assert xs[..at] + xs[at..] == xs;
    xs[..at] + [x] + xs[at..]
  }

  /** `xs.indexOf(x)`: the first position of `x`, or -1. */
  function IndexOf(xs: seq<string>, x: string): (k: int)
    ensures -1 <= k < |xs|
    ensures k >= 0 ==> xs[k] == x && forall j :: 0 <= j < k ==> xs[j] != x
    ensures k == -1 <==> x !in xs
  {
    if xs == [] then -1
    else if xs[0] == x then 0
    else
      var k := IndexOf(xs[1..], x);
      if k < 0 then -1 else k + 1
  }

  /** `.filter((item) => item.kind === "group")`. */
  function GroupsOnly(xs: seq<Item>): (r: seq<Item>)
    ensures forall x :: x in r <==> x in xs && x.Group?
    ensures DistinctIds(xs) ==> DistinctIds(r)
  {
    if xs == [] then []
    else
      var rest := GroupsOnly(xs[1..]);
      if xs[0].Group? then
        ConsDistinct(xs, rest);
        [xs[0]] + rest
      else rest
  }

  /** The head of a list with distinct ids, put before items taken from its tail, keeps the ids distinct. */
  lemma ConsDistinct(xs: seq<Item>, rest: seq<Item>)
    requires xs != [] && forall x :: x in rest ==> x in xs[1..]
    requires DistinctIds(xs) ==> DistinctIds(rest)
    ensures DistinctIds(xs) ==> DistinctIds([xs[0]] + rest)
  {
    if DistinctIds(xs) {
      var r := [xs[0]] + rest;
      forall i, j | 0 <= i < j < |r|
        ensures r[i].id != r[j].id
      {
        if i == 0 {
          assert r[j] == rest[j - 1];
          assert rest[j - 1] in xs[1..];
          var k :| 0 <= k < |xs[1..]| && xs[1..][k] == rest[j - 1];
          assert xs[k + 1] == r[j];
        } else {
          assert r[i] == rest[i - 1] && r[j] == rest[j - 1];
        }
      }
    }
  }

  /** A sorted list of children holds no two items with the same id when the list has none. */
  lemma ChildrenOfDistinct(items: seq<Item>, parentId: Option<string>)
    requires DistinctIds(items)
    ensures DistinctIds(ChildrenOf(items, parentId))
  {
    var s := SortedSiblings(items, parentId);
    ChildrenOfMembers(items, parentId);
    SortedNoDuplicates(items, s);
  }

  /** Removing the one item carrying `id` shortens a list with distinct ids by one. */
  lemma {:induction false} WithoutOne(xs: seq<Item>, id: string)
    requires DistinctIds(xs) && HasId(xs, id)
    ensures |Without(xs, {id})| == |xs| - 1
  {
    if xs[0].id == id {
      WithoutNone(xs[1..], id);
    } else {
      assert HasId(xs[1..], id) by {
        var i :| 0 <= i < |xs| && xs[i].id == id;
        assert xs[1..][i - 1].id == id;
      }
      WithoutOne(xs[1..], id);
    }
  }

  /** Removing an id no item carries changes nothing. */
  lemma {:induction false} WithoutNone(xs: seq<Item>, id: string)
    requires !HasId(xs, id)
    ensures Without(xs, {id}) == xs
  {
    if xs != [] {
      WithoutNone(xs[1..], id);
    }
  }

  /** The ids of a list of distinct items occur once each. */
  lemma DistinctIdList(xs: seq<Item>)
    requires DistinctIds(xs)
    ensures forall a, b :: 0 <= a < b < |Ids(xs)| ==> Ids(xs)[a] != Ids(xs)[b]
  {
  }

  // ---------------------------------------------------------------------------
  // Dropping a group

  /** `childrenOf(items, null)` restricted to groups. */
  function RootGroups(items: seq<Item>): seq<Item> {
    GroupsOnly(ChildrenOf(items, None))
  }

  /**
   * The root groups in their new sequence: without the dragged group, which
   * is put back just before the target group, or at the end when the target
   * is not a root group.
   */
  function NextRootGroups(items: seq<Item>, active: Item, targetId: string): (r: seq<Item>)
    ensures active in r
  {
    var remaining := RemainingRootGroups(items, active);
    var found := FindIndex(remaining, targetId);
    var at := if found < 0 then |remaining| else found;
    Insert(remaining, at, active)
  }

  /** The new order of every root group whose id the map holds; everything else as it was. */
  function ApplyRootGroupOrder(items: seq<Item>, m: map<string, nat>): (r: seq<Item>)
    ensures |r| == |items|
    ensures forall i :: 0 <= i < |items| ==> r[i] == items[i].(order := r[i].order)
    ensures forall i :: 0 <= i < |items| && !(items[i].Group? && items[i].parentId.None?) ==> r[i] == items[i]
    ensures forall i :: 0 <= i < |items| && items[i].Group? && items[i].parentId.None? && items[i].id in m ==>
              r[i].order == m[items[i].id]
  {
    seq(|items|, i requires 0 <= i < |items| =>
      match items[i]
      case Group(id, parentId, _, title, collapsed) =>
        if parentId.None? && id in m then Group(id, parentId, m[id], title, collapsed) else items[i]
      case _ => items[i])
  }

  /** What `moveGroupByDrop` returns. */
  function GroupDropResult(items: seq<Item>, active: Item, over: Item): (r: seq<Item>)
    ensures |r| == |items|
    ensures forall i :: 0 <= i < |items| ==> r[i] == items[i].(order := r[i].order)
    ensures forall i :: 0 <= i < |items| && !(items[i].Group? && items[i].parentId.None?) ==> r[i] == items[i]
  {
    var target := TargetOf(over);
    if IsFalsy(target) || target.value == active.id then items
    else ApplyRootGroupOrder(items, OrderMap(Ids(NextRootGroups(items, active, target.value))))
  }

  /**
   * `moveGroupByDrop`: renumbers the root groups 0, 1, 2, ... in their new
   * sequence. Nested groups and non-group root items keep their orders.
   */
  method MoveGroupByDrop(items: seq<Item>, active: Item, over: Item) returns (r: seq<Item>)
    requires active.Group?
    ensures r == GroupDropResult(items, active, over)
  {
    var targetGroupId := TargetOf(over);
    if IsFalsy(targetGroupId) || targetGroupId.value == active.id {
      return items;
    }
    var rootGroups := GroupsOnly(ChildrenOf(items, None));
    var remaining := Without(rootGroups, {active.id});
    var targetIndex := FindIndex(remaining, targetGroupId.value);
    if targetIndex < 0 {
      targetIndex := |remaining|;
    }
    var nextRootGroups := Insert(remaining, targetIndex, active);
    // the numbering loop is the one `buildOrderMap` runs
    var ids := Ids(nextRootGroups);
    var nextOrder := BuildOrderMap(ids);
    OrderMapUnique(ids, nextOrder);
    r := ApplyRootGroupOrder(items, nextOrder);
  }

  /** Item `i` is a group at the root. */
  predicate IsRootGroup(items: seq<Item>, i: nat)
    requires i < |items|
  {
    items[i].Group? && items[i].parentId.None?
  }

  /** The element at each position after an insertion. */
  lemma InsertElement<T>(xs: seq<T>, at: nat, x: T, p: nat)
    requires at <= |xs| && p <= |xs|
    ensures Insert(xs, at, x)[p] == if p < at then xs[p] else if p == at then x else xs[p - 1]
  {
    var r := Insert(xs, at, x);
    if p < at {
      assert r[p] == r[..at][p];
    } else if p > at {
      assert r[p] == r[at + 1..][p - at - 1];
    }
  }

  /** An insertion adds exactly the inserted element. */
  lemma InsertMembers<T>(xs: seq<T>, at: nat, x: T)
    requires at <= |xs|
    ensures forall y :: y in Insert(xs, at, x) <==> y == x || y in xs
  {
    assert Insert(xs, at, x) == xs[..at] + [x] + xs[at..];
    assert xs == xs[..at] + xs[at..];
  }

  /** Inserting an item whose id the list lacks keeps ids distinct. */
  lemma InsertKeepsDistinct(xs: seq<Item>, at: nat, x: Item)
    requires DistinctIds(xs) && at <= |xs|
    requires forall y :: y in xs ==> y.id != x.id
    ensures DistinctIds(Insert(xs, at, x))
    ensures forall y :: y in Insert(xs, at, x) <==> y == x || y in xs
  {
    var r := Insert(xs, at, x);
    forall p, q | 0 <= p < q < |r| ensures r[p].id != r[q].id {
      InsertElement(xs, at, x, p);
      InsertElement(xs, at, x, q);
      if p == at {
        assert xs[q - 1] in xs;
      } else if q == at {
        assert xs[p] in xs;
      }
    }
    InsertMembers(xs, at, x);
  }

  /** With distinct ids, the root groups are the root items that are groups, each once. */
  lemma RootGroupsMembers(items: seq<Item>)
    requires DistinctIds(items)
    ensures DistinctIds(RootGroups(items))
    ensures forall x :: x in RootGroups(items) <==> x in items && x.Group? && x.parentId.None?
  {
    ChildrenOfDistinct(items, None);
    ChildrenOfMembers(items, None);
  }

  /** With distinct ids, the new root-group sequence holds each root group once and nothing else. */
  lemma NextRootGroupsShape(items: seq<Item>, a: nat, targetId: string)
    requires DistinctIds(items) && a < |items| && IsRootGroup(items, a)
    ensures var next := NextRootGroups(items, items[a], targetId);
            DistinctIds(next)
            && |next| == |RootGroups(items)|
            && (forall x :: x in next <==> x in items && x.Group? && x.parentId.None?)
  {
    var active := items[a];
    var remaining := RemainingRootGroups(items, active);
    RemainingRootGroupsShape(items, a);
    var found := FindIndex(remaining, targetId);
    var at := if found < 0 then |remaining| else found;
    InsertKeepsDistinct(remaining, at, active);
  }

  /** Without the dragged group, the root groups are the other root groups, each once. */
  lemma RemainingRootGroupsShape(items: seq<Item>, a: nat)
    requires DistinctIds(items) && a < |items| && IsRootGroup(items, a)
    ensures var remaining := RemainingRootGroups(items, items[a]);
            DistinctIds(remaining) && |remaining| + 1 == |RootGroups(items)|
            && (forall y :: y in remaining ==> y.id != items[a].id)
            && forall x :: x in remaining <==> x in items && x.Group? && x.parentId.None? && x != items[a]
  {
    var active := items[a];
    var groups := RootGroups(items);
    RootGroupsMembers(items);
    WithoutKeepsDistinct(groups, {active.id});
    assert items[a] in items;
    WithoutOne(groups, active.id);
    var remaining := RemainingRootGroups(items, active);
    forall x | x in items && x.Group? && x.parentId.None? && x != active ensures x in remaining {
      var i := PositionOf(items, x);
      assert x.id != active.id by {
        assert i != a;
      }
      assert x in groups && x.id !in {active.id};
    }
  }

  /** The position of an element of a list. */
  lemma PositionOf(xs: seq<Item>, y: Item) returns (x: nat)
    requires y in xs
    ensures x < |xs| && xs[x] == y
  {
    x :| x < |xs| && xs[x] == y;
  }

  /** After a group drop, a root group's order is its position in the new root-group sequence. */
  lemma GroupDropOrderIsPosition(items: seq<Item>, a: nat, over: Item, i: nat, x: nat)
    requires DistinctIds(items) && a < |items| && IsRootGroup(items, a)
    requires !IsFalsy(TargetOf(over)) && TargetOf(over).value != items[a].id
    requires i < |items| && IsRootGroup(items, i)
    requires var next := NextRootGroups(items, items[a], TargetOf(over).value);
             x < |next| && next[x] == items[i]
    ensures GroupDropResult(items, items[a], over)[i].order == x
  {
    var next := NextRootGroups(items, items[a], TargetOf(over).value);
    NextRootGroupsShape(items, a, TargetOf(over).value);
    DistinctIdList(next);
    OrderMapOfDistinct(Ids(next), OrderMap(Ids(next)), x);
  }

  /** The root groups other than the dragged one, in `childrenOf` order. */
  function RemainingRootGroups(items: seq<Item>, active: Item): seq<Item> {
    Without(RootGroups(items), {active.id})
  }

  /** In the new root-group sequence, the dragged group sits immediately before the target group. */
  lemma NextRootGroupsPlacement(items: seq<Item>, a: nat, b: nat)
    requires DistinctIds(items) && a < |items| && b < |items| && a != b
    requires IsRootGroup(items, a) && IsRootGroup(items, b)
    ensures var next := NextRootGroups(items, items[a], items[b].id);
            var t := FindIndex(RemainingRootGroups(items, items[a]), items[b].id);
            0 <= t && t + 1 < |next| && next[t] == items[a] && next[t + 1] == items[b]
  {
    var remaining := RemainingRootGroups(items, items[a]);
    RemainingRootGroupsShape(items, a);
    assert items[b] in items;
    var k := PositionOf(remaining, items[b]);
    var t := FindIndex(remaining, items[b].id);
    assert 0 <= t;
    assert remaining[t] == items[b] by {
      var j := PositionOf(items, remaining[t]);
      assert j == b;
    }
    InsertElement(remaining, t, items[a], t + 1);
  }

  /**
   * Dropping root group `a` on root group `b` (or on an item inside it) puts
   * `a` immediately before `b`: with distinct ids, `a` takes the order just
   * below `b`'s new order.
   */
  lemma GroupDropPlacesBeforeTarget(items: seq<Item>, a: nat, b: nat, over: Item)
    requires DistinctIds(items) && a < |items| && b < |items| && a != b
    requires IsRootGroup(items, a) && IsRootGroup(items, b)
    requires TargetOf(over) == Some(items[b].id) && items[b].id != ""
    ensures GroupDropResult(items, items[a], over)[a].order + 1 == GroupDropResult(items, items[a], over)[b].order
  {
    NextRootGroupsPlacement(items, a, b);
    var t := FindIndex(RemainingRootGroups(items, items[a]), items[b].id);
    GroupDropOrderIsPosition(items, a, over, a, t);
    GroupDropOrderIsPosition(items, a, over, b, t + 1);
  }

  /**
   * With distinct ids, dropping a root group gives the root groups the
   * orders 0 .. k-1, one each, where k is the number of root groups.
   */
  lemma GroupDropRenumbersRootGroups(items: seq<Item>, a: nat, over: Item, i: nat, j: nat)
    requires DistinctIds(items) && a < |items| && IsRootGroup(items, a)
    requires !IsFalsy(TargetOf(over)) && TargetOf(over).value != items[a].id
    requires i < |items| && j < |items| && i != j && IsRootGroup(items, i) && IsRootGroup(items, j)
    ensures var r := GroupDropResult(items, items[a], over);
            0 <= r[i].order < |RootGroups(items)| && r[i].order != r[j].order
  {
    var target := TargetOf(over).value;
    NextRootGroupsShape(items, a, target);
    var next := NextRootGroups(items, items[a], target);
    assert items[i] in items && items[j] in items;
    var x := PositionOf(next, items[i]);
    var y := PositionOf(next, items[j]);
    GroupDropOrderIsPosition(items, a, over, i, x);
    GroupDropOrderIsPosition(items, a, over, j, y);
  }

  // ---------------------------------------------------------------------------
  // Dropping a tab or a file

  /** The ids of the children of `parentId` in `childrenOf` order, without the dragged one. */
  function SiblingIdsWithout(items: seq<Item>, parentId: Option<string>, activeId: string): seq<string> {
    Ids(Without(ChildrenOf(items, parentId), {activeId}))
  }

  /** The id the dragged item is placed before: `over`, when it is a non-group child of `parentId`. */
  function OverSibling(parentId: Option<string>, over: Item): Option<string> {
    if !over.Group? && over.parentId == parentId then Some(over.id) else None
  }

  /** `clamp(insertIndex, 0, length)`: before `overId` when it is listed, else at the end. */
  function PlacementIndex(siblingIds: seq<string>, overId: Option<string>): (at: nat)
    ensures at <= |siblingIds|
    ensures overId.Some? && overId.value in siblingIds ==> at == IndexOf(siblingIds, overId.value)
    ensures !(overId.Some? && overId.value in siblingIds) ==> at == |siblingIds|
  {
    var insertIndex :=
      if overId.Some? && IndexOf(siblingIds, overId.value) >= 0 then IndexOf(siblingIds, overId.value)
      else |siblingIds|;
    Clamp(insertIndex, 0, |siblingIds|)
  }

  /**
   * `reorderSiblingIds`: the ids of the children of `parentId` without the
   * dragged item, with the dragged id spliced in before `over` when `over` is
   * a non-group child of `parentId`, and at the end otherwise.
   */
  function ReorderSiblingIds(items: seq<Item>, parentId: Option<string>, activeId: string, over: Item): (ids: seq<string>)
    ensures var siblingIds := SiblingIdsWithout(items, parentId, activeId);
            var at := PlacementIndex(siblingIds, OverSibling(parentId, over));
            |ids| == |siblingIds| + 1 && ids[at] == activeId && ids[..at] + ids[at + 1..] == siblingIds
  {
    var siblingIds := SiblingIdsWithout(items, parentId, activeId);
    var at := PlacementIndex(siblingIds, OverSibling(parentId, over));
    Insert(siblingIds, at, activeId)
  }

  /**
   * Where `reorderSiblingIds` puts the dragged id: immediately before `over`
   * when `over` is a non-group sibling, last otherwise.
   */
  lemma ReorderSiblingIdsPlacement(items: seq<Item>, parentId: Option<string>, activeId: string, over: Item)
    ensures var siblingIds := SiblingIdsWithout(items, parentId, activeId);
            var ids := ReorderSiblingIds(items, parentId, activeId, over);
            if !over.Group? && over.parentId == parentId && over.id in siblingIds
            then ids[IndexOf(siblingIds, over.id)] == activeId && ids[IndexOf(siblingIds, over.id) + 1] == over.id
            else ids[|ids| - 1] == activeId
  {
    var siblingIds := SiblingIdsWithout(items, parentId, activeId);
    var at := PlacementIndex(siblingIds, OverSibling(parentId, over));
    var ids := ReorderSiblingIds(items, parentId, activeId, over);
    if at < |siblingIds| {
      assert ids[at + 1] == (ids[..at] + ids[at + 1..])[at];
    }
  }

  /** Splicing a new id into a list of distinct ids keeps them distinct and adds just that id. */
  lemma SpliceDistinct(xs: seq<string>, ids: seq<string>, at: nat, x: string)
    requires forall p, q :: 0 <= p < q < |xs| ==> xs[p] != xs[q]
    requires x !in xs
    requires |ids| == |xs| + 1 && at < |ids| && ids[at] == x && ids[..at] + ids[at + 1..] == xs
    ensures forall p, q :: 0 <= p < q < |ids| ==> ids[p] != ids[q]
    ensures forall y :: y in ids <==> y == x || y in xs
  {
    forall k | 0 <= k < |ids| && k != at ensures ids[k] == xs[if k < at then k else k - 1] {
      if k < at {
        assert ids[k] == (ids[..at] + ids[at + 1..])[k];
      } else {
        assert ids[k] == (ids[..at] + ids[at + 1..])[k - 1];
      }
    }
    forall y | y in xs ensures y in ids {
      var k :| 0 <= k < |xs| && xs[k] == y;
      if k < at { assert ids[k] == y; } else { assert ids[k + 1] == y; }
    }
  }

  /** The ids `reorderSiblingIds` lists are distinct when the items' ids are, and are the dragged id and the siblings'. */
  lemma ReorderSiblingIdsDistinct(items: seq<Item>, parentId: Option<string>, activeId: string, over: Item)
    requires DistinctIds(items)
    ensures var ids := ReorderSiblingIds(items, parentId, activeId, over);
            (forall x, y :: 0 <= x < y < |ids| ==> ids[x] != ids[y])
            && forall y :: y in ids <==> y == activeId || y in SiblingIdsWithout(items, parentId, activeId)
  {
    var children := ChildrenOf(items, parentId);
    ChildrenOfDistinct(items, parentId);
    var without := Without(children, {activeId});
    WithoutKeepsDistinct(children, {activeId});
    DistinctIdList(without);
    var siblingIds := Ids(without);
    assert activeId !in siblingIds;
    var at := PlacementIndex(siblingIds, OverSibling(parentId, over));
    SpliceDistinct(siblingIds, ReorderSiblingIds(items, parentId, activeId, over), at, activeId);
  }

  /** Every child of `parentId` other than the dragged one is among the sibling ids. */
  lemma ChildInSiblingIds(items: seq<Item>, parentId: Option<string>, activeId: string, i: nat)
    requires i < |items| && items[i].parentId == parentId && items[i].id != activeId
    ensures items[i].id in SiblingIdsWithout(items, parentId, activeId)
  {
    ChildrenOfMembers(items, parentId);
    var w := Without(ChildrenOf(items, parentId), {activeId});
    assert items[i] in w;
    var k :| 0 <= k < |w| && w[k] == items[i];
    assert Ids(w)[k] == items[i].id;
  }

  /** Every sibling id names a child of `parentId`. */
  lemma SiblingIdIsChild(items: seq<Item>, parentId: Option<string>, activeId: string, k: nat)
    requires k < |SiblingIdsWithout(items, parentId, activeId)|
    ensures exists i :: 0 <= i < |items| && items[i].parentId == parentId
                        && items[i].id == SiblingIdsWithout(items, parentId, activeId)[k]
  {
    ChildrenOfMembers(items, parentId);
    var w := Without(ChildrenOf(items, parentId), {activeId});
    assert w[k] in ChildrenOf(items, parentId);
  }

  /** `ids.map((id) => items.find((item) => item.id === id)).filter(Boolean)`. */
  function FindEach(items: seq<Item>, ids: seq<string>): (r: seq<Item>)
    ensures (forall k :: 0 <= k < |ids| ==> HasId(items, ids[k])) ==> Ids(r) == ids
  {
    if ids == [] then []
    else
      var k := IndexOfId(items, ids[0]);
      var rest := FindEach(items, ids[1..]);
      if k < |items| then [items[k]] + rest else rest
  }

  /** `items.map`: every item carrying `id` is moved under `parentId`. */
  function Reparent(items: seq<Item>, id: string, parentId: Option<string>): (r: seq<Item>)
    ensures |r| == |items|
    ensures forall i :: 0 <= i < |items| ==>
              r[i] == items[i].(parentId := if items[i].id == id then parentId else items[i].parentId)
  {
    seq(|items|, i requires 0 <= i < |items| => if items[i].id == id then items[i].(parentId := parentId) else items[i])
  }

  /** Moving items to another parent keeps their ids distinct. */
  lemma ReparentKeepsDistinct(items: seq<Item>, id: string, parentId: Option<string>)
    requires DistinctIds(items)
    ensures DistinctIds(Reparent(items, id, parentId))
  {
    var r := Reparent(items, id, parentId);
    forall i, j | 0 <= i < j < |r| ensures r[i].id != r[j].id {
      assert r[i].id == items[i].id && r[j].id == items[j].id;
    }
  }

  /** The second `items.map` of `moveChildByDrop`: source children first, then target children. */
  function ApplyTwoOrderMaps(items: seq<Item>, source: Option<string>, sourceOrder: map<string, nat>,
                             target: Option<string>, targetOrder: map<string, nat>): (r: seq<Item>)
    ensures |r| == |items|
    ensures forall i :: 0 <= i < |items| ==> r[i] == items[i].(order := r[i].order)
  {
    seq(|items|, i requires 0 <= i < |items| =>
      if items[i].parentId == source && items[i].id in sourceOrder then items[i].(order := sourceOrder[items[i].id])
      else if items[i].parentId == target && items[i].id in targetOrder then items[i].(order := targetOrder[items[i].id])
      else items[i])
  }

  /** What `moveChildByDrop` returns. */
  function ChildDropResult(items: seq<Item>, active: Item, over: Item): (r: seq<Item>)
    ensures |r| == |items|
  {
    var target := TargetOf(over);
    if IsFalsy(target) then items
    else
      var source := active.parentId;
      var next := Reparent(items, active.id, target);
      if source == target then
        ApplyOrderMap(next, target, OrderMap(ReorderSiblingIds(next, target, active.id, over)))
      else
        var sourceIds := Ids(Without(ChildrenOf(next, source), {active.id}));
        var targetIds := Ids(FindEach(next, ReorderSiblingIds(next, target, active.id, over)));
        ApplyTwoOrderMaps(next, source, OrderMap(sourceIds), target, OrderMap(targetIds))
  }

  /**
   * `moveChildByDrop`: moves a tab or file under the target group and
   * renumbers the children of the target (and of the group it left).
   */
  method MoveChildByDrop(items: seq<Item>, active: Item, over: Item) returns (r: seq<Item>)
    requires !active.Group?
    ensures r == ChildDropResult(items, active, over)
  {
    var targetParentId := TargetOf(over);
    if IsFalsy(targetParentId) {
      return items;
    }
    var sourceParentId := active.parentId;
    var nextItems := Reparent(items, active.id, targetParentId);
    if sourceParentId == targetParentId {
      var orderedSiblings := ReorderSiblingIds(nextItems, targetParentId, active.id, over);
      var orderMap := BuildOrderMap(orderedSiblings);
      OrderMapUnique(orderedSiblings, orderMap);
      return ApplyOrderMap(nextItems, targetParentId, orderMap);
    }
    var sourceSiblings := Without(ChildrenOf(nextItems, sourceParentId), {active.id});
    var targetSiblings := FindEach(nextItems, ReorderSiblingIds(nextItems, targetParentId, active.id, over));
    var sourceOrderMap := BuildOrderMap(Ids(sourceSiblings));
    var targetOrderMap := BuildOrderMap(Ids(targetSiblings));
    OrderMapUnique(Ids(sourceSiblings), sourceOrderMap);
    OrderMapUnique(Ids(targetSiblings), targetOrderMap);
    r := ApplyTwoOrderMaps(nextItems, sourceParentId, sourceOrderMap, targetParentId, targetOrderMap);
  }

  /** Some child of `parentId` carries the id `x`. */
  predicate IsChildId(items: seq<Item>, parentId: Option<string>, x: string) {
    exists i :: 0 <= i < |items| && items[i].parentId == parentId && items[i].id == x
  }

  /**
   * When every child of `parentId` has as order the position of its id in a
   * list of distinct ids, and the list names only children of `parentId`,
   * `childrenOf` lists them in the sequence of that list.
   */
  lemma OrdersFollowList(items: seq<Item>, parentId: Option<string>, ids: seq<string>)
    requires DistinctIds(items)
    requires forall x, y :: 0 <= x < y < |ids| ==> ids[x] != ids[y]
    requires forall k :: 0 <= k < |ids| ==> IsChildId(items, parentId, ids[k])
    requires OrdersFromList(items, parentId, ids)
    ensures Ids(ChildrenOf(items, parentId)) == ids
    ensures forall k :: 0 <= k < |ids| ==> ChildrenOf(items, parentId)[k].order == k
  {
    var t := ListedIndices(items, parentId, ids);
    SortedUnique(items, SortedSiblings(items, parentId), t);
    ChildrenOfMembers(items, parentId);
  }

  /** The positions in `items` of the listed ids: a strictly sorted list of all children of `parentId`. */
  lemma ListedIndices(items: seq<Item>, parentId: Option<string>, ids: seq<string>) returns (t: seq<nat>)
    requires DistinctIds(items)
    requires forall x, y :: 0 <= x < y < |ids| ==> ids[x] != ids[y]
    requires forall k :: 0 <= k < |ids| ==> IsChildId(items, parentId, ids[k])
    requires OrdersFromList(items, parentId, ids)
    ensures |t| == |ids| && ValidIndices(items, t) && StrictlySorted(items, t)
    ensures forall i: nat :: i in t <==> i < |items| && items[i].parentId == parentId
    ensures forall k :: 0 <= k < |ids| ==> items[t[k]].id == ids[k] && items[t[k]].order == k
  {
    t := ListedPositions(items, parentId, ids);
    PositionsSorted(items, t);
    forall i: nat | i < |items| && items[i].parentId == parentId ensures i in t {
      var k := ListedPosition(items, parentId, ids, i);
      assert t[k] == i;
    }
  }

  /** `ids.map` to the position of each id in `items`: each a child of `parentId` whose order is the id's position. */
  lemma ListedPositions(items: seq<Item>, parentId: Option<string>, ids: seq<string>) returns (t: seq<nat>)
    requires DistinctIds(items)
    requires forall x, y :: 0 <= x < y < |ids| ==> ids[x] != ids[y]
    requires forall k :: 0 <= k < |ids| ==> IsChildId(items, parentId, ids[k])
    requires OrdersFromList(items, parentId, ids)
    ensures |t| == |ids|
    ensures forall k :: 0 <= k < |ids| ==>
              t[k] == IndexOfId(items, ids[k]) && t[k] < |items| && items[t[k]].parentId == parentId
              && items[t[k]].id == ids[k] && items[t[k]].order == k
  {
    t := seq(|ids|, k requires 0 <= k < |ids| => IndexOfId(items, ids[k]));
    forall k | 0 <= k < |ids|
      ensures t[k] < |items| && items[t[k]].parentId == parentId && items[t[k]].id == ids[k] && items[t[k]].order == k
    {
      ListedIndex(items, parentId, ids, k);
    }
  }

  /** Indices whose items have orders 0, 1, 2, ... are strictly sorted. */
  lemma PositionsSorted(items: seq<Item>, t: seq<nat>)
    requires forall k :: 0 <= k < |t| ==> t[k] < |items| && items[t[k]].order == k
    ensures ValidIndices(items, t) && StrictlySorted(items, t)
  {
  }

  /** A listed id is carried by a child of `parentId` whose order is the id's position. */
  lemma ListedIndex(items: seq<Item>, parentId: Option<string>, ids: seq<string>, k: nat)
    requires DistinctIds(items)
    requires forall x, y :: 0 <= x < y < |ids| ==> ids[x] != ids[y]
    requires k < |ids| && IsChildId(items, parentId, ids[k])
    requires OrdersFromList(items, parentId, ids)
    ensures var i := IndexOfId(items, ids[k]);
            i < |items| && items[i].parentId == parentId && items[i].id == ids[k] && items[i].order == k
  {
    var i :| 0 <= i < |items| && items[i].parentId == parentId && items[i].id == ids[k];
    IndexOfIdUnique(items, ids[k], i);
    OrderMapOfDistinct(ids, OrderMap(ids), k);
  }

  /** Every child of `parentId` is the item of some listed id. */
  lemma ListedPosition(items: seq<Item>, parentId: Option<string>, ids: seq<string>, i: nat) returns (k: nat)
    requires DistinctIds(items)
    requires OrdersFromList(items, parentId, ids)
    requires i < |items| && items[i].parentId == parentId
    ensures k < |ids| && IndexOfId(items, ids[k]) == i
  {
    var m := OrderMap(ids);
    k := m[items[i].id];
    IndexOfIdUnique(items, ids[k], i);
  }

  /** Every id `reorderSiblingIds` lists for the target names a child of the target after the drop. */
  lemma TargetIdsAreChildren(items: seq<Item>, a: nat, over: Item)
    requires DistinctIds(items) && a < |items| && !items[a].Group?
    requires !IsFalsy(TargetOf(over))
    ensures var target := TargetOf(over);
            var next := Reparent(items, items[a].id, target);
            ListsChildren(next, target, ReorderSiblingIds(next, target, items[a].id, over))
  {
    var active := items[a];
    var target := TargetOf(over);
    var next := Reparent(items, active.id, target);
    var ids := ReorderSiblingIds(next, target, active.id, over);
    ReparentKeepsDistinct(items, active.id, target);
    ReorderSiblingIdsDistinct(next, target, active.id, over);
    forall k | 0 <= k < |ids| ensures HasId(next, ids[k]) && IsChildId(next, target, ids[k]) {
      var j := ReorderedIdSource(next, target, active.id, over, k);
      if ids[k] == active.id {
        assert next[a].parentId == target && next[a].id == ids[k];
      } else {
        SiblingIdIsChild(next, target, active.id, j);
      }
    }
  }

  /** `ids` are distinct and each names a child of `parentId`. */
  predicate ListsChildren(items: seq<Item>, parentId: Option<string>, ids: seq<string>) {
    (forall x, y :: 0 <= x < y < |ids| ==> ids[x] != ids[y])
    && forall k :: 0 <= k < |ids| ==> HasId(items, ids[k]) && IsChildId(items, parentId, ids[k])
  }

  /** `r` is `next` with only orders changed, and `next` carries the ids of `items`. */
  predicate Relabelled(items: seq<Item>, next: seq<Item>, r: seq<Item>) {
    |next| == |items| && |r| == |items|
    && forall i :: 0 <= i < |items| ==>
         next[i].id == items[i].id && r[i].id == items[i].id && r[i].parentId == next[i].parentId
  }

  /** Every child of `parentId` has as order the position of its id in `ids`. */
  predicate OrdersFromList(items: seq<Item>, parentId: Option<string>, ids: seq<string>) {
    forall i :: 0 <= i < |items| && items[i].parentId == parentId ==>
      items[i].id in OrderMap(ids) && items[i].order == OrderMap(ids)[items[i].id]
  }

  /** Each id `reorderSiblingIds` lists is the dragged id or the `j`-th sibling id. */
  lemma ReorderedIdSource(items: seq<Item>, parentId: Option<string>, activeId: string, over: Item, k: nat) returns (j: nat)
    requires k < |ReorderSiblingIds(items, parentId, activeId, over)|
    ensures var ids := ReorderSiblingIds(items, parentId, activeId, over);
            var siblingIds := SiblingIdsWithout(items, parentId, activeId);
            ids[k] == activeId || (j < |siblingIds| && siblingIds[j] == ids[k])
  {
    var siblingIds := SiblingIdsWithout(items, parentId, activeId);
    var at := PlacementIndex(siblingIds, OverSibling(parentId, over));
    var ids := Insert(siblingIds, at, activeId);
    assert ids == ReorderSiblingIds(items, parentId, activeId, over);
    if k < at {
      j := k;
      assert ids[k] == ids[..at][k] == siblingIds[..at][k];
    } else if k > at {
      j := k - 1;
      assert ids[k] == ids[at + 1..][k - at - 1] == siblingIds[at..][k - at - 1];
    } else {
      j := 0;
    }
  }

  /** A drop leaves every item its id, and as its parent the one `Reparent` gave it. */
  lemma ChildDropKeepsParents(items: seq<Item>, active: Item, over: Item)
    requires !IsFalsy(TargetOf(over))
    ensures Relabelled(items, Reparent(items, active.id, TargetOf(over)), ChildDropResult(items, active, over))
  {
    var next := Reparent(items, active.id, TargetOf(over));
    var r := ChildDropResult(items, active, over);
    forall i | 0 <= i < |items| ensures next[i].id == items[i].id && r[i].id == items[i].id && r[i].parentId == next[i].parentId {
      assert r[i] == next[i].(order := r[i].order);
    }
  }

  /** Changing only orders keeps ids distinct and keeps every listed child a child. */
  lemma RelabelKeepsChildren(items: seq<Item>, next: seq<Item>, r: seq<Item>, target: Option<string>, ids: seq<string>)
    requires DistinctIds(items) && Relabelled(items, next, r)
    requires forall k :: 0 <= k < |ids| ==> IsChildId(next, target, ids[k])
    ensures DistinctIds(r)
    ensures forall k :: 0 <= k < |ids| ==> IsChildId(r, target, ids[k])
  {
    forall k | 0 <= k < |ids| ensures IsChildId(r, target, ids[k]) {
      assert IsChildId(next, target, ids[k]);
      var i :| 0 <= i < |next| && next[i].parentId == target && next[i].id == ids[k];
      assert r[i].parentId == target && r[i].id == ids[k];
    }
  }

  /**
   * With distinct ids, a dropped item ends up under the target group, whose
   * children are then listed exactly in the sequence `reorderSiblingIds`
   * gives, with orders 0 .. n-1.
   */
  lemma ChildDropListsTarget(items: seq<Item>, a: nat, over: Item)
    requires DistinctIds(items) && a < |items| && !items[a].Group?
    requires !IsFalsy(TargetOf(over))
    ensures var r := ChildDropResult(items, items[a], over);
            var target := TargetOf(over);
            var ids := ReorderSiblingIds(Reparent(items, items[a].id, target), target, items[a].id, over);
            r[a].parentId == target
            && Ids(ChildrenOf(r, target)) == ids
            && forall k :: 0 <= k < |ids| ==> ChildrenOf(r, target)[k].order == k
  {
    var active := items[a];
    var target := TargetOf(over);
    var next := Reparent(items, active.id, target);
    var r := ChildDropResult(items, active, over);
    var ids := ReorderSiblingIds(next, target, active.id, over);
    TargetIdsAreChildren(items, a, over);
    ChildDropKeepsParents(items, active, over);
    TargetOrders(items, a, over);
    RelabelFollowsList(items, next, r, target, ids);
  }

  /**
   * When only orders change and every child of `target` takes the position of
   * its id in a list of distinct child ids, `childrenOf` follows that list.
   */
  lemma RelabelFollowsList(items: seq<Item>, next: seq<Item>, r: seq<Item>, target: Option<string>, ids: seq<string>)
    requires DistinctIds(items) && Relabelled(items, next, r)
    requires ListsChildren(next, target, ids) && OrdersFromList(r, target, ids)
    ensures Ids(ChildrenOf(r, target)) == ids
    ensures forall k :: 0 <= k < |ids| ==> ChildrenOf(r, target)[k].order == k
  {
    RelabelKeepsChildren(items, next, r, target, ids);
    OrdersFollowList(r, target, ids);
  }

  /** After `Reparent`, every child of the target is listed by `reorderSiblingIds`. */
  lemma TargetChildrenListed(items: seq<Item>, a: nat, over: Item)
    requires DistinctIds(items) && a < |items| && !items[a].Group?
    requires !IsFalsy(TargetOf(over))
    ensures var target := TargetOf(over);
            var next := Reparent(items, items[a].id, target);
            var ids := ReorderSiblingIds(next, target, items[a].id, over);
            forall i :: 0 <= i < |next| && next[i].parentId == target ==> next[i].id in ids
  {
    var active := items[a];
    var target := TargetOf(over);
    var next := Reparent(items, active.id, target);
    ReparentKeepsDistinct(items, active.id, target);
    ReorderSiblingIdsDistinct(next, target, active.id, over);
    forall i | 0 <= i < |next| && next[i].parentId == target && next[i].id != active.id
      ensures next[i].id in SiblingIdsWithout(next, target, active.id)
    {
      ChildInSiblingIds(next, target, active.id, i);
    }
  }

  /** Renumbering by the order map of a list that names every child gives each child its position. */
  lemma ApplyOrderMapFollowsList(items: seq<Item>, parentId: Option<string>, ids: seq<string>)
    requires forall i :: 0 <= i < |items| && items[i].parentId == parentId ==> items[i].id in ids
    ensures var r := ApplyOrderMap(items, parentId, OrderMap(ids));
            forall i :: 0 <= i < |r| && r[i].parentId == parentId ==>
              r[i].id in OrderMap(ids) && r[i].order == OrderMap(ids)[r[i].id]
  {
  }

  /** The same with two parents: the target's children take their positions in the target list. */
  lemma ApplyTwoOrderMapsFollowsList(items: seq<Item>, source: Option<string>, sourceIds: seq<string>,
                                     target: Option<string>, ids: seq<string>)
    requires source != target
    requires forall i :: 0 <= i < |items| && items[i].parentId == target ==> items[i].id in ids
    ensures var r := ApplyTwoOrderMaps(items, source, OrderMap(sourceIds), target, OrderMap(ids));
            forall i :: 0 <= i < |r| && r[i].parentId == target ==>
              r[i].id in OrderMap(ids) && r[i].order == OrderMap(ids)[r[i].id]
  {
  }

  /** After the drop, every child of the target has as order the position of its id in the reordered list. */
  lemma TargetOrders(items: seq<Item>, a: nat, over: Item)
    requires DistinctIds(items) && a < |items| && !items[a].Group?
    requires !IsFalsy(TargetOf(over))
    ensures var r := ChildDropResult(items, items[a], over);
            var target := TargetOf(over);
            OrdersFromList(r, target, ReorderSiblingIds(Reparent(items, items[a].id, target), target, items[a].id, over))
  {
    var active := items[a];
    var target := TargetOf(over);
    var next := Reparent(items, active.id, target);
    var ids := ReorderSiblingIds(next, target, active.id, over);
    TargetChildrenListed(items, a, over);
    if active.parentId == target {
      ApplyOrderMapFollowsList(next, target, ids);
    } else {
      TargetIdsAreChildren(items, a, over);
      assert Ids(FindEach(next, ids)) == ids;
      ApplyTwoOrderMapsFollowsList(next, active.parentId, Ids(Without(ChildrenOf(next, active.parentId), {active.id})), target, ids);
    }
  }

  /** Filtering out the id of the `q`-th item of a list with distinct ids removes exactly that entry. */
  lemma {:induction false} WithoutAt(xs: seq<Item>, q: nat, id: string)
    requires DistinctIds(xs) && q < |xs| && xs[q].id == id
    ensures Without(xs, {id}) == xs[..q] + xs[q + 1..]
  {
    DistinctTail(xs);
    if q == 0 {
      WithoutNone(xs[1..], id);
    } else {
      assert xs[0].id != xs[q].id;
      WithoutAt(xs[1..], q - 1, id);
      assert xs[1..][..q - 1] + xs[1..][q..] == xs[1..q] + xs[q + 1..];
      assert xs[..q] == [xs[0]] + xs[1..q];
    }
  }

  /** The tail of a list with distinct ids has distinct ids, none of them the head's. */
  lemma DistinctTail(xs: seq<Item>)
    requires DistinctIds(xs) && xs != []
    ensures DistinctIds(xs[1..]) && !HasId(xs[1..], xs[0].id)
  {
    var tail := xs[1..];
    forall i | 0 <= i < |tail| ensures tail[i].id != xs[0].id {
      assert tail[i] == xs[i + 1];
    }
    forall i, j | 0 <= i < j < |tail| ensures tail[i].id != tail[j].id {
      assert tail[i] == xs[i + 1] && tail[j] == xs[j + 1];
    }
  }

  /** `s` with the entry at `q` dropped. */
  function DropAt(s: seq<nat>, q: nat): (t: seq<nat>)
    requires q < |s|
    ensures |t| == |s| - 1
    ensures forall k :: 0 <= k < |t| ==> t[k] == s[if k < q then k else k + 1]
  {
    s[..q] + s[q + 1..]
  }

  /**
   * Dropping the entry `a` from the sorted siblings of `p` gives a list that
   * is still sorted once `a` has left `p`, holding the indices of the others.
   */
  lemma SortedSiblingsAfterLeaving(items: seq<Item>, next: seq<Item>, a: nat, q: nat)
    requires a < |items| && |next| == |items|
    requires forall i :: 0 <= i < |items| ==> next[i].order == items[i].order
    requires forall i :: 0 <= i < |items| && i != a ==> next[i].parentId == items[i].parentId
    requires next[a].parentId != items[a].parentId
    requires var s := SortedSiblings(items, items[a].parentId); q < |s| && s[q] == a
    ensures var s := SortedSiblings(items, items[a].parentId);
            ValidIndices(next, DropAt(s, q)) && StrictlySorted(next, DropAt(s, q))
            && forall i: nat :: i in DropAt(s, q) <==> i < |next| && next[i].parentId == items[a].parentId
  {
    var s := SortedSiblings(items, items[a].parentId);
    var t := DropAt(s, q);
    forall x, y | 0 <= x < y < |t| ensures Before(next, t[x], t[y]) {
      assert Before(items, s[if x < q then x else x + 1], s[if y < q then y else y + 1]);
    }
    SortedNoDuplicates(items, s);
    DropAtMembers(items, next, s, a, q);
  }

  /** The entries left after dropping `a` are the indices still under the parent `a` left. */
  lemma DropAtMembers(items: seq<Item>, next: seq<Item>, s: seq<nat>, a: nat, q: nat)
    requires a < |items| && |next| == |items|
    requires forall i :: 0 <= i < |items| && i != a ==> next[i].parentId == items[i].parentId
    requires next[a].parentId != items[a].parentId
    requires forall i: nat :: i in s <==> i < |items| && items[i].parentId == items[a].parentId
    requires NoDuplicates(s) && q < |s| && s[q] == a
    ensures forall i: nat :: i in DropAt(s, q) <==> i < |next| && next[i].parentId == items[a].parentId
  {
    var p := items[a].parentId;
    var t := DropAt(s, q);
    forall i: nat ensures i in t <==> i < |next| && next[i].parentId == p {
      if i in t {
        var k :| 0 <= k < |t| && t[k] == i;
        assert i in s && i != a;
      }
      if i < |next| && next[i].parentId == p {
        assert i in s && i != a;
        var k :| 0 <= k < |s| && s[k] == i;
        assert k != q;
        assert t[if k < q then k else k - 1] == i;
      }
    }
  }

  /**
   * When the item at `a` alone moves to another parent, the children of the
   * parent it left are its old children without it, in the same order.
   */
  lemma ChildrenAfterLeaving(items: seq<Item>, a: nat, target: Option<string>)
    requires DistinctIds(items) && a < |items| && items[a].parentId != target
    ensures var p := items[a].parentId;
            ChildrenOf(Reparent(items, items[a].id, target), p) == Without(ChildrenOf(items, p), {items[a].id})
  {
    var p := items[a].parentId;
    var id := items[a].id;
    var next := Reparent(items, id, target);
    var s := SortedSiblings(items, p);
    assert a in s;
    var q :| 0 <= q < |s| && s[q] == a;
    forall i | 0 <= i < |items| && i != a ensures next[i] == items[i] {
      assert items[i].id != id;
    }
    SortedSiblingsAfterLeaving(items, next, a, q);
    SortedUnique(next, DropAt(s, q), SortedSiblings(next, p));
    var before := ChildrenOf(items, p);
    ChildrenOfDistinct(items, p);
    ChildrenOfMembers(items, p);
    WithoutAt(before, q, id);
    SortedNoDuplicates(items, s);
    MapDropAt(items, next, s, q, a);
  }

  /** Reading the list with its entry `a` dropped from `next`, which agrees with `items` away from `a`. */
  lemma MapDropAt(items: seq<Item>, next: seq<Item>, s: seq<nat>, q: nat, a: nat)
    requires |next| == |items| && ValidIndices(items, s) && NoDuplicates(s) && q < |s| && s[q] == a
    requires forall i :: 0 <= i < |items| && i != a ==> next[i] == items[i]
    ensures var before := seq(|s|, k requires 0 <= k < |s| => items[s[k]]);
            var t := DropAt(s, q);
            seq(|t|, k requires 0 <= k < |t| => next[t[k]]) == before[..q] + before[q + 1..]
  {
    var before := seq(|s|, k requires 0 <= k < |s| => items[s[k]]);
    var t := DropAt(s, q);
    var after := seq(|t|, k requires 0 <= k < |t| => next[t[k]]);
    forall k | 0 <= k < |t| ensures after[k] == (before[..q] + before[q + 1..])[k] {
      assert t[k] != a;
    }
  }

  /** With a different source parent, each remaining child of the source takes its order from the source map. */
  lemma ApplyTwoOrderMapsFollowsSource(items: seq<Item>, source: Option<string>, sourceIds: seq<string>,
                                       target: Option<string>, targetIds: seq<string>)
    requires forall i :: 0 <= i < |items| && items[i].parentId == source ==> items[i].id in sourceIds
    ensures var r := ApplyTwoOrderMaps(items, source, OrderMap(sourceIds), target, OrderMap(targetIds));
            OrdersFromList(r, source, sourceIds)
  {
  }

  /**
   * With distinct ids, a drop into another group leaves the group the item
   * came from with its old children minus the dragged one, in the same
   * sequence, renumbered 0 .. m-1.
   */
  lemma ChildDropRenumbersSource(items: seq<Item>, a: nat, over: Item)
    requires DistinctIds(items) && a < |items| && !items[a].Group?
    requires !IsFalsy(TargetOf(over)) && items[a].parentId != TargetOf(over)
    ensures var r := ChildDropResult(items, items[a], over);
            var source := items[a].parentId;
            var left := Without(ChildrenOf(items, source), {items[a].id});
            Ids(ChildrenOf(r, source)) == Ids(left)
            && forall k :: 0 <= k < |left| ==> ChildrenOf(r, source)[k].order == k
  {
    var active := items[a];
    var source := active.parentId;
    var target := TargetOf(over);
    var next := Reparent(items, active.id, target);
    var r := ChildDropResult(items, active, over);
    var sourceIds := SiblingIdsWithout(next, source, active.id);
    ReparentKeepsDistinct(items, active.id, target);
    SiblingIdsListChildren(next, source, active.id);
    SourceOrders(items, a, over);
    ChildDropKeepsParents(items, active, over);
    RelabelFollowsList(items, next, r, source, sourceIds);
    ChildrenAfterLeaving(items, a, target);
    WithoutNone(ChildrenOf(next, source), active.id) by {
      ChildrenOfMembers(next, source);
    }
  }

  /** After a drop into another group, every child left under the source takes its position among the sibling ids as order. */
  lemma SourceOrders(items: seq<Item>, a: nat, over: Item)
    requires DistinctIds(items) && a < |items| && !items[a].Group?
    requires !IsFalsy(TargetOf(over)) && items[a].parentId != TargetOf(over)
    ensures var next := Reparent(items, items[a].id, TargetOf(over));
            OrdersFromList(ChildDropResult(items, items[a], over), items[a].parentId,
                           SiblingIdsWithout(next, items[a].parentId, items[a].id))
  {
    var active := items[a];
    var target := TargetOf(over);
    var next := Reparent(items, active.id, target);
    SourceChildrenListed(items, a, target);
    ApplyTwoOrderMapsFollowsSource(next, active.parentId, SiblingIdsWithout(next, active.parentId, active.id),
                                   target, Ids(FindEach(next, ReorderSiblingIds(next, target, active.id, over))));
  }

  /** The sibling ids of a parent, the dragged one left out, are distinct children of it. */
  lemma SiblingIdsListChildren(items: seq<Item>, parentId: Option<string>, activeId: string)
    requires DistinctIds(items)
    ensures ListsChildren(items, parentId, SiblingIdsWithout(items, parentId, activeId))
  {
    var sourceIds := SiblingIdsWithout(items, parentId, activeId);
    var without := Without(ChildrenOf(items, parentId), {activeId});
    ChildrenOfDistinct(items, parentId);
    WithoutKeepsDistinct(ChildrenOf(items, parentId), {activeId});
    DistinctIdList(without);
    forall k | 0 <= k < |sourceIds| ensures HasId(items, sourceIds[k]) && IsChildId(items, parentId, sourceIds[k]) {
      SiblingIdIsChild(items, parentId, activeId, k);
    }
  }

  /** Once the dragged item has moved to another parent, every child left under its old parent is a sibling id. */
  lemma SourceChildrenListed(items: seq<Item>, a: nat, target: Option<string>)
    requires DistinctIds(items) && a < |items| && items[a].parentId != target
    ensures var next := Reparent(items, items[a].id, target);
            forall i :: 0 <= i < |next| && next[i].parentId == items[a].parentId ==>
              next[i].id in SiblingIdsWithout(next, items[a].parentId, items[a].id)
  {
    var next := Reparent(items, items[a].id, target);
    forall i | 0 <= i < |next| && next[i].parentId == items[a].parentId
      ensures next[i].id in SiblingIdsWithout(next, items[a].parentId, items[a].id)
    {
      assert next[i].id != items[a].id;
      ChildInSiblingIds(next, items[a].parentId, items[a].id, i);
    }
  }

  /**
   * The same item by item: the `k`-th child of the source group after the
   * drop is its `k`-th remaining child before it, with order `k`.
   */
  lemma ChildDropSourceChildren(items: seq<Item>, a: nat, over: Item)
    requires DistinctIds(items) && a < |items| && !items[a].Group?
    requires !IsFalsy(TargetOf(over)) && items[a].parentId != TargetOf(over)
    ensures var r := ChildDropResult(items, items[a], over);
            var source := items[a].parentId;
            var left := Without(ChildrenOf(items, source), {items[a].id});
            |ChildrenOf(r, source)| == |left|
            && forall k :: 0 <= k < |left| ==> ChildrenOf(r, source)[k] == left[k].(order := k)
  {
    var active := items[a];
    var source := active.parentId;
    var r := ChildDropResult(items, active, over);
    var left := Without(ChildrenOf(items, source), {active.id});
    ChildDropRenumbersSource(items, a, over);
    ChildDropRelabelsOthers(items, active, over);
    forall k | 0 <= k < |left| ensures ChildrenOf(r, source)[k] == left[k].(order := k) {
      assert Ids(ChildrenOf(r, source))[k] == Ids(left)[k];
      assert left[k] in ChildrenOf(items, source);
      RelabelledItem(items, r, active.id, ChildrenOf(r, source)[k], left[k]);
    }
  }

  /** A child drop keeps every id in place, and changes no other item than the dragged one but in its order. */
  lemma ChildDropRelabelsOthers(items: seq<Item>, active: Item, over: Item)
    ensures var r := ChildDropResult(items, active, over);
            forall i :: 0 <= i < |items| ==>
              r[i].id == items[i].id && (items[i].id != active.id ==> r[i] == items[i].(order := r[i].order))
  {
    var target := TargetOf(over);
    if !IsFalsy(target) {
      var next := Reparent(items, active.id, target);
      var r := ChildDropResult(items, active, over);
      forall i | 0 <= i < |items| ensures r[i] == next[i].(order := r[i].order) {
      }
    }
  }

  /**
   * In a list that keeps the ids of a list with distinct ids and changes
   * nothing but orders away from `activeId`, the item carrying another id is
   * the old item carrying it, up to its order.
   */
  lemma RelabelledItem(items: seq<Item>, r: seq<Item>, activeId: string, x: Item, y: Item)
    requires DistinctIds(items) && |r| == |items|
    requires forall i :: 0 <= i < |items| ==>
               r[i].id == items[i].id && (items[i].id != activeId ==> r[i] == items[i].(order := r[i].order))
    requires x in r && y in items && x.id == y.id && y.id != activeId
    ensures x == y.(order := x.order)
  {
    var i :| 0 <= i < |r| && r[i] == x;
    var j :| 0 <= j < |items| && items[j] == y;
    assert items[i].id == items[j].id;
  }

  /** A child drop leaves every item whose parent is neither the source nor the target group as it was. */
  lemma ChildDropKeepsOtherParents(items: seq<Item>, a: nat, over: Item)
    requires DistinctIds(items) && a < |items| && !items[a].Group?
    ensures var r := ChildDropResult(items, items[a], over);
            forall i :: 0 <= i < |items| && items[i].parentId != items[a].parentId && items[i].parentId != TargetOf(over) ==>
              r[i] == items[i]
  {
    var active := items[a];
    var target := TargetOf(over);
    if !IsFalsy(target) {
      var next := Reparent(items, active.id, target);
      var r := ChildDropResult(items, active, over);
      forall i | 0 <= i < |items| && items[i].parentId != active.parentId && items[i].parentId != target
        ensures r[i] == items[i]
      {
        assert items[i].id != active.id;
        assert next[i] == items[i];
      }
    }
  }

  // ---------------------------------------------------------------------------
  // Dispatch

  /** What `moveItemByDrop` returns. */
  function DropResult(items: seq<Item>, activeId: string, overId: string): (r: seq<Item>)
    ensures |r| == |items|
  {
    var a := IndexOfId(items, activeId);
    var o := IndexOfId(items, overId);
    if activeId == overId || a == |items| || o == |items| then items
    else if items[a].Group? then GroupDropResult(items, items[a], items[o])
    else ChildDropResult(items, items[a], items[o])
  }

  /**
   * `moveItemByDrop`: drops the item `activeId` on the item `overId`; a
   * no-op when they are the same or either is missing.
   */
  method MoveItemByDrop(items: seq<Item>, activeId: string, overId: string) returns (r: seq<Item>)
    ensures r == DropResult(items, activeId, overId)
    ensures activeId == overId || !HasId(items, activeId) || !HasId(items, overId) ==> r == items
  {
    if activeId == overId {
      return items;
    }
    var a := IndexOfId(items, activeId);
    var o := IndexOfId(items, overId);
    if a == |items| || o == |items| {
      return items;
    }
    if items[a].Group? {
      r := MoveGroupByDrop(items, items[a], items[o]);
    } else {
      r := MoveChildByDrop(items, items[a], items[o]);
    }
  }

  /** A drop never adds or removes items, nor changes anything but orders and the dragged item's parent. */
  lemma DropKeepsItems(items: seq<Item>, activeId: string, overId: string)
    ensures var r := DropResult(items, activeId, overId);
            forall i :: 0 <= i < |items| ==>
              r[i] == items[i].(order := r[i].order, parentId := r[i].parentId)
              && (items[i].id != activeId ==> r[i].parentId == items[i].parentId)
  {
    var r := DropResult(items, activeId, overId);
    var a := IndexOfId(items, activeId);
    var o := IndexOfId(items, overId);
    if activeId != overId && a < |items| && o < |items| && !items[a].Group? {
      var target := TargetOf(items[o]);
      if !IsFalsy(target) {
        var next := Reparent(items, activeId, target);
        forall i | 0 <= i < |items| ensures r[i] == next[i].(order := r[i].order) {
        }
      }
    }
  }

  /** A drop keeps the ids of a collection distinct. */
  lemma DropKeepsDistinct(items: seq<Item>, activeId: string, overId: string)
    requires DistinctIds(items)
    ensures DistinctIds(DropResult(items, activeId, overId))
  {
    var r := DropResult(items, activeId, overId);
    DropKeepsItems(items, activeId, overId);
    forall i, j | 0 <= i < j < |r| ensures r[i].id != r[j].id {
      assert r[i].id == items[i].id && r[j].id == items[j].id;
    }
  }

  /**
   * `moveItemByDrop` of a tab or file onto an item of another group: the
   * group it left keeps its other children in sequence, renumbered 0 .. m-1,
   * and every item under neither group is untouched.
   */
  lemma DropIntoOtherGroup(items: seq<Item>, a: nat, o: nat)
    requires DistinctIds(items) && a < |items| && o < |items| && a != o
    requires !items[a].Group? && !IsFalsy(TargetOf(items[o])) && items[a].parentId != TargetOf(items[o])
    ensures var r := DropResult(items, items[a].id, items[o].id);
            var source := items[a].parentId;
            var left := Without(ChildrenOf(items, source), {items[a].id});
            |ChildrenOf(r, source)| == |left|
            && (forall k :: 0 <= k < |left| ==> ChildrenOf(r, source)[k] == left[k].(order := k))
            && forall i :: 0 <= i < |items| && items[i].parentId != source && items[i].parentId != TargetOf(items[o]) ==>
                 r[i] == items[i]
  {
    IndexOfIdUnique(items, items[a].id, a);
    IndexOfIdUnique(items, items[o].id, o);
    ChildDropSourceChildren(items, a, items[o]);
    ChildDropKeepsOtherParents(items, a, items[o]);
  }
}
