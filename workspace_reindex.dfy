/**
 * Renumbering sibling orders (`reindexAllParents`) and removing an item with
 * everything below it (`removeWorkspaceItem`). Both are written, as in the
 * UI, as loops that rebuild the item list step by step.
 */
module WorkspaceReindex {
  import opened Wrappers
  import opened Workspace

  /** The key under which root items are grouped while reindexing. */
  const RootKey: string := "__root__"

  /** `item.parentId ?? "__root__"`. */
  function KeyOf(parentId: Option<string>): string {
    if parentId.None? then RootKey else parentId.value
  }

  /** `key === "__root__" ? null : key`. */
  function ParentOfKey(key: string): Option<string> {
    if key == RootKey then None else Some(key)
  }

  /** Every parent except the sentinel itself comes back from its key. */
  lemma KeyRoundTrip(parentId: Option<string>)
    ensures parentId != Some(RootKey) <==> ParentOfKey(KeyOf(parentId)) == parentId
  {
  }

  /** The ids of a list of items, in order. */
  function Ids(items: seq<Item>): (ids: seq<string>)
    ensures |ids| == |items| && forall k :: 0 <= k < |items| ==> ids[k] == items[k].id
  {
    seq(|items|, k requires 0 <= k < |items| => items[k].id)
  }

  // ---------------------------------------------------------------------------
  // Order maps

  /**
   * `m` maps every id of `ids` to the LAST position at which it occurs: what
   * a loop of `map.set(ids[index], index)` leaves behind.
   */
  ghost predicate IsOrderMap(ids: seq<string>, m: map<string, nat>) {
    (forall x :: x in m <==> x in ids)
    && forall x :: x in m ==> m[x] < |ids| && ids[m[x]] == x && forall k :: m[x] < k < |ids| ==> ids[k] != x
  }

  /** Position of the last occurrence of `x` in `ids`. */
  function LastIndex(ids: seq<string>, x: string): (k: nat)
    requires x in ids
    ensures k < |ids| && ids[k] == x
    ensures forall j :: k < j < |ids| ==> ids[j] != x
  {
    if ids[|ids| - 1] == x then |ids| - 1 else LastIndex(ids[..|ids| - 1], x)
  }

  /** The order map of `ids`, as a value. */
  function OrderMap(ids: seq<string>): (m: map<string, nat>)
    ensures IsOrderMap(ids, m)
  {
    map x | x in ids :: LastIndex(ids, x)
  }

  /** There is only one order map of a list of ids. */
  lemma OrderMapUnique(ids: seq<string>, m: map<string, nat>)
    requires IsOrderMap(ids, m)
    ensures m == OrderMap(ids)
  {
    var o := OrderMap(ids);
    assert forall x :: x in m ==> m[x] == o[x];
  }

  /** Setting the next id to its position extends an order map by one entry. */
  lemma OrderMapStep(ids: seq<string>, index: nat, m: map<string, nat>)
    requires index < |ids| && IsOrderMap(ids[..index], m)
    ensures IsOrderMap(ids[..index + 1], m[ids[index] := index])
  {
    assert ids[..index + 1] == ids[..index] + [ids[index]];
  }

  /** `buildOrderMap`: position of each id in `ids`, a later occurrence overwriting an earlier one. */
  method BuildOrderMap(ids: seq<string>) returns (m: map<string, nat>)
    ensures IsOrderMap(ids, m)
  {
    m := map[];
    var index := 0;
    while index < |ids|
      invariant 0 <= index <= |ids|
      invariant IsOrderMap(ids[..index], m)
    {
      m := m[ids[index] := index];
      index := index + 1;
    }
    assert ids[..index] == ids;
  }

  /** Over ids that occur once each, the order map gives each id its position. */
  lemma OrderMapOfDistinct(ids: seq<string>, m: map<string, nat>, k: nat)
    requires IsOrderMap(ids, m)
    requires forall a, b :: 0 <= a < b < |ids| ==> ids[a] != ids[b]
    requires k < |ids|
    ensures ids[k] in m && m[ids[k]] == k
  {
    assert ids[k] in ids;
  }

  /** The list with order `m[id]` on each item under `parentId` whose id `m` holds. */
  function ApplyOrderMap(items: seq<Item>, parentId: Option<string>, m: map<string, nat>): (r: seq<Item>)
    ensures |r| == |items|
    ensures forall i :: 0 <= i < |items| ==> r[i] == items[i].(order := r[i].order)
    ensures forall i :: 0 <= i < |items| && (items[i].parentId != parentId || items[i].id !in m) ==> r[i] == items[i]
    ensures forall i :: 0 <= i < |items| && items[i].parentId == parentId && items[i].id in m ==>
              r[i].order == m[items[i].id]
  {
    seq(|items|, i requires 0 <= i < |items| =>
      if items[i].parentId == parentId && items[i].id in m then items[i].(order := m[items[i].id]) else items[i])
  }

  // ---------------------------------------------------------------------------
  // Ranks are determined by the sibling group alone

  /**
   * Two lists that agree on parents everywhere and on orders under `parentId`
   * sort the children of `parentId` identically.
   */
  lemma SameGroupSameRank(a: seq<Item>, b: seq<Item>, parentId: Option<string>)
    requires |a| == |b|
    requires forall i :: 0 <= i < |a| ==> a[i].parentId == b[i].parentId
    requires forall i :: 0 <= i < |a| && a[i].parentId == parentId ==> a[i].order == b[i].order
    ensures SortedSiblings(a, parentId) == SortedSiblings(b, parentId)
    ensures forall i :: 0 <= i < |a| && a[i].parentId == parentId ==> Rank(a, i) == Rank(b, i)
  {
    var s := SortedSiblings(b, parentId);
    assert ValidIndices(a, s);
    forall x, y | 0 <= x < y < |s| ensures Before(a, s[x], s[y]) {
      assert Before(b, s[x], s[y]);
    }
    SortedUnique(a, SortedSiblings(a, parentId), s);
    forall i | 0 <= i < |a| && a[i].parentId == parentId ensures Rank(a, i) == Rank(b, i) {
      RankBound(b, i);
      RankIsPosition(a, parentId, Rank(b, i));
    }
  }

  /** With distinct ids, the order map of the sorted children gives each child its rank. */
  lemma OrderMapGivesRank(items: seq<Item>, i: nat, m: map<string, nat>)
    requires DistinctIds(items) && i < |items|
    requires IsOrderMap(Ids(ChildrenOf(items, items[i].parentId)), m)
    ensures items[i].id in m && m[items[i].id] == Rank(items, i)
  {
    var p := items[i].parentId;
    var s := SortedSiblings(items, p);
    var ids := Ids(ChildrenOf(items, p));
    RankBound(items, i);
    ChildrenOfMembers(items, p);
    SortedNoDuplicates(items, s);
    forall x, y | 0 <= x < y < |ids| ensures ids[x] != ids[y] {
      assert ids[x] == items[s[x]].id && ids[y] == items[s[y]].id;
    }
    OrderMapOfDistinct(ids, m, Rank(items, i));
  }

  // ---------------------------------------------------------------------------
  // reindexAllParents

  /** Order given to item `i` by reindexing: its rank, except under the sentinel parent, which is skipped. */
  function ReindexedOrder(items: seq<Item>, i: nat): int
    requires i < |items|
  {
    if items[i].parentId == Some(RootKey) then items[i].order else Rank(items, i)
  }

  /** Every item renumbered to its position among its siblings. */
  function Reindexed(items: seq<Item>): (r: seq<Item>)
    ensures |r| == |items|
  {
    seq(|items|, i requires 0 <= i < |items| => items[i].(order := ReindexedOrder(items, i)))
  }

  /** Reindexing never changes which items are listed under a parent, nor their sequence. */
  lemma ReindexedKeepsSiblingOrder(items: seq<Item>, parentId: Option<string>)
    ensures SortedSiblings(Reindexed(items), parentId) == SortedSiblings(items, parentId)
  {
    var r := Reindexed(items);
    if parentId == Some(RootKey) {
      SameGroupSameRank(r, items, parentId);
    } else {
      var s := SortedSiblings(items, parentId);
      assert ValidIndices(r, s);
      forall x, y | 0 <= x < y < |s| ensures Before(r, s[x], s[y]) {
        assert Before(items, s[x], s[y]);
        RankMonotone(items, s[x], s[y]);
      }
      SortedUnique(r, SortedSiblings(r, parentId), s);
    }
  }

  /** After reindexing, the k-th child of any parent but the sentinel has order k. */
  lemma ReindexedChildren(items: seq<Item>, parentId: Option<string>)
    requires parentId != Some(RootKey)
    ensures |ChildrenOf(Reindexed(items), parentId)| == |ChildrenOf(items, parentId)|
    ensures forall k :: 0 <= k < |ChildrenOf(items, parentId)| ==>
              ChildrenOf(Reindexed(items), parentId)[k] == ChildrenOf(items, parentId)[k].(order := k)
  {
    ReindexedKeepsSiblingOrder(items, parentId);
    forall k | 0 <= k < |ChildrenOf(items, parentId)|
      ensures ChildrenOf(Reindexed(items), parentId)[k] == ChildrenOf(items, parentId)[k].(order := k)
    {
      RankIsPosition(items, parentId, k);
    }
  }

  /** Reindexed orders run from 0 to the number of siblings minus one, without repetition. */
  lemma ReindexedContiguous(items: seq<Item>, i: nat, j: nat)
    requires i < |items| && j < |items| && i != j
    requires items[i].parentId == items[j].parentId && items[i].parentId != Some(RootKey)
    ensures 0 <= Reindexed(items)[i].order < |ChildrenOf(items, items[i].parentId)|
    ensures Reindexed(items)[i].order != Reindexed(items)[j].order
  {
    RankBound(items, i);
    RankMonotone(items, i, j);
    RankMonotone(items, j, i);
  }

  /** Reindexing a reindexed list changes nothing. */
  lemma ReindexedIdempotent(items: seq<Item>)
    ensures Reindexed(Reindexed(items)) == Reindexed(items)
  {
    var r := Reindexed(items);
    forall i | 0 <= i < |items| && items[i].parentId != Some(RootKey) ensures Rank(r, i) == Rank(items, i) {
      var p := items[i].parentId;
      ReindexedKeepsSiblingOrder(items, p);
      RankBound(items, i);
      RankIsPosition(r, p, Rank(items, i));
    }
    assert forall i :: 0 <= i < |items| ==> Reindexed(r)[i] == r[i];
  }

  /** Keys of the parents present in `items`, each once (a `Set` of `parentId ?? "__root__"`). */
  method ParentKeys(items: seq<Item>) returns (keys: seq<string>)
    ensures forall a, b :: 0 <= a < b < |keys| ==> keys[a] != keys[b]
    ensures forall i :: 0 <= i < |items| ==> KeyOf(items[i].parentId) in keys
    ensures forall key :: key in keys ==> exists i :: 0 <= i < |items| && KeyOf(items[i].parentId) == key
  {
    keys := [];
    var n := 0;
    while n < |items|
      invariant 0 <= n <= |items|
      invariant forall a, b :: 0 <= a < b < |keys| ==> keys[a] != keys[b]
      invariant forall i :: 0 <= i < n ==> KeyOf(items[i].parentId) in keys
      invariant forall key :: key in keys ==> exists i :: 0 <= i < n && KeyOf(items[i].parentId) == key
    {
      var key := KeyOf(items[n].parentId);
      if key !in keys {
        keys := keys + [key];
      }
      n := n + 1;
    }
  }

  /** Item `i` is under a parent whose key is among `done` (and is not the sentinel parent). */
  predicate Done(items: seq<Item>, i: nat, done: seq<string>)
    requires i < |items|
  {
    items[i].parentId != Some(RootKey) && KeyOf(items[i].parentId) in done
  }

  /** The state `reindexAllParents` reaches once the parents of `done` are renumbered. */
  predicate ReindexedUpTo(items: seq<Item>, r: seq<Item>, done: seq<string>) {
    |r| == |items|
    && (forall i :: 0 <= i < |items| ==> r[i] == items[i].(order := r[i].order))
    && (DistinctIds(items) ==>
          forall i :: 0 <= i < |items| ==> r[i].order == if Done(items, i, done) then Rank(items, i) else items[i].order)
  }

  /** One round of the loop of `reindexAllParents` renumbers one more parent. */
  lemma ReindexStep(items: seq<Item>, r: seq<Item>, done: seq<string>, key: string, m: map<string, nat>)
    requires ReindexedUpTo(items, r, done) && key !in done
    requires IsOrderMap(Ids(ChildrenOf(r, ParentOfKey(key))), m)
    ensures ReindexedUpTo(items, ApplyOrderMap(r, ParentOfKey(key), m), done + [key])
  {
    var p := ParentOfKey(key);
    var next := ApplyOrderMap(r, p, m);
    if DistinctIds(items) {
      assert DistinctIds(r);
      SameGroupSameRank(r, items, p);
      forall i | 0 <= i < |items|
        ensures next[i].order == if Done(items, i, done + [key]) then Rank(items, i) else items[i].order
      {
        if items[i].parentId == p {
          OrderMapGivesRank(r, i, m);
        }
      }
    }
  }

  /**
   * `reindexAllParents`: for every parent present, renumbers its children
   * 0, 1, 2, ... in the order `childrenOf` lists them. Items whose parent id
   * is the sentinel string itself are never renumbered.
   */
  method ReindexAllParents(items: seq<Item>) returns (r: seq<Item>)
    ensures |r| == |items|
    ensures forall i :: 0 <= i < |items| ==> r[i] == items[i].(order := r[i].order)
    ensures DistinctIds(items) ==> r == Reindexed(items)
  {
    var keys := ParentKeys(items);
    r := items;
    var k := 0;
    while k < |keys|
      invariant 0 <= k <= |keys|
      invariant ReindexedUpTo(items, r, keys[..k])
    {
      var parentId := ParentOfKey(keys[k]);
      var siblings := ChildrenOf(r, parentId);
      var siblingOrder := BuildOrderMap(Ids(siblings));
      ReindexNextKey(items, r, keys, k, siblingOrder);
      r := ApplyOrderMap(r, parentId, siblingOrder);
      k := k + 1;
    }
    ReindexedAllKeys(items, r, keys);
  }

  /** The loop step of `reindexAllParents`: the `k`-th key joins the renumbered ones. */
  lemma ReindexNextKey(items: seq<Item>, r: seq<Item>, keys: seq<string>, k: nat, m: map<string, nat>)
    requires k < |keys| && forall a, b :: 0 <= a < b < |keys| ==> keys[a] != keys[b]
    requires ReindexedUpTo(items, r, keys[..k])
    requires IsOrderMap(Ids(ChildrenOf(r, ParentOfKey(keys[k]))), m)
    ensures ReindexedUpTo(items, ApplyOrderMap(r, ParentOfKey(keys[k]), m), keys[..k + 1])
  {
    assert keys[k] !in keys[..k];
    ReindexStep(items, r, keys[..k], keys[k], m);
    assert keys[..k + 1] == keys[..k] + [keys[k]];
  }

  /** Once every parent key is renumbered, the list is `Reindexed`. */
  lemma ReindexedAllKeys(items: seq<Item>, r: seq<Item>, keys: seq<string>)
    requires forall i :: 0 <= i < |items| ==> KeyOf(items[i].parentId) in keys
    requires ReindexedUpTo(items, r, keys)
    ensures |r| == |items|
    ensures forall i :: 0 <= i < |items| ==> r[i] == items[i].(order := r[i].order)
    ensures DistinctIds(items) ==> r == Reindexed(items)
  {
    if DistinctIds(items) {
      forall i | 0 <= i < |items| ensures r[i] == Reindexed(items)[i] {
        assert KeyOf(items[i].parentId) in keys;
      }
    }
  }

  // ---------------------------------------------------------------------------
  // removeWorkspaceItem

  /** All ids in the list. */
  function AllIds(items: seq<Item>): set<string> {
    set i | 0 <= i < |items| :: items[i].id
  }

  /** `item.parentId && removedIds.has(item.parentId)`: an empty parent id is falsy and never cascades. */
  predicate UnderRemoved(item: Item, removed: set<string>) {
    item.parentId.Some? && item.parentId.value != "" && item.parentId.value in removed
  }

  /** Every item under a removed parent is removed too. */
  predicate Closed(items: seq<Item>, removed: set<string>) {
    forall i :: 0 <= i < |items| && UnderRemoved(items[i], removed) ==> items[i].id in removed
  }

  /** One pass adding every item under a removed parent. */
  function CascadeStep(items: seq<Item>, removed: set<string>): (next: set<string>)
    ensures removed <= next <= removed + AllIds(items)
  {
    removed + set i | 0 <= i < |items| && UnderRemoved(items[i], removed) :: items[i].id
  }

  /** Adding to the removed set an id of the list shrinks what is left to remove. */
  lemma StrictGrowth(all: set<string>, before: set<string>, after: set<string>, x: string)
    requires before <= after && x in after && x !in before && x in all
    ensures |all - after| < |all - before|
  {
    var a := all - after;
    var b := all - before;
    assert a <= b && x in b - a;
    assert b == a + (b - a);
    assert |b - a| >= 1 by {
      assert {x} <= b - a;
    }
  }

  /** The least set of ids holding `removed` and closed under "child of a removed parent". */
  function Closure(items: seq<Item>, removed: set<string>): (c: set<string>)
    ensures removed <= c <= removed + AllIds(items)
    ensures Closed(items, c)
    ensures forall t :: removed <= t && Closed(items, t) ==> c <= t
    decreases |AllIds(items) - removed|
  {
    var next := CascadeStep(items, removed);
    if next == removed then removed
    else
      assert |AllIds(items) - next| < |AllIds(items) - removed| by {
        var x :| x in next && x !in removed;
        StrictGrowth(AllIds(items), removed, next, x);
      }
      Closure(items, next)
  }

  /** `items.filter((item) => !removedIds.has(item.id))`. */
  function Without(items: seq<Item>, removed: set<string>): (r: seq<Item>)
    ensures |r| <= |items|
    ensures forall x :: x in r <==> x in items && x.id !in removed
  {
    if items == [] then []
    else
      var rest := Without(items[1..], removed);
      if items[0].id in removed then rest else [items[0]] + rest
  }

  /** Filtering keeps ids distinct. */
  lemma {:induction false} WithoutKeepsDistinct(items: seq<Item>, removed: set<string>)
    requires DistinctIds(items)
    ensures DistinctIds(Without(items, removed))
  {
    if items != [] {
      var rest := Without(items[1..], removed);
      WithoutKeepsDistinct(items[1..], removed);
      if items[0].id !in removed {
        forall k | 0 <= k < |rest| ensures rest[k].id != items[0].id {
          assert rest[k] in items[1..];
        }
      }
    }
  }

  /** A closed set holding the removed ids also holds every item under them. */
  lemma ClosedAbsorbs(items: seq<Item>, removed: set<string>, t: set<string>, n: nat)
    requires Closed(items, t) && removed <= t && n < |items| && UnderRemoved(items[n], removed)
    ensures items[n].id in t
  {
  }

  lemma ClosureIsLeast(items: seq<Item>, start: set<string>, t: set<string>)
    requires start <= t && Closed(items, t)
    ensures Closure(items, start) <= t
  {
  }

  /**
   * One pass of the loop of `removeWorkspaceItem` over the list: every item
   * under a removed parent is added, seeing the additions made earlier in the
   * same pass. `changed` tells whether anything was added.
   */
  method CascadePass(items: seq<Item>, removed: set<string>, ghost closure: set<string>)
    returns (next: set<string>, changed: bool)
    requires removed <= closure && Closed(items, closure)
    requires removed <= AllIds(items)
    ensures removed <= next <= closure && next <= AllIds(items)
    ensures !changed ==> next == removed && Closed(items, removed)
    ensures changed ==> |AllIds(items) - next| < |AllIds(items) - removed|
  {
    next := removed;
    changed := false;
    ghost var added: string := "";
    var n := 0;
    while n < |items|
      invariant 0 <= n <= |items|
      invariant removed <= next <= closure
      invariant next <= AllIds(items)
      invariant !changed ==> next == removed
      invariant changed ==> added in next && added !in removed
      invariant !changed ==> forall j :: 0 <= j < n ==> !UnderRemoved(items[j], next) || items[j].id in next
    {
      var item := items[n];
      if UnderRemoved(item, next) && item.id !in next {
        ClosedAbsorbs(items, next, closure, n);
        next := next + {item.id};
        added := item.id;
        changed := true;
      }
      n := n + 1;
    }
    if changed {
      StrictGrowth(AllIds(items), removed, next, added);
    }
  }

  /**
   * The loop of `removeWorkspaceItem`: passes over the list until a pass
   * adds nothing; the result is the closure of the removed item.
   */
  method CascadeRemovedIds(items: seq<Item>, itemId: string) returns (removedIds: set<string>)
    requires HasId(items, itemId)
    ensures removedIds == Closure(items, {itemId})
  {
    ghost var closure := Closure(items, {itemId});
    removedIds := {itemId};
    var changed := true;
    while changed
      invariant {itemId} <= removedIds <= closure
      invariant removedIds <= AllIds(items)
      invariant !changed ==> Closed(items, removedIds)
      decreases 2 * |AllIds(items) - removedIds| + (if changed then 1 else 0)
    {
      removedIds, changed := CascadePass(items, removedIds, closure);
    }
    ClosureIsLeast(items, {itemId}, removedIds);
  }

  /**
   * `removeWorkspaceItem`: removes the item and, repeatedly, every item
   * whose parent was removed, then reindexes what is left. A missing id
   * leaves the list as it is.
   */
  method RemoveWorkspaceItem(items: seq<Item>, itemId: string) returns (r: seq<Item>)
    ensures !HasId(items, itemId) ==> r == items
    ensures HasId(items, itemId) ==>
              var kept := Without(items, Closure(items, {itemId}));
              |r| == |kept| && (forall i :: 0 <= i < |r| ==> r[i] == kept[i].(order := r[i].order))
              && (DistinctIds(items) ==> r == Reindexed(kept))
  {
    if !HasId(items, itemId) {
      return items;
    }
    var removedIds := CascadeRemovedIds(items, itemId);
    var filtered := Without(items, removedIds);
    if DistinctIds(items) {
      WithoutKeepsDistinct(items, removedIds);
    }
    r := ReindexAllParents(filtered);
  }

  /** Removing leaves no item behind whose (non-empty) parent was removed, and the removed id is gone. */
  lemma RemoveLeavesNoOrphans(items: seq<Item>, itemId: string)
    ensures var removed := Closure(items, {itemId});
            forall x :: x in Without(items, removed) ==> x.id != itemId && !UnderRemoved(x, removed)
  {
    var removed := Closure(items, {itemId});
    forall x | x in Without(items, removed) ensures x.id != itemId && !UnderRemoved(x, removed) {
      var i :| 0 <= i < |items| && items[i] == x;
    }
  }
}
