/**
 * The workspace tree of the UI: a flat list of items (groups, browser tabs and
 * file references) linked by parent ids and ordered among their siblings by an
 * integer `order`. Every operation returns a new list.
 */
module Workspace {
  import opened Wrappers
  import opened Strings
  import opened Url

  /** A workspace item; the constructor is the item's `kind`. */
  datatype Item =
    | Group(id: string, parentId: Option<string>, order: int, title: string, collapsed: bool)
    | BrowserTab(id: string, parentId: Option<string>, order: int, title: string, url: string)
    | FileRef(id: string, parentId: Option<string>, order: int, title: string, filePath: string)

  /**
   * `titleFromUrl`: the host name of the parsed URL with its first "www."
   * removed, or "New Tab" when the WHATWG URL parser rejects it. The parser is
   * not modelled, so the function is a parameter of the operations that use it.
   */
  type TitleFromUrl = string -> string

  /** Title of a group created without one. */
  const DefaultGroupTitle: string := "New Group"

  /** The built-in seed workspace. */
  const InitialWorkspace: seq<Item> := [
    Group("group-research", None, 0, "Research", false),
    BrowserTab("tab-edge", Some("group-research"), 0, "Microsoft Edge", "https://www.microsoft.com/edge"),
    BrowserTab("tab-cef", Some("group-research"), 1, "CEF-RS", "https://github.com/tauri-apps/cef-rs"),
    Group("group-project", None, 1, "Project", false),
    FileRef("file-readme", Some("group-project"), 0, "README.md", "README.md"),
    BrowserTab("tab-shadcn", Some("group-project"), 1, "shadcn Registry", "https://ui.shadcn.com/docs/registry/getting-started")
  ]

  // ---------------------------------------------------------------------------
  // Identity

  /** Some item carries `id`. */
  predicate HasId(items: seq<Item>, id: string) {
    exists i :: 0 <= i < |items| && items[i].id == id
  }

  /** No two items share an id. */
  predicate DistinctIds(items: seq<Item>) {
    forall i, j :: 0 <= i < j < |items| ==> items[i].id != items[j].id
  }

  /** Position of the first item carrying `id` (`findIndex`), or `|items|`. */
  function IndexOfId(items: seq<Item>, id: string): (k: nat)
    ensures k <= |items|
    ensures k < |items| ==> items[k].id == id
    ensures forall i :: 0 <= i < k ==> items[i].id != id
    ensures k == |items| <==> !HasId(items, id)
  {
    if |items| == 0 then 0
    else if items[0].id == id then 0
    else 1 + IndexOfId(items[1..], id)
  }

  /** With distinct ids, the item carrying `id` is the one at `IndexOfId`. */
  lemma IndexOfIdUnique(items: seq<Item>, id: string, i: nat)
    requires DistinctIds(items)
    requires i < |items| && items[i].id == id
    ensures IndexOfId(items, id) == i
  {
  }

  // ---------------------------------------------------------------------------
  // Siblings and their order

  /** Indices of the items whose parent is `parentId`. */
  function SiblingSet(items: seq<Item>, parentId: Option<string>): set<nat> {
    set i: nat | i < |items| && items[i].parentId == parentId
  }

  /**
   * Item `i` is listed before item `j` by a stable sort on `order`: a smaller
   * order, or the same order and an earlier position in the list.
   */
  predicate Before(items: seq<Item>, i: nat, j: nat)
    requires i < |items| && j < |items|
  {
    items[i].order < items[j].order || (items[i].order == items[j].order && i < j)
  }

  predicate ValidIndices(items: seq<Item>, s: seq<nat>) {
    forall k :: 0 <= k < |s| ==> s[k] < |items|
  }

  /** `s` lists item indices in strictly increasing `Before` order. */
  predicate StrictlySorted(items: seq<Item>, s: seq<nat>)
    requires ValidIndices(items, s)
  {
    forall a, b :: 0 <= a < b < |s| ==> Before(items, s[a], s[b])
  }

  /** Indices of the items under `parentId`, in list order. */
  function SiblingIndices(items: seq<Item>, parentId: Option<string>, from: nat): (s: seq<nat>)
    requires from <= |items|
    ensures ValidIndices(items, s)
    ensures forall k :: 0 <= k < |s| ==> from <= s[k]
    ensures forall a, b :: 0 <= a < b < |s| ==> s[a] < s[b]
    ensures forall i :: i in s <==> from <= i < |items| && items[i].parentId == parentId
    decreases |items| - from
  {
    if from == |items| then []
    else if items[from].parentId == parentId then [from] + SiblingIndices(items, parentId, from + 1)
    else SiblingIndices(items, parentId, from + 1)
  }

  /** Inserts index `x` into the sorted `s` just before the first index it sorts before. */
  function InsertSorted(items: seq<Item>, x: nat, s: seq<nat>): (r: seq<nat>)
    requires x < |items| && ValidIndices(items, s) && StrictlySorted(items, s)
    requires x !in s
    ensures ValidIndices(items, r) && StrictlySorted(items, r)
    ensures |r| == |s| + 1
    ensures forall i :: i in r <==> i == x || i in s
  {
    if s == [] then [x]
    else if Before(items, x, s[0]) then [x] + s
    else
      var rest := InsertSorted(items, x, s[1..]);
      assert forall k :: 0 <= k < |rest| ==> rest[k] == x || rest[k] in s[1..];
      [s[0]] + rest
  }

  /** Insertion sort of item indices by `Before`. */
  function SortIndices(items: seq<Item>, s: seq<nat>): (r: seq<nat>)
    requires ValidIndices(items, s)
    requires forall a, b :: 0 <= a < b < |s| ==> s[a] != s[b]
    ensures ValidIndices(items, r) && StrictlySorted(items, r)
    ensures |r| == |s|
    ensures forall i :: i in r <==> i in s
  {
    if s == [] then []
    else
      var rest := SortIndices(items, s[1..]);
      assert s[0] !in s[1..];
      InsertSorted(items, s[0], rest)
  }

  /** Indices of the children of `parentId` in the order `childrenOf` lists them. */
  function SortedSiblings(items: seq<Item>, parentId: Option<string>): (s: seq<nat>)
    ensures ValidIndices(items, s) && StrictlySorted(items, s)
    ensures forall i: nat :: i in s <==> i < |items| && items[i].parentId == parentId
  {
    SortIndices(items, SiblingIndices(items, parentId, 0))
  }

  /**
   * `childrenOf`: the items whose parent is `parentId`, sorted by `order`, ties
   * kept in list order (JavaScript's `sort` is stable).
   */
  function ChildrenOf(items: seq<Item>, parentId: Option<string>): (r: seq<Item>)
    ensures |r| == |SortedSiblings(items, parentId)|
    ensures forall k :: 0 <= k < |r| ==> r[k] in items && r[k].parentId == parentId
    ensures forall a, b :: 0 <= a < b < |r| ==> r[a].order <= r[b].order
  {
    var s := SortedSiblings(items, parentId);
    seq(|s|, k requires 0 <= k < |s| => items[s[k]])
  }

  /** `childrenOf` lists exactly the items under `parentId`, the k-th being the item at `SortedSiblings[k]`. */
  lemma ChildrenOfMembers(items: seq<Item>, parentId: Option<string>)
    ensures forall x :: x in ChildrenOf(items, parentId) <==> x in items && x.parentId == parentId
    ensures forall k :: 0 <= k < |ChildrenOf(items, parentId)| ==>
              ChildrenOf(items, parentId)[k] == items[SortedSiblings(items, parentId)[k]]
  {
    var s := SortedSiblings(items, parentId);
    var r := ChildrenOf(items, parentId);
    forall x | x in items && x.parentId == parentId ensures x in r {
      var i :| 0 <= i < |items| && items[i] == x;
      var k :| 0 <= k < |s| && s[k] == i;
      assert r[k] == x;
    }
  }

  /** The head of a sorted index list comes before every other entry. */
  lemma HeadIsLeast(items: seq<Item>, s: seq<nat>)
    requires ValidIndices(items, s) && StrictlySorted(items, s) && s != []
    ensures forall x :: x in s ==> x == s[0] || Before(items, s[0], x)
  {
    forall x | x in s ensures x == s[0] || Before(items, s[0], x) {
      var a :| 0 <= a < |s| && s[a] == x;
      if a > 0 {
        assert Before(items, s[0], s[a]);
      }
    }
  }

  /** Two index lists strictly sorted by the same order and holding the same indices are equal. */
  lemma {:induction false} SortedUnique(items: seq<Item>, s: seq<nat>, t: seq<nat>)
    requires ValidIndices(items, s) && StrictlySorted(items, s)
    requires ValidIndices(items, t) && StrictlySorted(items, t)
    requires forall i :: i in s <==> i in t
    ensures s == t
  {
    SortedNoDuplicates(items, s);
    SortedNoDuplicates(items, t);
    DistinctCount(s);
    DistinctCount(t);
    assert Elements(s) == Elements(t);
    if s != [] {
      HeadIsLeast(items, s);
      HeadIsLeast(items, t);
      assert s[0] in t && t[0] in s;
      forall i ensures i in s[1..] ==> i in t[1..] {
        if i in s[1..] {
          var a :| 1 <= a < |s| && s[a] == i;
          assert Before(items, s[0], i);
          assert i in s;
          var b :| 0 <= b < |t| && t[b] == i;
          assert b != 0;
          assert t[1..][b - 1] == i;
        }
      }
      forall i ensures i in t[1..] ==> i in s[1..] {
        if i in t[1..] {
          var b :| 1 <= b < |t| && t[b] == i;
          assert Before(items, t[0], i);
          assert i in t;
          var a :| 0 <= a < |s| && s[a] == i;
          assert a != 0;
          assert s[1..][a - 1] == i;
        }
      }
      SortedUnique(items, s[1..], t[1..]);
    }
  }

  /**
   * Position of item `i` among its siblings: the number of siblings listed
   * before it by `childrenOf`.
   */
  function Rank(items: seq<Item>, i: nat): nat
    requires i < |items|
  {
    |set j: nat | j < |items| && items[j].parentId == items[i].parentId && Before(items, j, i)|
  }

  predicate NoDuplicates(s: seq<nat>) {
    forall a, b :: 0 <= a < b < |s| ==> s[a] != s[b]
  }

  /** A strictly sorted index list holds no index twice. */
  lemma SortedNoDuplicates(items: seq<Item>, s: seq<nat>)
    requires ValidIndices(items, s) && StrictlySorted(items, s)
    ensures NoDuplicates(s)
  {
    forall a, b | 0 <= a < b < |s| ensures s[a] != s[b] {
      assert Before(items, s[a], s[b]);
    }
  }

  /** The indices a list holds. */
  function Elements(s: seq<nat>): set<nat> {
    set k | k in s
  }

  /** A list without duplicates holds as many distinct elements as entries. */
  lemma {:induction false} DistinctCount(s: seq<nat>)
    requires NoDuplicates(s)
    ensures |Elements(s)| == |s|
  {
    if s != [] {
      var rest := Elements(s[1..]);
      DistinctCount(s[1..]);
      assert s[0] !in rest;
      assert Elements(s) == {s[0]} + rest;
      assert |{s[0]} + rest| == 1 + |rest|;
    } else {
      assert Elements(s) == {};
    }
  }

  /** In a sorted list of exactly the children of `parentId`, the entry at `k` has rank `k`. */
  lemma PositionIsRank(items: seq<Item>, parentId: Option<string>, s: seq<nat>, k: nat)
    requires ValidIndices(items, s) && StrictlySorted(items, s)
    requires forall i: nat :: i in s <==> i < |items| && items[i].parentId == parentId
    requires k < |s|
    ensures Rank(items, s[k]) == k
  {
    var i := s[k];
    var before := set j: nat | j < |items| && items[j].parentId == items[i].parentId && Before(items, j, i);
    var prefix := s[..k];
    SortedNoDuplicates(items, s);
    assert NoDuplicates(prefix);
    DistinctCount(prefix);
    forall j: nat | j in before ensures j in prefix {
      assert j in s;
      var a :| 0 <= a < |s| && s[a] == j;
      assert a < k;
      assert prefix[a] == j;
    }
    forall j | j in prefix ensures j in before {
      var a :| 0 <= a < k && prefix[a] == j;
      assert Before(items, s[a], s[k]);
    }
    assert before == Elements(prefix);
  }

  /** The item at position `k` of `childrenOf` has rank `k`. */
  lemma RankIsPosition(items: seq<Item>, parentId: Option<string>, k: nat)
    requires k < |SortedSiblings(items, parentId)|
    ensures Rank(items, SortedSiblings(items, parentId)[k]) == k
  {
    PositionIsRank(items, parentId, SortedSiblings(items, parentId), k);
  }

  /** Every sibling's rank is below the number of siblings. */
  lemma RankBound(items: seq<Item>, i: nat)
    requires i < |items|
    ensures Rank(items, i) < |SortedSiblings(items, items[i].parentId)|
    ensures SortedSiblings(items, items[i].parentId)[Rank(items, i)] == i
  {
    var s := SortedSiblings(items, items[i].parentId);
    assert i in s;
    var k :| 0 <= k < |s| && s[k] == i;
    RankIsPosition(items, items[i].parentId, k);
  }

  /** Ranks follow the sibling order: the sibling listed first has the smaller rank. */
  lemma RankMonotone(items: seq<Item>, i: nat, j: nat)
    requires i < |items| && j < |items| && items[i].parentId == items[j].parentId
    ensures Before(items, i, j) <==> Rank(items, i) < Rank(items, j)
  {
    var p := items[i].parentId;
    var s := SortedSiblings(items, p);
    RankBound(items, i);
    RankBound(items, j);
    var a, b := Rank(items, i), Rank(items, j);
    if a < b {
      assert Before(items, s[a], s[b]);
    }
  }

  // ---------------------------------------------------------------------------
  // Next free order

  /** Largest `order` among the children of `parentId`, if it has any. */
  function MaxSiblingOrder(items: seq<Item>, parentId: Option<string>): (m: Option<int>)
    ensures m.None? <==> forall i :: 0 <= i < |items| ==> items[i].parentId != parentId
    ensures m.Some? ==> forall i :: 0 <= i < |items| && items[i].parentId == parentId ==> items[i].order <= m.value
    ensures m.Some? ==> exists i :: 0 <= i < |items| && items[i].parentId == parentId && items[i].order == m.value
  {
    if items == [] then None
    else
      var last := items[|items| - 1];
      var rest := MaxSiblingOrder(items[..|items| - 1], parentId);
      if last.parentId != parentId then rest
      else if rest.None? || rest.value < last.order then Some(last.order)
      else rest
  }

  /** `nextOrder`: one more than the largest sibling order, or 0 when there are no siblings. */
  function NextOrder(items: seq<Item>, parentId: Option<string>): (n: int)
    ensures (forall i :: 0 <= i < |items| ==> items[i].parentId != parentId) ==> n == 0
    ensures forall i :: 0 <= i < |items| && items[i].parentId == parentId ==> items[i].order < n
    ensures (exists i :: 0 <= i < |items| && items[i].parentId == parentId) ==>
              exists i :: 0 <= i < |items| && items[i].parentId == parentId && items[i].order == n - 1
  {
    match MaxSiblingOrder(items, parentId)
    case None => 0
    case Some(m) => m + 1
  }

  // ---------------------------------------------------------------------------
  // Per-item updates

  /** The item `toggleGroupCollapsed` maps `item` to. */
  function ToggleItem(item: Item, groupId: string): Item {
    if item.id == groupId && item.Group? then item.(collapsed := !item.collapsed) else item
  }

  /** `toggleGroupCollapsed`: flips `collapsed` on the group(s) carrying `groupId`. */
  function ToggleGroupCollapsed(items: seq<Item>, groupId: string): (r: seq<Item>)
    ensures |r| == |items|
    ensures forall i :: 0 <= i < |items| ==>
              r[i].id == items[i].id && r[i].parentId == items[i].parentId && r[i].order == items[i].order
    ensures forall i :: 0 <= i < |items| && (items[i].id != groupId || !items[i].Group?) ==> r[i] == items[i]
    ensures forall i :: 0 <= i < |items| && items[i].id == groupId && items[i].Group? ==>
              r[i].Group? && r[i].collapsed == !items[i].collapsed && r[i].title == items[i].title
  {
    seq(|items|, i requires 0 <= i < |items| => ToggleItem(items[i], groupId))
  }

  /** Toggling twice gives the list back. */
  lemma ToggleTwice(items: seq<Item>, groupId: string)
    ensures ToggleGroupCollapsed(ToggleGroupCollapsed(items, groupId), groupId) == items
  {
    var r := ToggleGroupCollapsed(ToggleGroupCollapsed(items, groupId), groupId);
    assert forall i :: 0 <= i < |items| ==> r[i] == items[i];
  }

  /** Toggling an id that names no group leaves the list unchanged. */
  lemma ToggleUnknownIsNoOp(items: seq<Item>, groupId: string)
    requires forall i :: 0 <= i < |items| ==> items[i].id != groupId || !items[i].Group?
    ensures ToggleGroupCollapsed(items, groupId) == items
  {
  }

  /**
   * `updateTabUrl`: the tab(s) carrying `id` get `url` and a title derived from
   * it. The url is stored as given, not normalised.
   */
  function UpdateTabUrl(items: seq<Item>, id: string, url: string, titleFromUrl: TitleFromUrl): (r: seq<Item>)
    ensures |r| == |items|
    ensures forall i :: 0 <= i < |items| ==>
              r[i].id == items[i].id && r[i].parentId == items[i].parentId && r[i].order == items[i].order
    ensures forall i :: 0 <= i < |items| && (items[i].id != id || !items[i].BrowserTab?) ==> r[i] == items[i]
    ensures forall i :: 0 <= i < |items| && items[i].id == id && items[i].BrowserTab? ==>
              r[i].BrowserTab? && r[i].url == url && r[i].title == titleFromUrl(url)
  {
    seq(|items|, i requires 0 <= i < |items| =>
      if items[i].id == id && items[i].BrowserTab? then items[i].(url := url, title := titleFromUrl(url)) else items[i])
  }

  /** Setting the same url twice is the same as setting it once. */
  lemma UpdateTabUrlIdempotent(items: seq<Item>, id: string, url: string, titleFromUrl: TitleFromUrl)
    ensures UpdateTabUrl(UpdateTabUrl(items, id, url, titleFromUrl), id, url, titleFromUrl)
         == UpdateTabUrl(items, id, url, titleFromUrl)
  {
    var once := UpdateTabUrl(items, id, url, titleFromUrl);
    var twice := UpdateTabUrl(once, id, url, titleFromUrl);
    assert forall i :: 0 <= i < |items| ==> twice[i] == once[i];
  }

  /** The new value of a field updated from a runtime event: the trimmed text, unless it is blank. */
  function RuntimeValue(update: Option<string>, current: string): (v: string)
    ensures update.None? || JsBlank(update.value) ==> v == current
    ensures update.Some? && !JsBlank(update.value) ==> v == JsTrim(update.value) && !JsBlank(v)
  {
    var next := if update.Some? then JsTrim(update.value) else "";
    if |next| > 0 then next else current
  }

  /**
   * `applyTabRuntimeUpdate`: the tab(s) carrying `id` take the url and title
   * of the event, each only when it is a string that is not blank.
   */
  function ApplyTabRuntimeUpdate(items: seq<Item>, id: string, url: Option<string>, title: Option<string>): (r: seq<Item>)
    ensures |r| == |items|
    ensures forall i :: 0 <= i < |items| ==>
              r[i].id == items[i].id && r[i].parentId == items[i].parentId && r[i].order == items[i].order
    ensures forall i :: 0 <= i < |items| && (items[i].id != id || !items[i].BrowserTab?) ==> r[i] == items[i]
    ensures forall i :: 0 <= i < |items| && items[i].id == id && items[i].BrowserTab? ==>
              r[i].BrowserTab?
              && r[i].url == RuntimeValue(url, items[i].url)
              && r[i].title == RuntimeValue(title, items[i].title)
  {
    seq(|items|, i requires 0 <= i < |items| =>
      if items[i].id == id && items[i].BrowserTab?
      then items[i].(url := RuntimeValue(url, items[i].url), title := RuntimeValue(title, items[i].title))
      else items[i])
  }

  /** Folding the same runtime event in twice is the same as folding it in once. */
  lemma ApplyTabRuntimeUpdateIdempotent(items: seq<Item>, id: string, url: Option<string>, title: Option<string>)
    ensures ApplyTabRuntimeUpdate(ApplyTabRuntimeUpdate(items, id, url, title), id, url, title)
         == ApplyTabRuntimeUpdate(items, id, url, title)
  {
    var once := ApplyTabRuntimeUpdate(items, id, url, title);
    var twice := ApplyTabRuntimeUpdate(once, id, url, title);
    forall i | 0 <= i < |items| ensures twice[i] == once[i] {
      if url.Some? { TrimIdempotent(url.value, IsJsSpace); }
      if title.Some? { TrimIdempotent(title.value, IsJsSpace); }
    }
  }

  // ---------------------------------------------------------------------------
  // Adding items

  /**
   * `addGroup`: appends a root group with a fresh id (`crypto.randomUUID` is
   * the `newId` parameter), the next free root order, and `collapsed` false.
   */
  function AddGroup(items: seq<Item>, newId: string, title: string): (r: seq<Item>)
    requires !HasId(items, newId)
    ensures |r| == |items| + 1 && r[..|items|] == items
    ensures r[|items|].Group? && r[|items|].id == newId && r[|items|].parentId.None?
    ensures r[|items|].title == title && !r[|items|].collapsed
    ensures forall i :: 0 <= i < |items| && items[i].parentId.None? ==> items[i].order < r[|items|].order
    ensures DistinctIds(items) ==> DistinctIds(r)
  {
    items + [Group(newId, None, NextOrder(items, None), title, false)]
  }

  /**
   * `addBrowserTab`: appends a tab under `parentId` with the normalised url,
   * a title derived from it and the next free order; returns the new id too.
   */
  function AddBrowserTab(items: seq<Item>, parentId: Option<string>, url: string, newId: string,
                         titleFromUrl: TitleFromUrl): (r: (seq<Item>, string))
    requires !HasId(items, newId)
    ensures |r.0| == |items| + 1 && r.0[..|items|] == items
    ensures r.1 == newId && r.0[|items|].id == newId
    ensures r.0[|items|].BrowserTab? && r.0[|items|].parentId == parentId
    ensures r.0[|items|].url == NormalizeUrl(url) && r.0[|items|].title == titleFromUrl(NormalizeUrl(url))
    ensures forall i :: 0 <= i < |items| && items[i].parentId == parentId ==> items[i].order < r.0[|items|].order
    ensures DistinctIds(items) ==> DistinctIds(r.0)
  {
    var normalized := NormalizeUrl(url);
    (items + [BrowserTab(newId, parentId, NextOrder(items, parentId), titleFromUrl(normalized), normalized)], newId)
  }

  /** The sorted sibling indices after appending `x`: the old ones, then the new index. */
  lemma AppendedSiblingIsLast(items: seq<Item>, x: Item)
    requires forall i :: 0 <= i < |items| && items[i].parentId == x.parentId ==> items[i].order < x.order
    ensures SortedSiblings(items + [x], x.parentId) == SortedSiblings(items, x.parentId) + [|items|]
  {
    var p := x.parentId;
    var s := SortedSiblings(items, p);
    AppendedIndicesSorted(items, x, s);
    AppendedIndicesMembers(items, x, s);
    SortedUnique(items + [x], SortedSiblings(items + [x], p), s + [|items|]);
  }

  /** A sorted list of sibling indices stays sorted with the index of an appended item of higher order. */
  lemma AppendedIndicesSorted(items: seq<Item>, x: Item, s: seq<nat>)
    requires ValidIndices(items, s) && StrictlySorted(items, s)
    requires forall k :: 0 <= k < |s| ==> items[s[k]].parentId == x.parentId
    requires forall i :: 0 <= i < |items| && items[i].parentId == x.parentId ==> items[i].order < x.order
    ensures ValidIndices(items + [x], s + [|items|]) && StrictlySorted(items + [x], s + [|items|])
  {
    var r := items + [x];
    var t := s + [|items|];
    forall a, b | 0 <= a < b < |t| ensures Before(r, t[a], t[b]) {
      if b < |s| {
        assert Before(items, s[a], s[b]);
      }
    }
  }

  /** The appended index joins the sibling indices exactly when the new item is a sibling. */
  lemma AppendedIndicesMembers(items: seq<Item>, x: Item, s: seq<nat>)
    requires forall i: nat :: i in s <==> i < |items| && items[i].parentId == x.parentId
    ensures forall i: nat :: i in s + [|items|] <==> i < |items| + 1 && (items + [x])[i].parentId == x.parentId
  {
    var r := items + [x];
    forall i: nat ensures i in s + [|items|] <==> i < |r| && r[i].parentId == x.parentId {
      if i < |items| {
        assert r[i] == items[i];
      }
    }
  }

  /**
   * An item appended with an order above all of its siblings' is listed last
   * among them, after the old children in their old order.
   */
  lemma AppendedChildIsLast(items: seq<Item>, x: Item)
    requires forall i :: 0 <= i < |items| && items[i].parentId == x.parentId ==> items[i].order < x.order
    ensures ChildrenOf(items + [x], x.parentId) == ChildrenOf(items, x.parentId) + [x]
  {
    var p := x.parentId;
    var r := items + [x];
    AppendedSiblingIsLast(items, x);
    var s := SortedSiblings(items, p);
    var lhs := ChildrenOf(r, p);
    var rhs := ChildrenOf(items, p) + [x];
    assert |lhs| == |rhs|;
    forall k | 0 <= k < |lhs| ensures lhs[k] == rhs[k] {
      if k < |s| {
        assert lhs[k] == r[s[k]] == items[s[k]];
      }
    }
  }

  /** A new group is listed last among the root items. */
  lemma AddGroupListsLast(items: seq<Item>, newId: string, title: string)
    requires !HasId(items, newId)
    ensures ChildrenOf(AddGroup(items, newId, title), None)
         == ChildrenOf(items, None) + [Group(newId, None, NextOrder(items, None), title, false)]
  {
    AppendedChildIsLast(items, Group(newId, None, NextOrder(items, None), title, false));
  }

  /** A new tab is listed last among its siblings. */
  lemma AddBrowserTabListsLast(items: seq<Item>, parentId: Option<string>, url: string, newId: string,
                               titleFromUrl: TitleFromUrl)
    requires !HasId(items, newId)
    ensures var r := AddBrowserTab(items, parentId, url, newId, titleFromUrl).0;
            ChildrenOf(r, parentId) == ChildrenOf(items, parentId) + [r[|items|]]
  {
    var r := AddBrowserTab(items, parentId, url, newId, titleFromUrl).0;
    AppendedChildIsLast(items, r[|items|]);
  }

  // ---------------------------------------------------------------------------
  // Moving one step up or down

  datatype Direction = Up | Down

  /** Position of the first item carrying `id` in a list of items (`findIndex`), or -1. */
  function FindIndex(items: seq<Item>, id: string): (k: int)
    ensures -1 <= k < |items|
    ensures k >= 0 ==> items[k].id == id && forall i :: 0 <= i < k ==> items[i].id != id
    ensures k == -1 <==> !HasId(items, id)
  {
    var k := IndexOfId(items, id);
    if k == |items| then -1 else k
  }

  /** `items.map`: the two items swap their orders, matched by id. */
  function SwapOrders(items: seq<Item>, current: Item, other: Item): (r: seq<Item>)
    ensures |r| == |items|
  {
    seq(|items|, i requires 0 <= i < |items| =>
      if items[i].id == current.id then items[i].(order := other.order)
      else if items[i].id == other.id then items[i].(order := current.order)
      else items[i])
  }

  /**
   * `moveItem`: swaps the order of the target with its neighbour among the
   * sorted siblings; a no-op when the id is missing or there is no neighbour.
   */
  function MoveItem(items: seq<Item>, id: string, direction: Direction): (r: seq<Item>)
    ensures |r| == |items|
    ensures forall i :: 0 <= i < |items| ==> r[i] == items[i].(order := r[i].order)
    ensures !HasId(items, id) ==> r == items
  {
    var t := IndexOfId(items, id);
    if t == |items| then items
    else
      var siblings := ChildrenOf(items, items[t].parentId);
      MoveAmong(items, siblings, FindIndex(siblings, id), direction)
  }

  /** The swap `moveItem` makes once it has found the item at `index` among `siblings`. */
  function MoveAmong(items: seq<Item>, siblings: seq<Item>, index: int, direction: Direction): (r: seq<Item>)
    ensures |r| == |items|
    ensures forall i :: 0 <= i < |items| ==> r[i] == items[i].(order := r[i].order)
  {
    var swapIndex := if direction == Up then index - 1 else index + 1;
    if index < 0 || index >= |siblings| || swapIndex < 0 || swapIndex >= |siblings| then items
    else SwapOrders(items, siblings[index], siblings[swapIndex])
  }

  /** With distinct ids, `findIndex` over the sorted siblings finds the item at its rank. */
  lemma FindIndexIsRank(items: seq<Item>, i: nat)
    requires DistinctIds(items) && i < |items|
    ensures FindIndex(ChildrenOf(items, items[i].parentId), items[i].id) == Rank(items, i)
  {
    var p := items[i].parentId;
    var s := SortedSiblings(items, p);
    var siblings := ChildrenOf(items, p);
    RankBound(items, i);
    var k := Rank(items, i);
    assert siblings[k] == items[i];
    forall a | 0 <= a < k ensures siblings[a].id != items[i].id {
      assert siblings[a] == items[s[a]];
      assert Before(items, s[a], s[k]);
    }
  }

  /** With distinct ids, swapping the orders of two different items touches only those two. */
  lemma SwapOrdersOfTwo(items: seq<Item>, i: nat, j: nat)
    requires DistinctIds(items) && i < |items| && j < |items| && i != j
    ensures SwapOrders(items, items[i], items[j])
         == items[i := items[i].(order := items[j].order)][j := items[j].(order := items[i].order)]
  {
  }

  /** Index, among the sorted siblings, of the neighbour a move in `direction` swaps with. */
  function NeighbourPosition(k: nat, direction: Direction): int {
    if direction == Up then k - 1 else k + 1
  }

  /** With distinct ids, `moveItem` on the item at `i` swaps with the sibling at the neighbouring rank, if any. */
  lemma MoveItemAtRank(items: seq<Item>, i: nat, direction: Direction)
    requires DistinctIds(items) && i < |items|
    ensures Rank(items, i) < |SortedSiblings(items, items[i].parentId)|
    ensures var s := SortedSiblings(items, items[i].parentId);
            var n := NeighbourPosition(Rank(items, i), direction);
            MoveItem(items, items[i].id, direction)
            == if n < 0 || n >= |s| then items else SwapOrders(items, items[i], items[s[n]])
  {
    var p := items[i].parentId;
    var s := SortedSiblings(items, p);
    var siblings := ChildrenOf(items, p);
    var k := Rank(items, i);
    RankBound(items, i);
    assert FindIndex(siblings, items[i].id) == k by { FindIndexIsRank(items, i); }
    assert IndexOfId(items, items[i].id) == i by { IndexOfIdUnique(items, items[i].id, i); }
    assert MoveItem(items, items[i].id, direction) == MoveAmong(items, siblings, k, direction);
    ChildAt(items, p, k);
    var n := NeighbourPosition(k, direction);
    if 0 <= n < |s| {
      ChildAt(items, p, n);
    }
  }

  /** The child at position `n` is the item at the `n`th sorted sibling index. */
  lemma ChildAt(items: seq<Item>, parentId: Option<string>, n: nat)
    requires n < |SortedSiblings(items, parentId)|
    ensures ChildrenOf(items, parentId)[n] == items[SortedSiblings(items, parentId)[n]]
  {
  }

  /**
   * With distinct ids, moving the item at `i` swaps its order with that of
   * its neighbour among the sorted siblings, and is a no-op at either end.
   */
  lemma MoveItemSwapsWithNeighbour(items: seq<Item>, i: nat, direction: Direction)
    requires DistinctIds(items) && i < |items|
    ensures Rank(items, i) < |SortedSiblings(items, items[i].parentId)|
    ensures var s := SortedSiblings(items, items[i].parentId);
            var k := Rank(items, i);
            var r := MoveItem(items, items[i].id, direction);
            if direction == Up && k == 0 then r == items
            else if direction == Down && k == |s| - 1 then r == items
            else
              var j := if direction == Up then s[k - 1] else s[k + 1];
              r == items[i := items[i].(order := items[j].order)][j := items[j].(order := items[i].order)]
  {
    var s := SortedSiblings(items, items[i].parentId);
    var k := Rank(items, i);
    MoveItemAtRank(items, i, direction);
    var n := NeighbourPosition(k, direction);
    if 0 <= n < |s| {
      assert s[n] != i by {
        RankIsPosition(items, items[i].parentId, n);
      }
      SwapOrdersOfTwo(items, i, s[n]);
    }
  }
}
