# Pulse workspace shell, modelled in Dafny

Pulse is a desktop browser shell. A React UI shows a sidebar tree of workspace
items: groups, browser tabs and file references. Each item points to its parent
group and carries an `order` among its siblings. A native Rust host embeds CEF
and shows one content browser view per tab.

This project models the core of both sides.

**UI side**
- The workspace tree operations: children lookup by stable sort on `order`,
  append, toggle, URL updates, move up/down, cascade delete with renumbering,
  and the drag-and-drop reconciler.
- The URL normaliser.
- The session-state codec and its silent repair of stored state.
- The command table and the canonical text of keyboard shortcuts.
- The tab-runtime event parser of the host bridge.
- The sidebar's row flattening and drag-end decision.
- The state transitions of the application component's handlers.

**Host side**
- The shell state: the tab registry, bounds clamping and the content view layout.
- The versioned state file with its backup and temp-file commit protocol.
- The UI-message handler with its trust checks and argument parsing.
- The start-up resolution of URLs, flags and environment.

Modules, one per source component:

| file | module | source |
|---|---|---|
| wrappers.dfy | `Wrappers` | `Option` |
| strings.dfy | `Strings` | JavaScript and Rust trimming, ASCII case, split and join |
| json.dfy | `Json` | a parsed JSON value, the form both codecs read |
| url.dfy | `Url` | `normalizeUrl`, `encodeURIComponent` |
| workspace.dfy | `Workspace` | the item model and the pure tree operations of `workspace.ts` |
| workspace_reindex.dfy | `WorkspaceReindex` | `removeWorkspaceItem`, `reindexAllParents`, `buildOrderMap` |
| workspace_drop.dfy | `WorkspaceDrop` | `moveItemByDrop` and its two paths |
| session_state.dfy | `SessionState` | `session-state.ts` |
| commands.dfy | `Commands` | `commands.ts` |
| pulse_host.dfy | `PulseHost` | `pulse-host.ts` |
| sidebar.dfy | `Sidebar` | the row flattening and drag-end logic of `workspace-sidebar.tsx` |
| app_loading.dfy | `AppLoading` | the start-up loading of `App.tsx` |
| app.dfy | `App` | the handlers of `App.tsx` |
| shell_state.dfy | `ShellState` | `state.rs` |
| persistence.dfy | `Persistence` | `persistence.rs` |
| simple_handler.dfy | `SimpleHandler` | `simple_handler/mod.rs` |
| shell_main.dfy | `ShellMain` | `main.rs` |

**How the two forms of the source are modelled**
- The pure TypeScript functions are Dafny functions. Lemmas state what they
  promise: round trips, idempotence, order placement and distinct ids.
- The loops of the source are methods with loop invariants, each proved equal
  to a specification function. These are the cascade in `removeWorkspaceItem`,
  `reindexAllParents`, `buildOrderMap`, the parts loop of `normalizeShortcut`,
  the row flattening of the sidebar and the argument scan in `main.rs`.
- The Rust structs whose fields are updated in place are classes with
  `modifies` clauses: `ShellState`, the state-file store, `SimpleHandler` and
  the process environment.
- React state in `App.tsx` is replaced wholesale by each setter, so the
  application state is a value. Each handler returns the next state together
  with the host messages it sends.

**How `childrenOf` is modelled**
- `childrenOf` is a filter followed by a stable sort on `order`.
- The model sorts the sibling indices by `(order, index)`, which is exactly
  what a stable sort yields.
- `Rank(items, i)` is the position of item `i` among its siblings.

## Model

| member | source | states |
|---|---|---|
| Workspace.IndexOfId | apps/ui/src/lib/workspace.ts:184 | the index found is the first item with that id, and it is past the end exactly when no item has the id |
| Workspace.IndexOfIdUnique | apps/ui/src/lib/workspace.ts:184 | with distinct ids, the item found by id is the one at that index |
| Workspace.SiblingIndices | apps/ui/src/lib/workspace.ts:84 | the filter `item.parentId === parentId` keeps exactly the indices of items with that parent, in array order |
| Workspace.SortIndices | apps/ui/src/lib/workspace.ts:79-84 | the stable sort by `order` yields a strictly sorted permutation of its input indices, ordered by (order, index) |
| Workspace.SortedSiblings | apps/ui/src/lib/workspace.ts:83-85 | holds exactly the indices of the children of the parent, strictly sorted by (order, index) |
| Workspace.ChildrenOf | apps/ui/src/lib/workspace.ts:83-85 | every child listed is an item with that parent, and orders never decrease along the list |
| Workspace.ChildrenOfMembers | apps/ui/src/lib/workspace.ts:83-85 | an item is listed exactly when it is in the collection with that parent; the k-th child is the item at the k-th sorted index |
| Workspace.SortedUnique | apps/ui/src/lib/workspace.ts:79-85 | two strictly sorted index lists with the same members are equal, so the stable sort is unique |
| Workspace.PositionIsRank | apps/ui/src/lib/workspace.ts:83-85 | in any sorted sibling list, an item's position is its rank: the number of siblings ahead of it by (order, index) |
| Workspace.RankIsPosition | apps/ui/src/lib/workspace.ts:83-85 | the k-th child of a parent has rank k |
| Workspace.RankBound | apps/ui/src/lib/workspace.ts:83-85 | every item has a rank among its siblings, and that position of the sorted list holds it |
| Workspace.RankMonotone | apps/ui/src/lib/workspace.ts:79-85 | of two siblings, the one with the smaller rank is the one ahead by (order, index) |
| Workspace.MaxSiblingOrder | apps/ui/src/lib/workspace.ts:88-93 | none exactly when the parent has no children; otherwise the largest order among the children |
| Workspace.NextOrder | apps/ui/src/lib/workspace.ts:87-94 | 0 for a parent without children; otherwise one more than the largest sibling order, above every sibling |
| Workspace.ToggleGroupCollapsed | apps/ui/src/lib/workspace.ts:96-107 | only the group with that id changes, and only its collapsed flag flips; ids, parents and orders are kept |
| Workspace.ToggleTwice | apps/ui/src/lib/workspace.ts:96-107 | toggling the same group twice gives back the original collection |
| Workspace.ToggleUnknownIsNoOp | apps/ui/src/lib/workspace.ts:98-100 | toggling an id that names no group leaves the collection unchanged |
| Workspace.UpdateTabUrl | apps/ui/src/lib/workspace.ts:109-121 | only the browser tab with that id changes: its url becomes the new url as given, not normalised, and its title the title of that url |
| Workspace.UpdateTabUrlIdempotent | apps/ui/src/lib/workspace.ts:109-121 | applying the same URL update twice equals applying it once |
| Workspace.RuntimeValue | apps/ui/src/lib/workspace.ts:128-139 | a missing or blank update keeps the current value; otherwise the value is the trimmed, non-blank update |
| Workspace.ApplyTabRuntimeUpdate | apps/ui/src/lib/workspace.ts:123-142 | only the browser tab with that id changes; its url and title become the trimmed non-blank updates, or stay as they were |
| Workspace.ApplyTabRuntimeUpdateIdempotent | apps/ui/src/lib/workspace.ts:123-142 | applying the same runtime update twice equals applying it once |
| Workspace.AddGroup | apps/ui/src/lib/workspace.ts:144-155 | appends one expanded root group with the fresh id and the title, ordered after every root item; distinct ids stay distinct |
| Workspace.AddBrowserTab | apps/ui/src/lib/workspace.ts:157-177 | appends one tab under the parent, with the normalised url, its title and the fresh id, ordered after every sibling; returns that id; distinct ids stay distinct |
| Workspace.AppendedChildIsLast | apps/ui/src/lib/workspace.ts:83-85 | an item appended with an order above all its siblings becomes the last child of its parent |
| Workspace.AddGroupListsLast | apps/ui/src/lib/workspace.ts:144-155 | after `addGroup`, the root list is the old root list followed by the new group |
| Workspace.AddBrowserTabListsLast | apps/ui/src/lib/workspace.ts:157-177 | after `addBrowserTab`, the parent's children are the old children followed by the new tab |
| Workspace.FindIndex | apps/ui/src/lib/workspace.ts:190 | `findIndex`: the first position holding the id, or -1 exactly when no item has it |
| Workspace.MoveItem | apps/ui/src/lib/workspace.ts:179-209 | keeps every item except its order; an unknown id leaves the collection unchanged |
| Workspace.FindIndexIsRank | apps/ui/src/lib/workspace.ts:189-190 | with distinct ids, an item's position among its sorted siblings is its rank |
| Workspace.SwapOrdersOfTwo | apps/ui/src/lib/workspace.ts:197-208 | with distinct ids, swapping exchanges the orders of exactly the two items |
| Workspace.MoveItemAtRank | apps/ui/src/lib/workspace.ts:189-208 | moving the item with rank k swaps its order with the sibling at position k-1 (up) or k+1 (down), or changes nothing past either end |
| Workspace.MoveItemSwapsWithNeighbour | apps/ui/src/lib/workspace.ts:179-209 | up from the first place and down from the last change nothing; any other move exchanges the orders of the item and its neighbour in sorted sibling order |
| WorkspaceReindex.KeyRoundTrip | apps/ui/src/lib/workspace.ts:380-385 | the `"__root__"` key maps back to its parent for every parent except a group whose id is `"__root__"` itself |
| WorkspaceReindex.LastIndex | apps/ui/src/lib/workspace.ts:371-372 | the last position holding the id, so a later `set` of the same key wins |
| WorkspaceReindex.OrderMap | apps/ui/src/lib/workspace.ts:369-375 | each listed id maps to its last position in the list, and the map has no other keys |
| WorkspaceReindex.OrderMapUnique | apps/ui/src/lib/workspace.ts:369-375 | the map the numbering loop gives is determined by the list alone |
| WorkspaceReindex.BuildOrderMap | apps/ui/src/lib/workspace.ts:369-375 | the numbering loop ends with each id mapped to its last position |
| WorkspaceReindex.OrderMapOfDistinct | apps/ui/src/lib/workspace.ts:369-375 | with distinct ids, the k-th id maps to k |
| WorkspaceReindex.ApplyOrderMap | apps/ui/src/lib/workspace.ts:392-401 | items of that parent whose id is in the map take the mapped order; every other item and field is kept |
| WorkspaceReindex.OrderMapGivesRank | apps/ui/src/lib/workspace.ts:386-390 | with distinct ids, numbering a parent's children in sorted order gives each child its rank |
| WorkspaceReindex.ReindexedKeepsSiblingOrder | apps/ui/src/lib/workspace.ts:377-405 | renumbering keeps the sorted order of every parent's children |
| WorkspaceReindex.ReindexedChildren | apps/ui/src/lib/workspace.ts:377-405 | after renumbering, the children of a parent are the same items in the same order, and the k-th has order k |
| WorkspaceReindex.ReindexedContiguous | apps/ui/src/lib/workspace.ts:377-405 | after renumbering, sibling orders lie in 0..n-1 and no two siblings share one |
| WorkspaceReindex.ReindexedIdempotent | apps/ui/src/lib/workspace.ts:377-405 | renumbering twice equals renumbering once |
| WorkspaceReindex.ParentKeys | apps/ui/src/lib/workspace.ts:378-381 | the distinct parent keys of the items, each key coming from some item, each item's key present |
| WorkspaceReindex.ReindexStep | apps/ui/src/lib/workspace.ts:384-401 | renumbering one more parent key extends the set of parents already renumbered |
| WorkspaceReindex.ReindexAllParents | apps/ui/src/lib/workspace.ts:377-405 | keeps every field except the orders; with distinct ids the result is every child numbered by its rank among its siblings |
| WorkspaceReindex.ReindexedAllKeys | apps/ui/src/lib/workspace.ts:384-404 | once every parent key has been renumbered, each item's order is its rank |
| WorkspaceReindex.CascadeStep | apps/ui/src/lib/workspace.ts:221-226 | one pass only adds ids of items in the collection |
| WorkspaceReindex.Closure | apps/ui/src/lib/workspace.ts:216-227 | the removed set is the least superset of the start that holds every item whose parent is removed |
| WorkspaceReindex.Without | apps/ui/src/lib/workspace.ts:229 | keeps exactly the items whose id is not removed |
| WorkspaceReindex.WithoutKeepsDistinct | apps/ui/src/lib/workspace.ts:229 | filtering keeps ids distinct |
| WorkspaceReindex.ClosureIsLeast | apps/ui/src/lib/workspace.ts:216-227 | any set that is closed under children and contains the start contains the closure |
| WorkspaceReindex.CascadePass | apps/ui/src/lib/workspace.ts:220-226 | one pass stays inside the closure; no change means the set is closed, and a change strictly shrinks the ids not yet removed |
| WorkspaceReindex.CascadeRemovedIds | apps/ui/src/lib/workspace.ts:216-227 | the `while (changed)` loop ends with exactly the closure of the removed id |
| WorkspaceReindex.RemoveWorkspaceItem | apps/ui/src/lib/workspace.ts:211-231 | an unknown id changes nothing; otherwise the result is the items outside the closure, renumbered per parent when ids are distinct |
| WorkspaceReindex.RemoveLeavesNoOrphans | apps/ui/src/lib/workspace.ts:211-231 | no kept item is the removed item, and none has a removed parent |
| WorkspaceDrop.Clamp | apps/ui/src/lib/workspace.ts:407-409 | the value when in range, else the nearer bound; `min` when the bounds cross |
| WorkspaceDrop.IndexOf | apps/ui/src/lib/workspace.ts:358 | `indexOf`: the first position of the id, or -1 exactly when it is absent |
| WorkspaceDrop.GroupsOnly | apps/ui/src/lib/workspace.ts:257-259 | keeps exactly the groups; distinct ids stay distinct |
| WorkspaceDrop.ChildrenOfDistinct | apps/ui/src/lib/workspace.ts:83-85 | children of a collection with distinct ids have distinct ids |
| WorkspaceDrop.WithoutOne | apps/ui/src/lib/workspace.ts:260 | filtering out one present id removes exactly one item |
| WorkspaceDrop.WithoutNone | apps/ui/src/lib/workspace.ts:260 | filtering out an absent id changes nothing |
| WorkspaceDrop.NextRootGroups | apps/ui/src/lib/workspace.ts:257-267 | the active group is in the new root group list |
| WorkspaceDrop.ApplyRootGroupOrder | apps/ui/src/lib/workspace.ts:274-285 | only root groups listed in the map change, and only their order, to the mapped value |
| WorkspaceDrop.GroupDropResult | apps/ui/src/lib/workspace.ts:251-286 | only root groups change, and only their order |
| WorkspaceDrop.MoveGroupByDrop | apps/ui/src/lib/workspace.ts:251-286 | the splice and numbering steps yield the group drop result: unchanged without a target group or onto the active group itself, else each root group takes its index in the new list |
| WorkspaceDrop.RootGroupsMembers | apps/ui/src/lib/workspace.ts:257-259 | the root groups are exactly the groups with no parent, with distinct ids |
| WorkspaceDrop.NextRootGroupsShape | apps/ui/src/lib/workspace.ts:257-267 | the new list holds each root group once, the active one included |
| WorkspaceDrop.RemainingRootGroupsShape | apps/ui/src/lib/workspace.ts:260 | the remaining list holds every other root group once, and not the active one |
| WorkspaceDrop.GroupDropOrderIsPosition | apps/ui/src/lib/workspace.ts:266-285 | after a group drop, each root group's order is its position in the new root list |
| WorkspaceDrop.NextRootGroupsPlacement | apps/ui/src/lib/workspace.ts:261-267 | dropping a root group on another puts it directly before the target in the new list |
| WorkspaceDrop.GroupDropPlacesBeforeTarget | apps/ui/src/lib/workspace.ts:251-286 | after dropping a root group on another, its order is exactly one less than the target's |
| WorkspaceDrop.GroupDropRenumbersRootGroups | apps/ui/src/lib/workspace.ts:251-286 | after a group drop, root group orders lie in 0..n-1 and no two root groups share one |
| WorkspaceDrop.PlacementIndex | apps/ui/src/lib/workspace.ts:356-362 | the insert index is the over item's position among the siblings, or the end when it is not among them |
| WorkspaceDrop.ReorderSiblingIds | apps/ui/src/lib/workspace.ts:347-367 | the sibling ids without the active one, with the active id inserted at the insert index |
| WorkspaceDrop.ReorderSiblingIdsPlacement | apps/ui/src/lib/workspace.ts:347-367 | dropping on a sibling of that parent places the active id directly before it; otherwise it goes last |
| WorkspaceDrop.ReorderSiblingIdsDistinct | apps/ui/src/lib/workspace.ts:347-367 | with distinct ids, the reordered list has no repeats and holds the active id and exactly the other siblings |
| WorkspaceDrop.ChildInSiblingIds | apps/ui/src/lib/workspace.ts:353-354 | every other child of the parent is in the sibling id list |
| WorkspaceDrop.SiblingIdIsChild | apps/ui/src/lib/workspace.ts:353-354 | every sibling id is the id of a child of the parent |
| WorkspaceDrop.FindEach | apps/ui/src/lib/workspace.ts:321-323 | looking up ids that all exist gives items with exactly those ids, in that order |
| WorkspaceDrop.Reparent | apps/ui/src/lib/workspace.ts:299-301 | only the active item changes, and only its parent |
| WorkspaceDrop.ReparentKeepsDistinct | apps/ui/src/lib/workspace.ts:299-301 | reparenting keeps ids distinct |
| WorkspaceDrop.ApplyTwoOrderMaps | apps/ui/src/lib/workspace.ts:328-344 | keeps every item except its order |
| WorkspaceDrop.ChildDropResult | apps/ui/src/lib/workspace.ts:288-345 | keeps the collection's length |
| WorkspaceDrop.MoveChildByDrop | apps/ui/src/lib/workspace.ts:288-345 | the reparenting, splice and renumbering steps yield the child drop result |
| WorkspaceDrop.OrdersFollowList | apps/ui/src/lib/workspace.ts:303-344 | when listed children carry their list positions as orders, the parent's sorted children are exactly the list |
| WorkspaceDrop.ListedIndices | apps/ui/src/lib/workspace.ts:303-344 | the listed ids' items form the sorted sibling list of the parent, each with its position as order |
| WorkspaceDrop.TargetIdsAreChildren | apps/ui/src/lib/workspace.ts:299-321 | after reparenting, every reordered id is a distinct child of the target |
| WorkspaceDrop.ChildDropKeepsParents | apps/ui/src/lib/workspace.ts:299-344 | the drop result keeps every id and the parents set by reparenting |
| WorkspaceDrop.RelabelKeepsChildren | apps/ui/src/lib/workspace.ts:299-344 | changing only orders keeps ids distinct and keeps the listed children |
| WorkspaceDrop.ChildDropListsTarget | apps/ui/src/lib/workspace.ts:288-345 | after a child drop, the active item is under the target, and the target's sorted children are exactly the reordered ids, numbered 0..n-1 |
| WorkspaceDrop.TargetChildrenListed | apps/ui/src/lib/workspace.ts:299-321 | every child of the target after reparenting is in the reordered list |
| WorkspaceDrop.ApplyOrderMapFollowsList | apps/ui/src/lib/workspace.ts:305-317 | with every child listed, each child of the parent takes its mapped order |
| WorkspaceDrop.ApplyTwoOrderMapsFollowsList | apps/ui/src/lib/workspace.ts:325-344 | with a different source parent, each child of the target takes its order from the target map |
| WorkspaceDrop.TargetOrders | apps/ui/src/lib/workspace.ts:288-345 | every listed child of the target takes its position in the reordered list as order |
| WorkspaceDrop.DropResult | apps/ui/src/lib/workspace.ts:233-249 | keeps the collection's length |
| WorkspaceDrop.MoveItemByDrop | apps/ui/src/lib/workspace.ts:233-249 | dropping on itself, or an unknown active or over id, changes nothing; otherwise the group or child path runs |
| WorkspaceDrop.WithoutAt | apps/ui/src/lib/workspace.ts:320 | filtering out the id of one entry of a list with distinct ids removes exactly that entry |
| WorkspaceDrop.ChildrenAfterLeaving | apps/ui/src/lib/workspace.ts:299-320 | once the dragged item moves to another group, the group it left lists its old children without it, in the same sequence |
| WorkspaceDrop.SortedSiblingsAfterLeaving | apps/ui/src/lib/workspace.ts:299-320 | dropping the moved item from the sorted siblings of its old parent leaves a sorted list of the remaining siblings |
| WorkspaceDrop.ChildDropRenumbersSource | apps/ui/src/lib/workspace.ts:320-344 | after a drop into another group, the ids under the source group are its old children's minus the dragged one, numbered 0..m-1 |
| WorkspaceDrop.ChildDropSourceChildren | apps/ui/src/lib/workspace.ts:320-344 | after a drop into another group, the k-th child of the source group is its old k-th remaining child with order k |
| WorkspaceDrop.ChildDropKeepsOtherParents | apps/ui/src/lib/workspace.ts:328-344 | a child drop leaves every item under neither the source nor the target group as it was |
| WorkspaceDrop.DropKeepsDistinct | apps/ui/src/lib/workspace.ts:233-249 | a drop keeps the ids of the collection distinct |
| WorkspaceDrop.DropIntoOtherGroup | apps/ui/src/lib/workspace.ts:233-344 | dropping a tab or file into another group renumbers the source group's remaining children 0..m-1 in their old sequence and leaves every item under neither group untouched |
| WorkspaceDrop.DropKeepsItems | apps/ui/src/lib/workspace.ts:233-345 | a drop changes only orders and parents, and only the active item changes parent |
| Url.SchemeRun | apps/ui/src/lib/workspace.ts:417 | the longest run of scheme characters at the start of the text |
| Url.Utf8 | apps/ui/src/lib/workspace.ts:423 | one to four bytes per character, one exactly for ASCII, which encodes as itself |
| Url.EncodeChar | apps/ui/src/lib/workspace.ts:423 | an unreserved character stays as it is; any other becomes percent escapes of its UTF-8 bytes |
| Url.EncodeUriComponent | apps/ui/src/lib/workspace.ts:423 | the output has only unreserved characters and upper-case percent escapes, is never shorter, and is non-empty for non-empty input |
| Url.EncodeUnreservedIsIdentity | apps/ui/src/lib/workspace.ts:423 | text of unreserved characters only encodes as itself |
| Url.EncodedHasNoSpace | apps/ui/src/lib/workspace.ts:422-423 | encoded text contains no space and no whitespace at all |
| Url.NormalizeUrl | apps/ui/src/lib/workspace.ts:411-427 | blank input gives the bare search site; trimmed text starting with a letter, a run of scheme characters and `://` is kept; text with a space or no dot becomes an encoded search query; otherwise `https://` is prefixed |
| Url.NormalizeUrlShape | apps/ui/src/lib/workspace.ts:411-427 | every normalised URL has a scheme and no surrounding whitespace |
| Url.SearchUrlShape | apps/ui/src/lib/workspace.ts:423 | a search URL for a non-empty query has a scheme and no surrounding whitespace |
| Url.NormalizeUrlIdempotent | apps/ui/src/lib/workspace.ts:411-427 | normalising a normalised URL changes nothing |
| Strings.Trim | apps/ui/src/lib/workspace.ts:412 | the text with its leading and trailing whitespace cut off: a slice of the text with whitespace only before and after it, no whitespace at either end, empty exactly when the text is all whitespace |
| Strings.TrimOfTrimmed | apps/ui/src/lib/workspace.ts:412 | trimming text that is already trimmed changes nothing |
| Strings.TrimIdempotent | apps/ui/src/lib/workspace.ts:412 | trimming twice equals trimming once |
| Strings.JsTrim | apps/ui/src/lib/session-state.ts:233 | the result has no JavaScript whitespace at either end, and is empty exactly for all-whitespace text |
| Strings.RustTrim | apps/shell/src/shared/simple_handler/mod.rs:362 | the result has no Unicode whitespace at either end, and is empty exactly for all-whitespace text |
| Strings.ToLower | apps/ui/src/lib/commands.ts:222 | each character lower-cased in place; the length is kept |
| Strings.ToUpper | apps/ui/src/lib/commands.ts:249-256 | each character upper-cased in place; the length is kept |
| Strings.Split | apps/ui/src/lib/commands.ts:166-167 | the parts hold no separator and join back to the text |
| Strings.SplitJoin | apps/ui/src/lib/commands.ts:166-167 | splitting joined separator-free parts gives back the parts |
| Commands.IndexOfCommand | apps/ui/src/lib/commands.ts:28-109 | each command's position in the definition table holds that command |
| Commands.DefinitionIdsDistinct | apps/ui/src/lib/commands.ts:28-109 | no two definitions share an id |
| Commands.FromEntries | apps/ui/src/lib/commands.ts:111-113 | `Object.fromEntries` has a key exactly for each entry's id |
| Commands.FromEntriesLookup | apps/ui/src/lib/commands.ts:111-113 | with distinct keys, every entry is looked up as its own value |
| Commands.CommandMapIsTable | apps/ui/src/lib/commands.ts:111-113 | the command map has every command, mapped to its own definition |
| Commands.DefaultShortcutMapEntries | apps/ui/src/lib/commands.ts:117-121 | the default shortcut map has every command, holding its default bindings |
| Commands.SwitchName | apps/ui/src/lib/commands.ts:223-246 | no name exactly for the bare modifier keys; the other cases give one of the fixed names |
| Commands.KeyName | apps/ui/src/lib/commands.ts:222-256 | a name, when there is one, is non-empty and trimmed |
| Commands.NormalizedKey | apps/ui/src/lib/commands.ts:216-257 | blank keys have no name; every name is non-empty and trimmed |
| Commands.SpaceBarHasNoKey | apps/ui/src/lib/commands.ts:217-239 | the key `" "` is trimmed to nothing before the `" "` case is reached, so the space bar has no name |
| Commands.NormalizedKeyCases | apps/ui/src/lib/commands.ts:216-246 | each case of the switch gives its fixed name, and a key has no name exactly when it is blank or a bare modifier |
| Commands.FixedNameIsKept | apps/ui/src/lib/commands.ts:229-243 | each fixed name is read back as itself |
| Commands.NormalizedKeyIdempotent | apps/ui/src/lib/commands.ts:216-257 | a name read again as a key gives the same name |
| Commands.ShortcutParts | apps/ui/src/lib/commands.ts:166-169 | every part is non-empty and free of `+` |
| Commands.NormalizeShortcut | apps/ui/src/lib/commands.ts:165-214 | the loop over the parts gives the canonical text: the modifiers named, in fixed order, then the name of the last non-modifier part; `""` when there is none |
| Commands.OrderModifiers | apps/ui/src/lib/commands.ts:199-211 | the present modifiers, in the order Ctrl, Meta, Alt, Shift |
| Commands.EventModifiers | apps/ui/src/lib/commands.ts:149-160 | a modifier is held exactly when its flag is set |
| Commands.KeyboardEventToShortcut | apps/ui/src/lib/commands.ts:142-163 | no text when the key has no name; otherwise the held modifiers in fixed order, then the key, joined by `+` |
| Commands.ModifierNamesRoundTrip | apps/ui/src/lib/commands.ts:174-211 | the ordered modifier names are trimmed, free of `+` and read back as the same set of modifiers |
| Commands.ShortcutTextRoundTrip | apps/ui/src/lib/commands.ts:142-214 | canonical shortcut text is its own canonical form when the key is neither `+` nor a modifier word |
| Commands.EventShortcutRoundTrip | apps/ui/src/lib/commands.ts:142-214 | the text of a key event, typed as a binding, normalises to the same text unless the key is `+` or a modifier word |
| Commands.PlusKeyHasNoBinding | apps/ui/src/lib/commands.ts:142-214 | Ctrl with the `+` key gives `"Ctrl++"`, and that binding normalises to `""`, so no binding can match it |
| Commands.FirstWhere | apps/ui/src/lib/commands.ts:132-137 | the first definition passing the test, with every earlier one failing it |
| Commands.FindDefinition | apps/ui/src/lib/commands.ts:132-137 | the loop stops at the first definition passing the test |
| Commands.ResolveCommandFromKeyboardEvent | apps/ui/src/lib/commands.ts:123-140 | none when the event has no shortcut; otherwise the first command in table order with a binding whose canonical text is the event's |
| Commands.DefaultBindingResolves | apps/ui/src/lib/commands.ts:123-140 | with the default map, an event matching a default binding of a command runs that command or one listed before it |
| Commands.DefaultBindingIsBound | apps/ui/src/lib/commands.ts:133-134 | a definition whose stored binding normalises to the shortcut passes the test |
| Json.Field | apps/ui/src/lib/session-state.ts:198 | a field is found exactly in an object that has that key |
| Json.AsString | apps/ui/src/lib/session-state.ts:198 | a string exactly when the value is present and a JSON string |
| Json.Trunc | apps/ui/src/lib/session-state.ts:256 | `Math.trunc`: the integer part, rounded toward zero for negative and positive values alike |
| SessionState.AsNonEmptyString | apps/ui/src/lib/session-state.ts:228-239 | a string that is not blank, trimmed; nothing for other values |
| SessionState.AsNonEmptyStringOfClean | apps/ui/src/lib/session-state.ts:228-239 | a trimmed, non-empty string is read back as itself |
| SessionState.AsNullableString | apps/ui/src/lib/session-state.ts:241-250 | a string as it is; nothing for null, a missing field or any other value |
| SessionState.AsInteger | apps/ui/src/lib/session-state.ts:252-257 | a number, truncated; nothing for other values; an integer is kept as it is |
| SessionState.ParseWorkspaceItem | apps/ui/src/lib/session-state.ts:122-178 | only records parse; a parsed item's id, kind and title are the trimmed non-blank fields, its parent the string field, its order the truncated number; urls are normalised |
| SessionState.KeptItems | apps/ui/src/lib/session-state.ts:100-113 | the kept items have distinct ids, and each came from a parse |
| SessionState.WorkspaceItemsOf | apps/ui/src/lib/session-state.ts:95-120 | none unless the value is an array; otherwise a non-empty list of clean items with distinct ids, or none when no candidate parses |
| SessionState.ParseWorkspaceItems | apps/ui/src/lib/session-state.ts:95-120 | the loop with its `seenIds` set computes the kept items |
| SessionState.KeepFirst | apps/ui/src/lib/session-state.ts:104-112 | one loop step: a parsed item whose id is new is appended and its id recorded; the set stays the ids of the list |
| SessionState.KeptItemsStep | apps/ui/src/lib/session-state.ts:103-113 | one more candidate is appended exactly when it parses and its id is new |
| SessionState.KeptItemsFirstWins | apps/ui/src/lib/session-state.ts:100-113 | every kept item is the first parse with its id, and every id that parses is kept |
| SessionState.KeptItemsOfDistinct | apps/ui/src/lib/session-state.ts:100-113 | items with distinct ids are all kept, in order |
| SessionState.FirstTab | apps/ui/src/lib/session-state.ts:185 | the first browser tab, or past the end when there is none |
| SessionState.PickSelectedItemId | apps/ui/src/lib/session-state.ts:180-191 | always an id of the items: the candidate when it is a known id, else the first tab's id, else the first item's |
| SessionState.FindTab | apps/ui/src/lib/session-state.ts:202-205 | the first browser tab with that id |
| SessionState.PickAddress | apps/ui/src/lib/session-state.ts:193-218 | a non-blank candidate as it is; else the selected tab's url, else the first tab's, else the default address; non-blank when tab urls are |
| SessionState.Sanitize | apps/ui/src/lib/session-state.ts:60-93 | none exactly for non-records, numeric versions other than 0 and 1, and items of which none parses; otherwise the parsed items, the selected id picked among them from `selectedItemId`, and the address picked from `address` |
| SessionState.ParseUiSessionState | apps/ui/src/lib/session-state.ts:40-49 | text that does not parse gives none; otherwise the sanitised value |
| SessionState.ItemJson | apps/ui/src/lib/session-state.ts:51-57 | the JSON of an item holds each of its fields under its own name |
| SessionState.Serialize | apps/ui/src/lib/session-state.ts:51-58 | the envelope holds exactly `version` 1, the items, the selected id and the address |
| SessionState.ItemRoundTrip | apps/ui/src/lib/session-state.ts:122-178 | a clean item written to JSON parses back to itself |
| SessionState.ItemsRoundTrip | apps/ui/src/lib/session-state.ts:95-120 | a non-empty list of clean items with distinct ids is read back unchanged |
| SessionState.SerializeRoundTrip | apps/ui/src/lib/session-state.ts:40-93 | every well-formed state serialised and parsed again is the same state |
| SessionState.SanitizeWellFormed | apps/ui/src/lib/session-state.ts:60-93 | every state that sanitising accepts is well formed, so a second round trip keeps it |
| SessionState.NormalizedUrlIsClean | apps/ui/src/lib/session-state.ts:158 | stored urls are normalised, trimmed and non-empty, and normalising them again changes nothing |
| SessionState.DefaultUiSessionStateValue | apps/ui/src/lib/session-state.ts:30-38 | the default state is the initial workspace with `tab-edge` selected and its url as address |
| PulseHost.NonBlankString | apps/ui/src/lib/pulse-host.ts:78-89 | a string field that is not blank, as it is, untrimmed |
| PulseHost.ParsePulseTabRuntimeEventDetail | apps/ui/src/lib/pulse-host.ts:70-94 | falsy and non-object values give none; a detail exactly when `tabId` is a non-blank string; url and title when non-blank, untrimmed |
| PulseHost.DetailRoundTrip | apps/ui/src/lib/pulse-host.ts:70-94 | every detail whose present fields are non-blank, written as the shell writes it (absent fields as `null`), is read back unchanged |
| PulseHost.DetailJsonFields | apps/shell/src/shared/simple_handler/mod.rs:420-424 | the detail the shell writes holds `tabId`, and `url` and `title` as strings or `null` |
| PulseHost.OtherFieldsIgnored | apps/ui/src/lib/pulse-host.ts:70-94 | fields other than `tabId`, `url` and `title` do not change the result |
| PulseHost.UntrimmedTabIdUpdatesNothing | apps/ui/src/lib/pulse-host.ts:83 | an event whose tab id carries surrounding whitespace updates no item whose id is trimmed |
| Sidebar.ChildRows | apps/ui/src/components/workspace-sidebar.tsx:346-351 | each child becomes a row at depth 1, in order |
| Sidebar.BuildVisibleRows | apps/ui/src/components/workspace-sidebar.tsx:334-356 | the rows are the flattened roots of the collection |
| Sidebar.FlattenRoots | apps/ui/src/components/workspace-sidebar.tsx:338-353 | the nested loop gives each root at depth 0, followed by its children at depth 1 when it is an expanded group |
| Sidebar.RootsAtDepthZero | apps/ui/src/components/workspace-sidebar.tsx:338-353 | the depth-0 rows are exactly the roots, in order |
| Sidebar.VisibleRootsInOrder | apps/ui/src/components/workspace-sidebar.tsx:334-356 | the depth-0 rows of the sidebar are the root items in sorted order |
| Sidebar.RowsShape | apps/ui/src/components/workspace-sidebar.tsx:338-353 | there is one row per root plus one per shown child, and every row is a root or a shown child of an expanded root group |
| Sidebar.VisibleRowsDepth | apps/ui/src/components/workspace-sidebar.tsx:334-356 | depth is 0 or 1, and 0 exactly for root items |
| Sidebar.RootBlock | apps/ui/src/components/workspace-sidebar.tsx:338-353 | the rows of each root form one block, right after the rows of the earlier roots |
| Sidebar.NextRowIsRoot | apps/ui/src/components/workspace-sidebar.tsx:338-353 | after a root's block comes the next root at depth 0, or the end of the rows after the last root |
| Sidebar.ChildrenFollowTheirRoot | apps/ui/src/components/workspace-sidebar.tsx:339-351 | a root's row is followed directly by the rows of the children it shows |
| Sidebar.ChildrenFollowTheirGroup | apps/ui/src/components/workspace-sidebar.tsx:334-356 | in the sidebar, every expanded root group is followed directly by its children's rows |
| Sidebar.RowsDistinct | apps/ui/src/components/workspace-sidebar.tsx:338-353 | with distinct ids, no two rows show items with the same id |
| Sidebar.VisibleRowsDistinct | apps/ui/src/components/workspace-sidebar.tsx:334-356 | with distinct ids, the row keys the sortable list uses are distinct |
| Sidebar.DragEndMove | apps/ui/src/components/workspace-sidebar.tsx:76-83 | a move is requested exactly when there is a non-empty over id different from the active id, and it carries both ids |
| AppLoading.LoadInitialSessionState | apps/ui/src/App.tsx:81-99 | the host's saved state when it parses, else the browser-local one when it parses, else the default state |
| AppLoading.LoadedSessionWellFormed | apps/ui/src/App.tsx:81-99 | the loaded state is the default one or a well-formed state |
| AppLoading.LoadedSessionDistinct | apps/ui/src/App.tsx:81-99 | the loaded items always have distinct ids |
| AppLoading.InitialWorkspaceDistinct | apps/ui/src/lib/workspace.ts:28-77 | the ids of the initial workspace are distinct |
| AppLoading.HostSaveIsRestored | apps/ui/src/App.tsx:81-87 | a well-formed state saved to the host is what the next start loads |
| AppLoading.LocalSaveIsRestored | apps/ui/src/App.tsx:81-96 | when the host has nothing usable, a well-formed state saved locally is what the next start loads |
| AppLoading.NonBlankEntries | apps/ui/src/App.tsx:139-141 | keeps exactly the entries that are non-blank strings |
| AppLoading.StringsNotBlank | apps/ui/src/App.tsx:139-141 | keeps exactly the string entries that the blank test does not reject |
| AppLoading.StringsNotBlankOfStrings | apps/ui/src/App.tsx:139-141 | a list of non-blank strings passes the filter unchanged |
| AppLoading.NonBlankEntriesOfStrings | apps/ui/src/App.tsx:139-141 | stored bindings that are all non-blank are read back unchanged |
| AppLoading.StoredBindings | apps/ui/src/App.tsx:137-145 | a stored entry counts only when it is an array with at least one non-blank string, and then it is those strings |
| AppLoading.MergedLookup | apps/ui/src/App.tsx:134-146 | the merged map has the default keys; a command takes its stored bindings when they count, else its defaults |
| AppLoading.MergeStoredShortcuts | apps/ui/src/App.tsx:134-146 | the loop over the definitions computes the merged map |
| AppLoading.DefinitionIds | apps/ui/src/App.tsx:136 | the ids of the definition table, in order |
| AppLoading.LoadShortcutMap | apps/ui/src/App.tsx:121-152 | parsing the stored text and merging yields the stored shortcut map, and the defaults when there is no text, the text is not JSON, or it is `null` |
| AppLoading.DefinitionIdsComplete | apps/ui/src/App.tsx:136 | every command is in the definition table and in the default map, so the loop visits them all |
| AppLoading.ParsedShortcutMapLookup | apps/ui/src/App.tsx:128-146 | for parsed JSON, each command's entry is its stored bindings when they count, else its defaults |
| AppLoading.StoredShortcutMapLookup | apps/ui/src/App.tsx:121-152 | every command has bindings: its stored ones when they count, else its defaults |
| AppLoading.ShortcutMapJsonField | apps/ui/src/App.tsx:282 | the stored JSON holds each command's bindings under its id |
| AppLoading.BindingsRoundTrip | apps/ui/src/App.tsx:121-152 | a binding list with non-blank entries, stored and loaded again, is unchanged |
| AppLoading.ShortcutMapRoundTrip | apps/ui/src/App.tsx:121-152 | a complete map with non-blank bindings, stored and loaded again, is the same map |
| App.EveryCommandIsGranted | apps/ui/src/App.tsx:402-406 | every command's capability is granted, so the capability check never blocks a command |
| App.ResolveNextSelectionAfterTabClose | apps/ui/src/App.tsx:165-184 | the first tab among the closed tab's siblings, else the first tab anywhere, else the parent when it is still there, else the first item, else `""`; an id of the items whenever there are items |
| App.SelectedTab | apps/ui/src/App.tsx:200-204 | the selected item when it is a browser tab |
| App.SelectedTabIsFoundTab | apps/ui/src/App.tsx:200-204 | with distinct ids, the selected tab is the first tab with the selected id |
| App.DefaultParentId | apps/ui/src/App.tsx:207-208 | the first root item's id, or none without roots; the first root may be a tab, since `childrenOf` does not keep groups only |
| App.DefaultParentMayBeATab | apps/ui/src/App.tsx:207-208 | a collection whose only root is a tab makes that tab the default parent of new tabs |
| App.AddBrowserTabOfNormalUrl | apps/ui/src/lib/workspace.ts:157-177 | for a fresh id and an already normal url, `addBrowserTab` appends the opened tab and returns its id |
| App.NewTabIsAddBrowserTab | apps/ui/src/App.tsx:321-329 | the new-tab handler appends what `addBrowserTab` appends for the search site |
| App.NavigateTabIsAddBrowserTab | apps/ui/src/App.tsx:371-377 | navigating without a selected tab appends what `addBrowserTab` appends for the address |
| App.InitialAppStateValid | apps/ui/src/App.tsx:186-193 | the state the app starts with is valid and the settings dialog is closed |
| App.OnSelect | apps/ui/src/App.tsx:305-311 | selects the item; for a tab, the address becomes its url and the host is told to activate it |
| App.OnToggleGroup | apps/ui/src/App.tsx:313-315 | toggles the group and keeps the state valid |
| App.OnAddGroup | apps/ui/src/App.tsx:317-319 | appends a root group named "New Group" and keeps the state valid |
| App.OnAddTab | apps/ui/src/App.tsx:321-330 | appends a tab for the search site, selects it, sets the address, and tells the host to create and activate it |
| App.OnCloseTab | apps/ui/src/App.tsx:332-358 | ignores ids that are not tabs; otherwise removes the tab and its descendants, tells the host, and when it was selected moves the selection and address to the next selection |
| App.OnNavigate | apps/ui/src/App.tsx:360-378 | the address is normalised; the selected tab navigates to it, or a new tab is opened and selected; either way the selected tab then shows the address |
| App.OnMoveByDrop | apps/ui/src/App.tsx:380-382 | the items become the drop result; nothing else changes and nothing is sent |
| App.OnTabRuntimeEvent | apps/ui/src/App.tsx:288-299 | applies the runtime update; the address follows the event's url only when the event's id is the selected tab's and the url is present and non-empty (the source's truthiness test) |
| App.ExecuteBrowserControl | apps/ui/src/App.tsx:384-390 | sends the control for the selected tab, or nothing without one |
| App.RunCommand | apps/ui/src/App.tsx:402-444 | each command does what its case does: a new tab is appended under the default parent, selected, shown in the address bar and announced to the host (ensure, then activate); closing the selected tab removes its subtree, sends the close, and moves the selection to the next tab with its url in the address bar (or empty); browser controls, new group, theme toggle and settings as their cases; focusing the address changes no state; theme and settings are untouched by tab commands |
| App.OnKeyDown | apps/ui/src/App.tsx:450-463 | handled exactly when the event reaches the commands and resolves to one; otherwise nothing changes |
| App.UpdatedTabStaysSelected | apps/ui/src/App.tsx:365-367 | after a URL update, the selected tab is still a tab and shows the new url |
| App.ClosedIdIsGone | apps/ui/src/App.tsx:338 | after removing a tab, ids stay distinct and the tab's id is gone |
| ShellState.LexLessIrreflexive | apps/shell/src/shared/state.rs:32 | the key order of the tab map is irreflexive |
| ShellState.LexLessTransitive | apps/shell/src/shared/state.rs:32 | the key order of the tab map is transitive |
| ShellState.LexLessTotal | apps/shell/src/shared/state.rs:32 | any two different keys are ordered one way or the other |
| ShellState.LeastIsUnique | apps/shell/src/shared/state.rs:229 | there is at most one least key, so "the first key" is well defined |
| ShellState.FirstKey | apps/shell/src/shared/state.rs:229 | none exactly for no keys; otherwise the least key in the map's order |
| ShellState.TabsOfBrowser | apps/shell/src/shared/state.rs:100-110 | exactly the tabs whose browser has the given id |
| ShellState.Clamp | apps/shell/src/shared/state.rs:330-331 | the value inside the bounds is kept; one outside becomes the nearer bound |
| ShellState.FallbackContentBounds | apps/shell/src/shared/state.rs:305-324 | origin (345, 104); width and height are what is left of the window after the sidebar, header and padding, at least 1 |
| ShellState.ClampToWindow | apps/shell/src/shared/state.rs:326-342 | the origin lies in the window; width and height are at least 1 and at most what remains of the window; values already in range are kept |
| ShellState.ClampIdempotent | apps/shell/src/shared/state.rs:326-342 | clamping a clamped rectangle changes nothing |
| ShellState.ClampedInsideWindow | apps/shell/src/shared/state.rs:326-342 | for a non-empty window the clamped rectangle lies wholly inside it |
| ShellState.FallbackFitsLargeWindow | apps/shell/src/shared/state.rs:305-342 | in a window of at least 370 by 129 the fallback bounds need no clamping |
| ShellState.ContentBounds | apps/shell/src/shared/state.rs:262-267 | the requested bounds, or the fallback without a request, clamped to the window |
| ShellState.AtMostOneShown | apps/shell/src/shared/state.rs:269-271 | at most one content tab is shown at a time |
| ShellState.ShellState.constructor | apps/shell/src/shared/state.rs:39-57 | no UI browser, no tabs, no active tab, a 1440 by 900 window, no requested bounds, content visible |
| ShellState.ShellState.SetUiBrowserId | apps/shell/src/shared/state.rs:60-62 | sets the UI browser id and nothing else |
| ShellState.ShellState.SetWindowBounds | apps/shell/src/shared/state.rs:81-84 | sets the window bounds and nothing else |
| ShellState.ShellState.SetContentBounds | apps/shell/src/shared/state.rs:86-89 | records the requested content bounds and nothing else |
| ShellState.ShellState.SetContentVisible | apps/shell/src/shared/state.rs:91-94 | sets content visibility and nothing else |
| ShellState.ShellState.RegisterContentTab | apps/shell/src/shared/state.rs:119-135 | inserts or replaces the tab; it becomes active only when no tab was active |
| ShellState.ShellState.ActivateTab | apps/shell/src/shared/state.rs:137-142 | the tab becomes active when it is registered; otherwise nothing changes |
| ShellState.ShellState.NavigateTab | apps/shell/src/shared/state.rs:152-163 | the load goes to the tab's browser when it is registered; content becomes visible either way |
| ShellState.ShellState.NavigateActiveTab | apps/shell/src/shared/state.rs:144-150 | without an active tab nothing happens; otherwise the active tab navigates |
| ShellState.ShellState.RemoveTab | apps/shell/src/shared/state.rs:205-214 | removes the tab; when it was active, the least remaining key becomes active, or none when none remain |
| ShellState.ShellState.CloseTab | apps/shell/src/shared/state.rs:219-234 | an unknown tab changes nothing; otherwise it is removed and its browser returned, and when it was active the least remaining key becomes active |
| ShellState.ShellState.TabIdForBrowserId | apps/shell/src/shared/state.rs:100-110 | the least tab whose browser has the id, or none when no tab has it |
| ShellState.ShellState.RemoveContentTabByBrowserId | apps/shell/src/shared/state.rs:193-217 | removes the least tab with that browser, if any; a removed active tab hands over to the least remaining key |
| ShellState.ShellState.ClearContentTabs | apps/shell/src/shared/state.rs:236-246 | no tabs and no active tab remain; the rest is unchanged |
| ShellState.ShellState.LayoutContentViews | apps/shell/src/shared/state.rs:261-292 | each tab is shown exactly when content is visible and it is the active tab; at most one is shown; all shown tabs get the clamped content bounds |
| Persistence.AsU64 | apps/shell/src/shared/persistence.rs:223 | a value reads as an unsigned 64-bit integer exactly when it is an integer in that range |
| Persistence.DecodeLegacyEnvelopeV0 | apps/shell/src/shared/persistence.rs:250-261 | `state` wins over `ui_state`; with neither it fails; a legacy state always needs rewriting |
| Persistence.DecodePersistedValue | apps/shell/src/shared/persistence.rs:207-248 | non-objects and objects without `schema_version` are legacy states to rewrite; a version that is not an unsigned integer fails; version 1 needs `ui_state`; version 0 is the legacy envelope; later versions fail |
| Persistence.NoRewriteOnlyForV1 | apps/shell/src/shared/persistence.rs:207-248 | a decoded state needs no rewrite only when the file is a version 1 envelope, and then it is its `ui_state` |
| Persistence.EnvelopeRoundTrip | apps/shell/src/shared/persistence.rs:207-241 | the envelope a save writes decodes to its state, with no rewrite needed |
| Persistence.RewriteKeepsState | apps/shell/src/shared/persistence.rs:64-69 | rewriting a legacy file keeps its state and the rewritten file needs no further rewrite |
| Persistence.ReadStateFile | apps/shell/src/shared/persistence.rs:194-205 | a missing file reads as nothing; an unreadable or unparseable one fails; otherwise the decode result |
| Persistence.UsableState | apps/shell/src/shared/persistence.rs:64-98 | a file yields a state exactly when it reads successfully and holds one |
| Persistence.SaveCommits | apps/shell/src/shared/persistence.rs:113-148 | a save succeeds exactly when no step fails, or only the rotation fails when there was no primary to rotate; on success the new envelope is the primary, the old primary the backup, and no temp file remains |
| Persistence.SaveKeepsPreviousPrimary | apps/shell/src/shared/persistence.rs:113-148 | whatever fails, the previous primary survives as primary or backup, and once the temp file is written the new state is on disk |
| Persistence.LoadPrefersPrimary | apps/shell/src/shared/persistence.rs:64-70 | a usable primary is returned; a legacy one is first rewritten as a version 1 envelope, with the old one as backup |
| Persistence.LoadFallsBackToBackup | apps/shell/src/shared/persistence.rs:80-89 | without a usable primary, a usable backup is returned, kept, and copied back as primary unless that copy fails |
| Persistence.LoadFindsNothing | apps/shell/src/shared/persistence.rs:71-97 | with neither file usable, nothing is returned and no file changes |
| Persistence.LoadFailsOnlyOnRewrite | apps/shell/src/shared/persistence.rs:54-99 | a load fails only when a legacy primary has to be rewritten and that save fails |
| Persistence.SaveThenLoad | apps/shell/src/shared/persistence.rs:54-148 | after a successful save, a load returns the saved state and changes no file |
| Persistence.LoadAgainFindsSameState | apps/shell/src/shared/persistence.rs:54-99 | a second load after a successful one returns the same state and changes nothing |
| Persistence.StateStore.SaveInner | apps/shell/src/shared/persistence.rs:113-148 | the files after the save and its success are those of the save outcome; a failure names the failed step |
| Persistence.StateStore.RestorePrimaryCopy | apps/shell/src/shared/persistence.rs:150-173 | the files after the restore and its success are those of the restore outcome |
| Persistence.StateStore.Load | apps/shell/src/shared/persistence.rs:54-99 | the files after the load and its result are those of the load outcome |
| SimpleHandler.TrimTrailingSlashes | apps/shell/src/shared/simple_handler/mod.rs:459 | the longest prefix that does not end in `/`; only slashes are removed |
| SimpleHandler.IsTrustedUiUrl | apps/shell/src/shared/simple_handler/mod.rs:458-461 | a url is trusted exactly when it starts with the origin, trailing slashes removed, and either ends there or continues with `/` |
| SimpleHandler.TrailingSlashIgnored | apps/shell/src/shared/simple_handler/mod.rs:458-461 | a trailing slash on the origin does not change which urls are trusted |
| SimpleHandler.LongerPortIsNotTrusted | apps/shell/src/shared/simple_handler/mod.rs:458-461 | an origin does not trust a url whose port merely starts with its own |
| SimpleHandler.ListStringArg | apps/shell/src/shared/simple_handler/mod.rs:463-469 | none exactly past the end of the list, otherwise the entry |
| SimpleHandler.ParseI32 | apps/shell/src/shared/simple_handler/mod.rs:471-473 | Rust's `parse::<i32>`: a value exactly for an optional `+` or `-` followed by at least one ASCII digit and nothing else, with the signed value in the 32-bit range; that value is the result, and every other string (empty, a lone sign, trailing text, out of range) gives none |
| SimpleHandler.DecimalDigits | apps/shell/src/shared/simple_handler/mod.rs:471-473 | the digits of a natural number, read back to the same number |
| SimpleHandler.FormatI32 | apps/shell/src/shared/simple_handler/mod.rs:337-339 | a non-empty decimal text for every 32-bit value |
| SimpleHandler.ParseFormatRoundTrip | apps/shell/src/shared/simple_handler/mod.rs:471-473 | every 32-bit value, written in decimal, parses back to itself |
| SimpleHandler.ListI32Arg | apps/shell/src/shared/simple_handler/mod.rs:471-473 | none past the end; otherwise the trimmed entry parsed as a 32-bit integer |
| SimpleHandler.ListBoolArg | apps/shell/src/shared/simple_handler/mod.rs:475-482 | true exactly for a trimmed, lower-cased `1` or `true`, false exactly for `0` or `false`, otherwise none |
| SimpleHandler.InitialTabUrl | apps/shell/src/shared/simple_handler/mod.rs:378-382 | a blank initial url becomes `about:blank`, otherwise the trimmed url; never empty |
| SimpleHandler.RequestedBounds | apps/shell/src/shared/simple_handler/mod.rs:329-348 | bounds exactly when all four arguments parse; x and y as given, width and height raised to at least 1 |
| SimpleHandler.Retain | apps/shell/src/shared/simple_handler/mod.rs:174-175 | every copy of the closing id is dropped and every other id keeps its count |
| SimpleHandler.RetainConcat | apps/shell/src/shared/simple_handler/mod.rs:174-175 | retaining distributes over concatenation |
| SimpleHandler.SimpleHandler.constructor | apps/shell/src/shared/simple_handler/mod.rs:47-60 | the handler keeps its role, shared state, trusted origin and content client, and starts with no browsers listed |
| SimpleHandler.SimpleHandler.OnAfterCreated | apps/shell/src/shared/simple_handler/mod.rs:142-161 | a created browser is appended to the list; the UI handler records it as the UI browser and changes nothing else of the shared state; a content handler and a missing browser leave the state unchanged |
| SimpleHandler.SimpleHandler.OnBeforeClose | apps/shell/src/shared/simple_handler/mod.rs:168-192 | the closing browser leaves the list; the UI handler forgets it as UI browser; the content handler removes the first tab hosting it and, when that tab was active, activates the first remaining tab or none; visibility and bounds are kept; the loop quits exactly when the UI handler has no browsers left |
| SimpleHandler.SimpleHandler.EnsureTab | apps/shell/src/shared/simple_handler/mod.rs:361-404 | a view is requested exactly for a non-blank trimmed id that is not registered, when there is a content client; a created view is registered under the trimmed id |
| SimpleHandler.SimpleHandler.ActivateTabCommand | apps/shell/src/shared/simple_handler/mod.rs:245-258 | a registered tab becomes active and content becomes visible |
| SimpleHandler.SimpleHandler.NavigateTabCommand | apps/shell/src/shared/simple_handler/mod.rs:259-277 | a blank url does nothing; otherwise the tab is ensured (a created view is registered under the trimmed id), activated when registered under the id as sent, and its browser loads the trimmed url; content becomes visible; the UI browser and bounds are kept; a tab registered under a trimmed id is not found by the untrimmed one |
| SimpleHandler.SimpleHandler.CloseTabCommand | apps/shell/src/shared/simple_handler/mod.rs:278-293 | an unknown tab does nothing; otherwise the tab is removed, its browser, if any, is closed, and when it was active the first remaining tab in key order, or none, becomes active; everything else is kept |
| SimpleHandler.SimpleHandler.NavigateCommand | apps/shell/src/shared/simple_handler/mod.rs:318-328 | a blank url or no active tab does nothing; otherwise the active tab's browser loads the trimmed url and content becomes visible; tabs, the UI browser and bounds are kept |
| SimpleHandler.SimpleHandler.BrowserForTab | apps/shell/src/shared/state.rs:345-348 | the browser of a registered tab, when it has one; none for an unknown tab |
| SimpleHandler.SimpleHandler.OnProcessMessageReceived | apps/shell/src/shared/simple_handler/mod.rs:194-359 | claims exactly pulse host command messages from the renderer to the UI handler; a message from another browser, an untrusted frame or without arguments changes nothing |
| ShellMain.NonEmpty | apps/shell/src/main.rs:67-74 | none exactly for a blank value, otherwise the trimmed, non-empty value |
| ShellMain.ResolveUpdateUrl | apps/shell/src/main.rs:60-65 | the trimmed environment value when it is not blank, else the trimmed compiled-in value when it is not blank, else none |
| ShellMain.FlagAt | apps/shell/src/main.rs:146-159 | a value found at one argument is never blank |
| ShellMain.FlagFrom | apps/shell/src/main.rs:146-162 | a value found from an argument onwards is never blank |
| ShellMain.FlagFromNone | apps/shell/src/main.rs:146-162 | nothing is found exactly when no argument from there on yields a value |
| ShellMain.FlagFromIsFirstHit | apps/shell/src/main.rs:146-162 | the value found is the one at the first argument that yields one |
| ShellMain.ResolveFlagFromArgs | apps/shell/src/main.rs:142-163 | the loop over the arguments returns the first value for the flag, either `flag=value` or `flag value` |
| ShellMain.FlagFoundInPrefix | apps/shell/src/main.rs:142-163 | arguments after a hit do not change what is found |
| ShellMain.ResolveDefaultUiUrl | apps/shell/src/main.rs:120-126 | the development server in debug builds or without a packaged UI, else the packaged UI url |
| ShellMain.NonBlank | apps/shell/src/main.rs:94-102 | keeps a value exactly when it is present and not blank |
| ShellMain.ResolveUiUrl | apps/shell/src/main.rs:94-98 | `--pulse-ui-url`, else `--ui-url`, else a non-blank `PULSE_UI_URL`, else the default |
| ShellMain.ResolveContentUrl | apps/shell/src/main.rs:99-102 | `--pulse-content-url`, else a non-blank `PULSE_URL`, else the Edge page |
| ShellMain.PathWithCef | apps/shell/src/main.rs:77-91 | a new `PATH` exactly when `CEF_PATH` is set, non-empty and not already an entry (ignoring ASCII case); it is then appended after `;` |
| ShellMain.JoinAppend | apps/shell/src/main.rs:80-85 | appending an entry adds one separator and the entry to the joined path |
| ShellMain.CefPathAddedOnce | apps/shell/src/main.rs:77-91 | once added, `CEF_PATH` is not added a second time |
| ShellMain.PickUiUrl | apps/shell/src/main.rs:94-98 | the UI url the start-up code picks |
| ShellMain.PickContentUrl | apps/shell/src/main.rs:99-102 | the content url the start-up code picks |
| ShellMain.EnvVar | apps/shell/src/main.rs:77-79 | a variable is read exactly when it is set |
| ShellMain.ProcessEnvironment.ConfigureRuntimeEnv | apps/shell/src/main.rs:76-118 | `PATH` gains `CEF_PATH` when needed, `PULSE_UI_URL` and `PULSE_URL` become the picked urls, and no other variable changes |

## Left out

- Rendering: React rendering, hooks, dnd-kit gesture sensing and the settings dialog. Only the state each handler computes is modelled.
- The `useEffect` side effects of `App.tsx` are left out because they are I/O and timers. These are:
  - sending `ensure-tab`/`activate-tab` when the selection changes;
  - sending `set-content-visible`;
  - reporting content bounds through `ResizeObserver`;
  - the debounced session save;
  - the theme and shortcut writes to `localStorage`.
- `loadInitialDarkMode` and `focusAddressBar` read or touch the DOM and `localStorage`. The dark-mode flag is an input of the initial state, and the focus command changes no state.
- Browser bridges become parameters because they are foreign calls:
  - `sendPulseHostCommand` is modelled by the messages a handler returns;
  - `loadPulseHostState`, `savePulseHostState` and `localStorage` reads are the optional texts passed to the loaders.
- `JSON.parse` is the `parseJson` parameter of `AppLoading`; serde_json's parse of a state file is not modelled as text either: `Persistence.StateFile` records its outcome, a parsed value (`Holds`) or an unreadable or non-JSON file (`Garbled`).
- `JSON.stringify` and serde_json serialisation are left out: `SessionState.Serialize`, `AppLoading.ShortcutMapJson` and `Persistence.Envelope` stop at a JSON value, and the step to text is not modelled.
- `crypto.randomUUID` is the `newId` parameter, with "not already an item id" as a precondition.
- `titleFromUrl` uses the WHATWG URL parser, so it is the `titleFromUrl` parameter.
- `isEditableElement` inspects the DOM, so it is the `targetEditable` parameter.
- Floating point: `order` is an integer. `Number.isFinite` and `Math.trunc` act on an exact real, and a JSON number is an integer or a real.
- Strings.ToLower, Strings.ToUpper: case mapping covers ASCII letters only; JavaScript's full Unicode case mapping of other letters is not modelled.
- `encodeURIComponent` on lone surrogate halves, which throws, is not modelled: Dafny's `char` is a Unicode scalar value.
- CEF calls are left out because they are foreign:
  - overlay views and `set_ui_view`/`set_window` attachment;
  - `layout_ui_view`;
  - the `can_go_back`/`can_go_forward` checks and the control calls themselves;
  - `tab_runtime_url`, and the dispatch of the `pulse:tab-runtime-updated` event to the UI browser by `emit_tab_runtime_update` (the JSON detail it sends is `PulseHost.DetailJson`);
  - `on_address_change` and `on_title_change`;
  - browser creation.
  A tab's browser is an optional id; a created view is the `created` parameter; a close or load request is a returned value.
- 32-bit arithmetic in `fallback_content_bounds` and `clamp_to_window` is on unbounded integers. The i32 subtractions there cannot overflow for window sizes CEF reports, and the model does not check that.
- The filesystem in `persistence.rs` is three abstract slots:
  - `create_dir_all`, `fsync` and the directory itself are left out;
  - the result of `remove_file` (ignored by the source) is assumed to be success;
  - a failure is the step named in the `fail` parameter.
- The `io_lock` mutex and the shell-state `Mutex` are concurrency and are left out; each operation runs alone.
- The clock is the `now` parameter.
- `load_ui_state_json` and `save_ui_state_json` only add JSON text conversion around the modelled load and save.
- The velopack updater thread in `main.rs` is concurrency and network. `resolve_packaged_ui_url` reads the filesystem, so it is the `packagedUiUrl` parameter; `cfg!(debug_assertions)` is the `debugBuild` parameter.
- `eprintln!` logging is left out.
- WorkspaceDrop.MoveGroupByDrop: the group-drop loop that numbers the root groups is modelled by building the same order map with `BuildOrderMap`.
- App.OnKeyDown: the contract states when a key event is handled and that an unhandled one changes nothing; what the handled command does is stated by `App.RunCommand`.
- SimpleHandler.SimpleHandler.OnProcessMessageReceived: the contract states the return value and the guards that make a message do nothing; what each command does is stated by the per-command methods it calls.
- App.OnAddTab: the default parent is an argument. `App.RunCommand` passes `DefaultParentId`, as the source does.
