/**
 * The state the UI shell keeps (the workspace items, the selected item and
 * the address bar) and the handlers that change it: selecting, adding and
 * closing tabs, navigating, the command runner with its capability gate and
 * the keyboard handler in front of it.
 *
 * Commands sent to the native host are recorded, in order, in `sent`.
 * `crypto.randomUUID` is the `newId` parameter, a fresh id, and the WHATWG
 * URL parser behind `titleFromUrl` is the `titleFromUrl` parameter.
 */
module App {
  import opened Wrappers
  import opened Strings
  import opened Url
  import opened Workspace
  import opened WorkspaceReindex
  import opened WorkspaceDrop
  import opened SessionState
  import opened Commands
  import opened PulseHost
  import opened AppLoading

  /** The url a new tab opens. */
  const NewTabUrl: string := "https://duckduckgo.com"

  /** The four browser controls the runner forwards to the host. */
  datatype BrowserAction = Back | Forward | Reload | Stop

  /** A command sent to the native host with `sendPulseHostCommand`. */
  datatype HostCommand =
    | EnsureTab(tabId: string, url: string)
    | ActivateTab(tabId: string)
    | CloseTab(tabId: string)
    | NavigateTab(tabId: string, url: string)
    | Control(action: BrowserAction, tabId: string)

  /** `GRANTED_CAPABILITIES`. */
  const GrantedCapabilities: set<CommandCapability> := {WorkspaceMutate, WorkspaceNavigate, BrowserNavigate, UiSettings}

  /** The gate lets every defined command through. */
  lemma EveryCommandIsGranted(id: CommandId)
    ensures id in CommandMap() && CommandMap()[id].capability in GrantedCapabilities
  {
    CommandMapIsTable(id);
  }

  // ---------------------------------------------------------------------------
  // Selection after a tab closes

  /** The item `items.find((item) => item.id === parentId)` finds, given a truthy parent id. */
  predicate ParentStillThere(items: seq<Item>, parentId: Option<string>) {
    parentId.Some? && parentId.value != "" && HasId(items, parentId.value)
  }

  /** Some browser tab carries `id`. */
  predicate IsTabId(items: seq<Item>, id: string) {
    FindTab(items, id) < |items|
  }

  /**
   * `resolveNextSelectionAfterTabClose`, on the items left after the close:
   * the first tab among the closed tab's siblings in `childrenOf` order, else
   * the first tab anywhere, else the closed tab's parent, else the first item,
   * else the empty id.
   */
  function ResolveNextSelectionAfterTabClose(items: seq<Item>, closedTab: Item): (r: string)
    requires closedTab.BrowserTab?
    ensures items == [] ==> r == ""
    ensures items != [] ==> HasId(items, r)
    ensures FirstTab(items) < |items| ==> IsTabId(items, r)
    ensures var siblings := ChildrenOf(items, closedTab.parentId);
            FirstTab(siblings) < |siblings| ==> r == siblings[FirstTab(siblings)].id
    ensures var siblings := ChildrenOf(items, closedTab.parentId);
            FirstTab(siblings) == |siblings| && FirstTab(items) < |items| ==> r == items[FirstTab(items)].id
    ensures FirstTab(items) == |items| ==>
              r == (if ParentStillThere(items, closedTab.parentId) then closedTab.parentId.value
                    else if items != [] then items[0].id else "")
  {
    var siblings := ChildrenOf(items, closedTab.parentId);
    var sibling := FirstTab(siblings);
    if sibling < |siblings| then
      SiblingTabIsTab(items, siblings[sibling]);
      siblings[sibling].id
    else
      var anyTab := FirstTab(items);
      if anyTab < |items| then
        SiblingTabIsTab(items, items[anyTab]);
        items[anyTab].id
      else if ParentStillThere(items, closedTab.parentId) then
        closedTab.parentId.value
      else if items != [] then items[0].id
      else ""
  }

  /** A tab of the list makes its id a tab id and an id of the list. */
  lemma SiblingTabIsTab(items: seq<Item>, tab: Item)
    requires tab in items && tab.BrowserTab?
    ensures IsTabId(items, tab.id) && HasId(items, tab.id)
  {
    var i :| 0 <= i < |items| && items[i] == tab;
    assert FindTab(items, tab.id) <= i;
  }

  // ---------------------------------------------------------------------------
  // The key guard

  /** `onKeyDown` looks the event up unless its target is editable and none of Ctrl, Meta and Alt is held. */
  predicate KeyEventReachesCommands(targetEditable: bool, event: KeyEvent) {
    !(targetEditable && !event.ctrlKey && !event.metaKey && !event.altKey)
  }

  /** The browser control a command forwards. */
  function ControlOf(id: CommandId): Option<BrowserAction> {
    match id
    case BrowserBack => Some(Back)
    case BrowserForward => Some(Forward)
    case BrowserReload => Some(Reload)
    case BrowserStop => Some(Stop)
    case _ => None
  }

  // ---------------------------------------------------------------------------
  // Values derived from the shell's state

  /** `selectedTab`: the item `items.find` finds for the selected id, when it is a browser tab. */
  function SelectedTab(items: seq<Item>, selectedItemId: string): (tab: Option<Item>)
    ensures tab.Some? <==> HasId(items, selectedItemId) && items[IndexOfId(items, selectedItemId)].BrowserTab?
    ensures tab.Some? ==> tab.value == items[IndexOfId(items, selectedItemId)] && tab.value.id == selectedItemId
  {
    var k := IndexOfId(items, selectedItemId);
    if k < |items| && items[k].BrowserTab? then Some(items[k]) else None
  }

  /**
   * With distinct ids, finding the selected item and then checking that it is
   * a tab agrees with finding a tab carrying the selected id, which is how
   * `onCloseTab` looks its tab up.
   */
  lemma SelectedTabIsFoundTab(items: seq<Item>, selectedItemId: string)
    requires DistinctIds(items)
    ensures SelectedTab(items, selectedItemId).Some? <==> IsTabId(items, selectedItemId)
    ensures IsTabId(items, selectedItemId) ==> SelectedTab(items, selectedItemId) == Some(items[FindTab(items, selectedItemId)])
  {
    var k := IndexOfId(items, selectedItemId);
    var j := FindTab(items, selectedItemId);
    if k < |items| && items[k].BrowserTab? {
      assert j <= k;
    }
    if j < |items| {
      assert items[j].id == selectedItemId;
      assert k <= j;
    }
  }

  /** `selectedTabId` is truthy: a tab is selected and its id is not the empty string. */
  predicate HasSelectedTabId(items: seq<Item>, selectedItemId: string) {
    SelectedTab(items, selectedItemId).Some? && selectedItemId != ""
  }

  /** `defaultParentId`: the id of the first root item in sibling order. */
  function DefaultParentId(items: seq<Item>): (parentId: Option<string>)
    ensures parentId.Some? <==> ChildrenOf(items, None) != []
    ensures parentId.Some? ==> parentId.value == ChildrenOf(items, None)[0].id
  {
    var roots := ChildrenOf(items, None);
    if roots == [] then None else Some(roots[0].id)
  }

  /** The first root item need not be a group: new tabs then go under a tab. */
  lemma DefaultParentMayBeATab()
    ensures var items := [BrowserTab("t", None, 0, "T", "https://t.example")];
            DefaultParentId(items) == Some("t") && items[0].BrowserTab?
  {
    var items := [BrowserTab("t", None, 0, "T", "https://t.example")];
    ChildrenOfMembers(items, None);
    assert items[0] in ChildrenOf(items, None);
  }

  /**
   * The tab `addBrowserTab` appends for a url that is already normal: last
   * among the parent's children, titled after its url.
   */
  function OpenedTab(items: seq<Item>, parentId: Option<string>, url: string, newId: string, titleFromUrl: TitleFromUrl): Item {
    BrowserTab(newId, parentId, NextOrder(items, parentId), titleFromUrl(url), url)
  }

  /** For a normal url, `addBrowserTab` appends `OpenedTab`. */
  lemma AddBrowserTabOfNormalUrl(items: seq<Item>, parentId: Option<string>, url: string, newId: string, titleFromUrl: TitleFromUrl)
    requires !HasId(items, newId) && NormalizeUrl(url) == url
    ensures AddBrowserTab(items, parentId, url, newId, titleFromUrl) == (items + [OpenedTab(items, parentId, url, newId, titleFromUrl)], newId)
  {
  }

  /** `onAddTab` appends what `addBrowserTab` appends for the new-tab url. */
  lemma NewTabIsAddBrowserTab(items: seq<Item>, parentId: Option<string>, newId: string, titleFromUrl: TitleFromUrl)
    requires !HasId(items, newId)
    ensures AddBrowserTab(items, parentId, NewTabUrl, newId, titleFromUrl) == (items + [OpenedTab(items, parentId, NewTabUrl, newId, titleFromUrl)], newId)
  {
    NewTabUrlIsNormal();
    AddBrowserTabOfNormalUrl(items, parentId, NewTabUrl, newId, titleFromUrl);
  }

  /** `onNavigate` appends what `addBrowserTab` appends for the normalised address. */
  lemma NavigateTabIsAddBrowserTab(items: seq<Item>, parentId: Option<string>, address: string, newId: string, titleFromUrl: TitleFromUrl)
    requires !HasId(items, newId)
    ensures AddBrowserTab(items, parentId, address, newId, titleFromUrl)
         == (items + [OpenedTab(items, parentId, NormalizeUrl(address), newId, titleFromUrl)], newId)
  {
    NormalizeUrlIdempotent(address);
    AddBrowserTabOfNormalUrl(items, parentId, NormalizeUrl(address), newId, titleFromUrl);
  }

  // ---------------------------------------------------------------------------
  // The shell's state and its handlers

  /**
   * The shell component's React state. A handler returns the next state and
   * the commands it sent to the host, oldest first.
   */
  datatype AppState = AppState(items: seq<Item>, selectedItemId: string, address: string, darkMode: bool, settingsOpen: bool)

  /** The shell's invariant: the workspace items carry distinct ids. */
  predicate Valid(s: AppState) {
    DistinctIds(s.items)
  }

  /** The state `App` starts in: the loaded session, the stored theme, the settings closed. */
  function InitialAppState(session: UiSessionState, darkMode: bool): AppState {
    AppState(session.items, session.selectedItemId, session.address, darkMode, false)
  }

  /** Whatever storage holds, the shell starts in a valid state. */
  lemma InitialAppStateValid(hostText: Option<string>, localText: Option<string>, parseJson: JsonParser, darkMode: bool)
    ensures var s := InitialAppState(LoadInitialSessionState(hostText, localText, parseJson), darkMode);
            Valid(s) && !s.settingsOpen
  {
    LoadedSessionDistinct(hostText, localText, parseJson);
  }

  /** `onSelect`: selects the item; a tab also fills the address bar and is activated in the host. */
  method OnSelect(s: AppState, item: Item) returns (t: AppState, sent: seq<HostCommand>)
    ensures t.items == s.items && t.darkMode == s.darkMode && t.settingsOpen == s.settingsOpen
    ensures t.selectedItemId == item.id
    ensures item.BrowserTab? ==> t.address == item.url && sent == [ActivateTab(item.id)]
    ensures !item.BrowserTab? ==> t.address == s.address && sent == []
    ensures Valid(s) && item in s.items && item.BrowserTab? ==>
              SelectedTab(t.items, t.selectedItemId) == Some(item) && SelectedTab(t.items, t.selectedItemId).value.url == t.address
  {
    t, sent := s.(selectedItemId := item.id), [];
    if item.BrowserTab? {
      t := t.(address := item.url);
      sent := sent + [ActivateTab(item.id)];
      if Valid(s) && item in s.items {
        ListedItemIsFound(s.items, item);
      }
    }
  }

  /** `onToggleGroup`: only the items change. */
  method OnToggleGroup(s: AppState, id: string) returns (t: AppState, sent: seq<HostCommand>)
    ensures Valid(s) ==> Valid(t)
    ensures t == s.(items := ToggleGroupCollapsed(s.items, id)) && sent == []
  {
    t, sent := s.(items := ToggleGroupCollapsed(s.items, id)), [];
    if Valid(s) {
      SameIdsKeepDistinct(s.items, t.items);
    }
  }

  /** `onAddGroup`: appends a root group; only the items change. */
  method OnAddGroup(s: AppState, newId: string) returns (t: AppState, sent: seq<HostCommand>)
    requires !HasId(s.items, newId)
    ensures Valid(s) ==> Valid(t)
    ensures t == s.(items := AddGroup(s.items, newId, DefaultGroupTitle)) && sent == []
  {
    t, sent := s.(items := AddGroup(s.items, newId, DefaultGroupTitle)), [];
  }

  /**
   * `onAddTab(parentId)`: appends a tab on the new-tab page under `parentId`,
   * selects it, shows its url and has the host create and activate it.
   */
  method OnAddTab(s: AppState, parentId: Option<string>, newId: string, titleFromUrl: TitleFromUrl)
    returns (t: AppState, sent: seq<HostCommand>)
    requires !HasId(s.items, newId)
    ensures Valid(s) ==> Valid(t)
    ensures t.items == s.items + [OpenedTab(s.items, parentId, NewTabUrl, newId, titleFromUrl)]
    ensures t.selectedItemId == newId && t.address == NewTabUrl
    ensures t.darkMode == s.darkMode && t.settingsOpen == s.settingsOpen
    ensures Valid(s) ==> SelectedTab(t.items, t.selectedItemId) == Some(t.items[|s.items|])
    ensures sent == [EnsureTab(newId, NewTabUrl), ActivateTab(newId)]
  {
    var tab := OpenedTab(s.items, parentId, NewTabUrl, newId, titleFromUrl);
    if Valid(s) {
      AppendFreshId(s.items, tab);
    }
    t := s.(items := s.items + [tab], selectedItemId := newId, address := NewTabUrl);
    sent := [EnsureTab(newId, NewTabUrl), ActivateTab(newId)];
  }

  /**
   * `onCloseTab`: nothing unless `id` names a browser tab. Otherwise the tab
   * and everything under it go, the host closes it, and, only when it was
   * selected, the selection moves on and the address follows it.
   */
  method OnCloseTab(s: AppState, id: string) returns (t: AppState, sent: seq<HostCommand>)
    requires Valid(s)
    ensures Valid(t)
    ensures t.darkMode == s.darkMode && t.settingsOpen == s.settingsOpen
    ensures !IsTabId(s.items, id) ==> t == s && sent == []
    ensures IsTabId(s.items, id) ==>
              && t.items == Reindexed(Without(s.items, Closure(s.items, {id})))
              && !HasId(t.items, id)
              && sent == [CloseTab(id)]
    ensures IsTabId(s.items, id) && s.selectedItemId != id ==>
              t.selectedItemId == s.selectedItemId && t.address == s.address
    ensures IsTabId(s.items, id) && s.selectedItemId == id ==>
              && t.selectedItemId == ResolveNextSelectionAfterTabClose(t.items, s.items[FindTab(s.items, id)])
              && t.address == (if IsTabId(t.items, t.selectedItemId) then t.items[FindTab(t.items, t.selectedItemId)].url else "")
  {
    t, sent := s, [];
    var k := FindTab(s.items, id);
    if k == |s.items| {
      return;
    }
    var tab := s.items[k];
    var nextItems := RemoveWorkspaceItem(s.items, id);
    ClosedIdIsGone(s.items, id, nextItems);
    t := t.(items := nextItems);
    sent := sent + [CloseTab(id)];
    if s.selectedItemId != id {
      return;
    }
    var nextSelection := ResolveNextSelectionAfterTabClose(nextItems, tab);
    t := t.(selectedItemId := nextSelection);
    var j := FindTab(nextItems, nextSelection);
    if j < |nextItems| {
      t := t.(address := nextItems[j].url);
      return;
    }
    t := t.(address := "");
  }

  /**
   * `onNavigate`: normalises the address; the selected tab, if any, loads
   * it, and otherwise a new tab under `defaultParentId` opens on it and is
   * selected. Either way the selected tab then shows the address.
   */
  method OnNavigate(s: AppState, newId: string, titleFromUrl: TitleFromUrl) returns (t: AppState, sent: seq<HostCommand>)
    requires Valid(s) && !HasId(s.items, newId)
    ensures Valid(t)
    ensures t.address == NormalizeUrl(s.address) && HasScheme(t.address)
    ensures t.darkMode == s.darkMode && t.settingsOpen == s.settingsOpen
    ensures var tab := SelectedTab(s.items, s.selectedItemId);
            tab.Some? ==>
              && t.items == UpdateTabUrl(s.items, tab.value.id, t.address, titleFromUrl)
              && t.selectedItemId == s.selectedItemId
              && sent == [NavigateTab(tab.value.id, t.address)]
    ensures SelectedTab(s.items, s.selectedItemId).None? ==>
              && t.items == s.items + [OpenedTab(s.items, DefaultParentId(s.items), t.address, newId, titleFromUrl)]
              && t.selectedItemId == newId
              && sent == [EnsureTab(newId, t.address), ActivateTab(newId)]
    ensures SelectedTab(t.items, t.selectedItemId).Some? && SelectedTab(t.items, t.selectedItemId).value.url == t.address
  {
    var targetUrl := NormalizeUrl(s.address);
    NormalizeUrlShape(s.address);
    t := s.(address := targetUrl);
    var tab := SelectedTab(s.items, s.selectedItemId);
    if tab.Some? {
      t := t.(items := UpdateTabUrl(s.items, tab.value.id, targetUrl, titleFromUrl));
      SameIdsKeepDistinct(s.items, t.items);
      UpdatedTabStaysSelected(s.items, t.items, s.selectedItemId, targetUrl, titleFromUrl);
      sent := [NavigateTab(tab.value.id, targetUrl)];
      return;
    }
    var newTab := OpenedTab(s.items, DefaultParentId(s.items), targetUrl, newId, titleFromUrl);
    AppendFreshId(s.items, newTab);
    t := t.(items := s.items + [newTab], selectedItemId := newId);
    sent := [EnsureTab(newId, targetUrl), ActivateTab(newId)];
  }

  /** `onMoveByDrop`: only the items change, each keeping its id. */
  method OnMoveByDrop(s: AppState, activeId: string, overId: string) returns (t: AppState, sent: seq<HostCommand>)
    requires Valid(s)
    ensures Valid(t)
    ensures t.items == DropResult(s.items, activeId, overId) && t == s.(items := t.items) && sent == []
  {
    var nextItems := MoveItemByDrop(s.items, activeId, overId);
    DropKeepsDistinct(s.items, activeId, overId);
    t, sent := s.(items := nextItems), [];
  }

  /**
   * The `pulse:tab-runtime-updated` listener: the tab's url and title follow the
   * event, and the address follows a new url of the selected tab.
   */
  method OnTabRuntimeEvent(s: AppState, detail: TabRuntimeDetail) returns (t: AppState)
    requires Valid(s)
    ensures Valid(t)
    ensures t.items == ApplyTabRuntimeUpdate(s.items, detail.tabId, detail.url, detail.title)
    ensures t.address == (if SelectedTab(s.items, s.selectedItemId).Some? && s.selectedItemId == detail.tabId
                             && detail.url.Some? && detail.url.value != ""
                          then detail.url.value else s.address)
    ensures t.selectedItemId == s.selectedItemId && t.darkMode == s.darkMode && t.settingsOpen == s.settingsOpen
  {
    t := s.(items := ApplyTabRuntimeUpdate(s.items, detail.tabId, detail.url, detail.title));
    SameIdsKeepDistinct(s.items, t.items);
    if SelectedTab(s.items, s.selectedItemId).Some? && s.selectedItemId == detail.tabId
       && detail.url.Some? && detail.url.value != "" {
      t := t.(address := detail.url.value);
    }
  }

  /** `executeBrowserControl`: forwards the control for the selected tab, if there is one. */
  method ExecuteBrowserControl(s: AppState, action: BrowserAction) returns (sent: seq<HostCommand>)
    ensures HasSelectedTabId(s.items, s.selectedItemId) ==> sent == [Control(action, s.selectedItemId)]
    ensures !HasSelectedTabId(s.items, s.selectedItemId) ==> sent == []
  {
    sent := [];
    if !HasSelectedTabId(s.items, s.selectedItemId) {
      return;
    }
    sent := sent + [Control(action, s.selectedItemId)];
  }

  /**
   * `runCommand`: a command whose capability is not granted does nothing;
   * otherwise the command's handler runs. Closing the current tab and the
   * browser controls need a selected tab; focusing the address bar changes
   * no state kept here.
   */
  method RunCommand(s: AppState, commandId: CommandId, newId: string, titleFromUrl: TitleFromUrl)
    returns (t: AppState, sent: seq<HostCommand>)
    requires Valid(s) && !HasId(s.items, newId)
    ensures Valid(t)
    ensures commandId == FocusAddress ==> t == s && sent == []
    ensures ControlOf(commandId).Some? ==>
              t == s && sent == (if HasSelectedTabId(s.items, s.selectedItemId)
                                 then [Control(ControlOf(commandId).value, s.selectedItemId)] else [])
    ensures commandId == CloseCurrentTab && !HasSelectedTabId(s.items, s.selectedItemId) ==> t == s && sent == []
    ensures commandId == CloseCurrentTab && HasSelectedTabId(s.items, s.selectedItemId) ==>
              && t.items == Reindexed(Without(s.items, Closure(s.items, {s.selectedItemId})))
              && !HasId(t.items, s.selectedItemId)
              && sent == [CloseTab(s.selectedItemId)]
              && t.selectedItemId == ResolveNextSelectionAfterTabClose(t.items, s.items[FindTab(s.items, s.selectedItemId)])
              && t.address == (if IsTabId(t.items, t.selectedItemId) then t.items[FindTab(t.items, t.selectedItemId)].url else "")
              && t.darkMode == s.darkMode && t.settingsOpen == s.settingsOpen
    ensures commandId == NewGroup ==> t == s.(items := AddGroup(s.items, newId, DefaultGroupTitle)) && sent == []
    ensures commandId == NewTab ==>
              && t.items == s.items + [OpenedTab(s.items, DefaultParentId(s.items), NewTabUrl, newId, titleFromUrl)]
              && t.selectedItemId == newId && t.address == NewTabUrl
              && t.darkMode == s.darkMode && t.settingsOpen == s.settingsOpen
              && sent == [EnsureTab(newId, NewTabUrl), ActivateTab(newId)]
    ensures commandId == ToggleTheme ==> t == s.(darkMode := !s.darkMode) && sent == []
    ensures commandId == OpenSettings ==> t == s.(settingsOpen := true) && sent == []
  {
    t, sent := s, [];
    EveryCommandIsGranted(commandId);
    if CommandMap()[commandId].capability !in GrantedCapabilities {
      return;
    }
    match commandId {
      case NewGroup => t, sent := OnAddGroup(s, newId);
      case NewTab => t, sent := OnAddTab(s, DefaultParentId(s.items), newId, titleFromUrl);
      case CloseCurrentTab =>
        if HasSelectedTabId(s.items, s.selectedItemId) {
          SelectedTabIsFoundTab(s.items, s.selectedItemId);
          t, sent := OnCloseTab(s, s.selectedItemId);
        }
      case FocusAddress =>
      case BrowserBack => sent := ExecuteBrowserControl(s, Back);
      case BrowserForward => sent := ExecuteBrowserControl(s, Forward);
      case BrowserReload => sent := ExecuteBrowserControl(s, Reload);
      case BrowserStop => sent := ExecuteBrowserControl(s, Stop);
      case ToggleTheme => t := s.(darkMode := !s.darkMode);
      case OpenSettings => t := s.(settingsOpen := true);
    }
  }

  /**
   * `onKeyDown`: an event the guard lets through and that resolves to a
   * command runs that command and is handled (its default is prevented);
   * any other event changes nothing.
   */
  method OnKeyDown(s: AppState, event: KeyEvent, targetEditable: bool, shortcutMap: ShortcutMap, newId: string,
                   titleFromUrl: TitleFromUrl)
    returns (handled: bool, t: AppState, sent: seq<HostCommand>)
    requires Valid(s) && !HasId(s.items, newId)
    ensures Valid(t)
    ensures handled <==> KeyEventReachesCommands(targetEditable, event) && ResolvedCommand(event, shortcutMap).Some?
    ensures !handled ==> t == s && sent == []
  {
    t, sent := s, [];
    if !KeyEventReachesCommands(targetEditable, event) {
      return false, t, sent;
    }
    var commandId := ResolveCommandFromKeyboardEvent(event, shortcutMap);
    if commandId.None? {
      return false, t, sent;
    }
    t, sent := RunCommand(s, commandId.value, newId, titleFromUrl);
    handled := true;
  }

  // ---------------------------------------------------------------------------
  // Helpers about the updates the handlers make

  /** A list whose ids are those of a list with distinct ids has distinct ids too. */
  lemma SameIdsKeepDistinct(before: seq<Item>, after: seq<Item>)
    requires DistinctIds(before) && |after| == |before|
    requires forall i :: 0 <= i < |before| ==> after[i].id == before[i].id
    ensures DistinctIds(after)
  {
  }

  /** The new-tab url is already normal. */
  lemma NewTabUrlIsNormal()
    ensures NormalizeUrl(NewTabUrl) == NewTabUrl
  {
    assert JsBlank("");
    NormalizeUrlIdempotent("");
  }

  /** Appending an item with a fresh id keeps ids distinct, and the item's id finds it. */
  lemma AppendFreshId(items: seq<Item>, x: Item)
    requires DistinctIds(items) && !HasId(items, x.id)
    ensures DistinctIds(items + [x])
    ensures IndexOfId(items + [x], x.id) == |items|
  {
    var after := items + [x];
    forall i | 0 <= i < |items| ensures after[i].id != x.id {
      assert after[i] == items[i];
    }
    assert HasId(after, x.id) by {
      assert after[|items|] == x;
    }
  }

  /** With distinct ids, an item of the list is the one its id finds. */
  lemma ListedItemIsFound(items: seq<Item>, item: Item)
    requires DistinctIds(items) && item in items
    ensures IndexOfId(items, item.id) < |items| && items[IndexOfId(items, item.id)] == item
  {
    var i :| 0 <= i < |items| && items[i] == item;
    assert IndexOfId(items, item.id) <= i;
  }

  /** Loading a url into the selected tab keeps it selected, now showing that url. */
  lemma UpdatedTabStaysSelected(before: seq<Item>, after: seq<Item>, id: string, url: string, titleFromUrl: TitleFromUrl)
    requires after == UpdateTabUrl(before, id, url, titleFromUrl)
    requires SelectedTab(before, id).Some?
    ensures SelectedTab(after, id).Some? && SelectedTab(after, id).value.url == url
  {
    var k := IndexOfId(before, id);
    assert after[k].id == id;
    assert HasId(after, id);
  }

  /** After a removal the removed id is gone, and ids stay distinct. */
  lemma ClosedIdIsGone(before: seq<Item>, id: string, after: seq<Item>)
    requires DistinctIds(before) && HasId(before, id)
    requires after == Reindexed(Without(before, Closure(before, {id})))
    requires var kept := Without(before, Closure(before, {id}));
             |after| == |kept| && forall i :: 0 <= i < |after| ==> after[i] == kept[i].(order := after[i].order)
    ensures DistinctIds(after) && !HasId(after, id)
  {
    var kept := Without(before, Closure(before, {id}));
    WithoutKeepsDistinct(before, Closure(before, {id}));
    RemoveLeavesNoOrphans(before, id);
    forall i | 0 <= i < |after| ensures after[i].id != id {
      assert kept[i] in kept;
    }
  }
}
