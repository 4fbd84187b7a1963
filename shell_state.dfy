/**
 * The native shell's view state (`ShellState`): the registry of content tabs
 * keyed by tab id in a sorted map, the active tab, the window and content
 * bounds, and the rule that decides which content view is shown and where.
 * Browser views are opaque handles; a tab session keeps only the identifier
 * of the browser it hosts, if it has one yet.
 */
module ShellState {
  import opened Wrappers

  /** A CEF rectangle (`Rect`, also used for `ContentBounds`). */
  datatype Rect = Rect(x: int, y: int, width: int, height: int)

  /** A content tab's session: the identifier of its browser, when the view has one. */
  datatype TabSession = TabSession(browserId: Option<int>)

  // ---------------------------------------------------------------------
  // Key order of the tab map
  // ---------------------------------------------------------------------

  /**
   * The order of `String` keys in a `BTreeMap`: lexicographic on UTF-8 bytes,
   * which is the order of code points, a proper prefix coming first.
   */
  predicate LexLess(a: string, b: string) {
    if |a| == 0 then |b| > 0
    else if |b| == 0 then false
    else a[0] < b[0] || (a[0] == b[0] && LexLess(a[1..], b[1..]))
  }

  lemma {:induction false} LexLessIrreflexive(a: string)
    ensures !LexLess(a, a)
  {
    if |a| > 0 {
      LexLessIrreflexive(a[1..]);
    }
  }

  lemma {:induction false} LexLessTransitive(a: string, b: string, c: string)
    requires LexLess(a, b) && LexLess(b, c)
    ensures LexLess(a, c)
  {
    if |a| > 0 && |b| > 0 && |c| > 0 && a[0] == b[0] && b[0] == c[0] {
      LexLessTransitive(a[1..], b[1..], c[1..]);
    }
  }

  lemma {:induction false} LexLessTotal(a: string, b: string)
    requires a != b
    ensures LexLess(a, b) || LexLess(b, a)
  {
    if |a| > 0 && |b| > 0 && a[0] == b[0] {
      assert a == [a[0]] + a[1..] && b == [b[0]] + b[1..];
      LexLessTotal(a[1..], b[1..]);
    }
  }

  /** `k` is the first of `keys` in key order. */
  predicate IsLeast(k: string, keys: set<string>) {
    k in keys && forall j :: j in keys && j != k ==> LexLess(k, j)
  }

  /** There is only one first key. */
  lemma LeastIsUnique(k1: string, k2: string, keys: set<string>)
    requires IsLeast(k1, keys) && IsLeast(k2, keys)
    ensures k1 == k2
  {
    if k1 != k2 {
      LexLessTransitive(k1, k2, k1);
      LexLessIrreflexive(k1);
    }
  }

  /** `keys().next()` on a map with key set `keys`: the first key, or none when it is empty. */
  method FirstKey(keys: set<string>) returns (r: Option<string>)
    ensures r.None? <==> keys == {}
    ensures r.Some? ==> IsLeast(r.value, keys)
  {
    r := None;
    var rest := keys;
    while rest != {}
      invariant rest <= keys
      invariant r.None? ==> rest == keys
      invariant r.Some? ==> r.value in keys && r.value !in rest
      invariant r.Some? ==> forall j :: j in keys - rest && j != r.value ==> LexLess(r.value, j)
      decreases |rest|
    {
      var k :| k in rest;
      if r.None? {
        r := Some(k);
      } else {
        var m := r.value;
        LexLessTotal(k, m);
        if LexLess(k, m) {
          forall j | j in keys - rest && j != k
            ensures LexLess(k, j)
          {
            if j != m {
              LexLessTransitive(k, m, j);
            }
          }
          r := Some(k);
        }
      }
      rest := rest - {k};
    }
  }

  /** The tab ids whose view hosts the browser `browserId`. */
  function TabsOfBrowser(tabs: map<string, TabSession>, browserId: int): (r: set<string>)
    ensures forall k :: k in r <==> k in tabs && tabs[k].browserId == Some(browserId)
  {
    set k | k in tabs && tabs[k].browserId == Some(browserId)
  }

  // ---------------------------------------------------------------------
  // Bounds
  // ---------------------------------------------------------------------

  function Max(a: int, b: int): int { if a < b then b else a }
  function Min(a: int, b: int): int { if a < b then a else b }

  /** `i32::clamp(v, lo, hi)` for `lo <= hi`. */
  function Clamp(v: int, lo: int, hi: int): (r: int)
    requires lo <= hi
    ensures lo <= r <= hi
    ensures lo <= v <= hi ==> r == v
    ensures v < lo ==> r == lo
    ensures v > hi ==> r == hi
  {
    if v < lo then lo else if v > hi then hi else v
  }

  /** Sidebar margin and widths of the prototype layout. */
  const Margin := 12
  const SidebarWidth := 320
  const SectionHeaderHeight := 48
  const SurfacePadding := 12
  const TabStripHeight := 32

  /**
   * `fallback_content_bounds`: where the content goes before the UI reports
   * its own bounds, right of the sidebar and below the tab strip, at least 1x1.
   */
  function FallbackContentBounds(window: Rect): (r: Rect)
    ensures r.x == 345 && r.y == 104
    ensures r.width == Max(window.width - 369, 1)
    ensures r.height == Max(window.height - 128, 1)
  {
    var x := Margin + SidebarWidth + 1 + SurfacePadding;
    var y := Margin + SectionHeaderHeight + SurfacePadding + TabStripHeight;
    var width := window.width - x - Margin - SurfacePadding;
    var height := window.height - y - Margin - SurfacePadding;
    Rect(x, y, Max(width, 1), Max(height, 1))
  }

  /**
   * `clamp_to_window`: the origin is pulled into the window and the size is at
   * least 1 and at most what is left of the window right of and below it.
   */
  function ClampToWindow(rect: Rect, window: Rect): (r: Rect)
    ensures 0 <= r.x <= Max(window.width - 1, 0)
    ensures 0 <= r.y <= Max(window.height - 1, 0)
    ensures 0 <= rect.x <= window.width - 1 ==> r.x == rect.x
    ensures 0 <= rect.y <= window.height - 1 ==> r.y == rect.y
    ensures 1 <= r.width <= Max(window.width - r.x, 1)
    ensures 1 <= r.height <= Max(window.height - r.y, 1)
    ensures 1 <= rect.width <= Max(window.width - r.x, 1) ==> r.width == rect.width
    ensures 1 <= rect.height <= Max(window.height - r.y, 1) ==> r.height == rect.height
  {
    var maxX := Max(window.width - 1, 0);
    var maxY := Max(window.height - 1, 0);
    var x := Clamp(rect.x, 0, maxX);
    var y := Clamp(rect.y, 0, maxY);
    Rect(x, y, Min(Max(rect.width, 1), Max(window.width - x, 1)),
         Min(Max(rect.height, 1), Max(window.height - y, 1)))
  }

  /** Clamping a clamped rectangle changes nothing. */
  lemma ClampIdempotent(rect: Rect, window: Rect)
    ensures ClampToWindow(ClampToWindow(rect, window), window) == ClampToWindow(rect, window)
  {
  }

  /** In a non-empty window the clamped rectangle lies inside the window. */
  lemma ClampedInsideWindow(rect: Rect, window: Rect)
    requires window.width >= 1 && window.height >= 1
    ensures var r := ClampToWindow(rect, window);
            r.x + r.width <= window.width && r.y + r.height <= window.height
  {
  }

  /** In a window of at least 370x129 the fallback bounds need no clamping. */
  lemma FallbackFitsLargeWindow(window: Rect)
    requires window.width >= 370 && window.height >= 129
    ensures ClampToWindow(FallbackContentBounds(window), window) == FallbackContentBounds(window)
  {
  }

  /** The bounds given to the shown content view: the requested ones, else the fallback, clamped. */
  function ContentBounds(window: Rect, requested: Option<Rect>): (r: Rect)
    ensures requested.None? ==> r == ClampToWindow(FallbackContentBounds(window), window)
    ensures requested.Some? ==> r == ClampToWindow(requested.value, window)
  {
    ClampToWindow(requested.GetOr(FallbackContentBounds(window)), window)
  }

  /** Whether the view of tab `k` is shown: the content is visible and `k` is the active tab. */
  predicate ShouldShow(k: string, active: Option<string>, visible: bool) {
    visible && active == Some(k)
  }

  /** At most one content view is shown. */
  lemma AtMostOneShown(k1: string, k2: string, active: Option<string>, visible: bool)
    requires ShouldShow(k1, active, visible) && ShouldShow(k2, active, visible)
    ensures k1 == k2
  {
  }

  /** The default window: 1440x900 at the origin. */
  const DefaultWindowBounds := Rect(0, 0, 1440, 900)

  // ---------------------------------------------------------------------
  // The state
  // ---------------------------------------------------------------------

  class ShellState {
    var uiBrowserId: Option<int>
    var contentTabs: map<string, TabSession>
    var activeTabId: Option<string>
    var windowBounds: Rect
    var requestedContentBounds: Option<Rect>
    var contentVisible: bool

    /** The active tab, when there is one, is a registered tab. */
    predicate Valid()
      reads this
    {
      activeTabId.Some? ==> activeTabId.value in contentTabs
    }

    /** `ShellState::default()`. */
    constructor ()
      ensures Valid()
      ensures uiBrowserId.None? && contentTabs == map[] && activeTabId.None?
      ensures windowBounds == DefaultWindowBounds
      ensures requestedContentBounds.None? && contentVisible
    {
      uiBrowserId := None;
      contentTabs := map[];
      activeTabId := None;
      windowBounds := DefaultWindowBounds;
      requestedContentBounds := None;
      contentVisible := true;
    }

    method SetUiBrowserId(browserId: Option<int>)
      modifies this
      ensures uiBrowserId == browserId
      ensures contentTabs == old(contentTabs) && activeTabId == old(activeTabId)
      ensures windowBounds == old(windowBounds) && requestedContentBounds == old(requestedContentBounds)
      ensures contentVisible == old(contentVisible)
    {
      uiBrowserId := browserId;
    }

    method SetWindowBounds(bounds: Rect)
      modifies this
      ensures windowBounds == bounds
      ensures uiBrowserId == old(uiBrowserId) && contentTabs == old(contentTabs) && activeTabId == old(activeTabId)
      ensures requestedContentBounds == old(requestedContentBounds) && contentVisible == old(contentVisible)
    {
      windowBounds := bounds;
    }

    method SetContentBounds(bounds: Rect)
      modifies this
      ensures requestedContentBounds == Some(bounds)
      ensures uiBrowserId == old(uiBrowserId) && contentTabs == old(contentTabs) && activeTabId == old(activeTabId)
      ensures windowBounds == old(windowBounds) && contentVisible == old(contentVisible)
    {
      requestedContentBounds := Some(bounds);
    }

    method SetContentVisible(visible: bool)
      modifies this
      ensures contentVisible == visible
      ensures uiBrowserId == old(uiBrowserId) && contentTabs == old(contentTabs) && activeTabId == old(activeTabId)
      ensures windowBounds == old(windowBounds) && requestedContentBounds == old(requestedContentBounds)
    {
      contentVisible := visible;
    }

    predicate HasTab(tabId: string)
      reads this
    {
      tabId in contentTabs
    }

    /**
     * `register_content_tab`: the session is stored under `tabId`, replacing
     * any earlier one, and the tab becomes active only when none was.
     */
    method RegisterContentTab(tabId: string, session: TabSession)
      requires Valid()
      modifies this
      ensures Valid()
      ensures contentTabs == old(contentTabs)[tabId := session]
      ensures old(activeTabId).None? ==> activeTabId == Some(tabId)
      ensures old(activeTabId).Some? ==> activeTabId == old(activeTabId)
      ensures uiBrowserId == old(uiBrowserId) && windowBounds == old(windowBounds)
      ensures requestedContentBounds == old(requestedContentBounds) && contentVisible == old(contentVisible)
    {
      contentTabs := contentTabs[tabId := session];
      if activeTabId.None? {
        activeTabId := Some(tabId);
      }
    }

    /** `activate_tab`: only a registered tab can become active. */
    method ActivateTab(tabId: string)
      requires Valid()
      modifies this
      ensures Valid()
      ensures activeTabId == (if tabId in contentTabs then Some(tabId) else old(activeTabId))
      ensures contentTabs == old(contentTabs)
      ensures uiBrowserId == old(uiBrowserId) && windowBounds == old(windowBounds)
      ensures requestedContentBounds == old(requestedContentBounds) && contentVisible == old(contentVisible)
    {
      if tabId in contentTabs {
        activeTabId := Some(tabId);
      }
    }

    /**
     * `navigate_tab`: the url goes to the tab's browser, when the tab is
     * registered and has one (`target`), and the content is made visible in
     * every case.
     */
    method NavigateTab(tabId: string, url: string) returns (target: Option<int>)
      modifies this
      ensures target == (if tabId in contentTabs then contentTabs[tabId].browserId else None)
      ensures contentVisible
      ensures contentTabs == old(contentTabs) && activeTabId == old(activeTabId)
      ensures uiBrowserId == old(uiBrowserId) && windowBounds == old(windowBounds)
      ensures requestedContentBounds == old(requestedContentBounds)
    {
      target := if tabId in contentTabs then contentTabs[tabId].browserId else None;
      contentVisible := true;
    }

    /** `navigate_active_tab`: `navigate_tab` on the active tab; nothing at all without one. */
    method NavigateActiveTab(url: string) returns (target: Option<int>)
      requires Valid()
      modifies this
      ensures Valid()
      ensures old(activeTabId).None? ==> target.None? && contentVisible == old(contentVisible)
      ensures old(activeTabId).Some? ==>
                activeTabId == old(activeTabId) && target == contentTabs[activeTabId.value].browserId && contentVisible
      ensures contentTabs == old(contentTabs) && activeTabId == old(activeTabId)
      ensures uiBrowserId == old(uiBrowserId) && windowBounds == old(windowBounds)
      ensures requestedContentBounds == old(requestedContentBounds)
    {
      target := None;
      if activeTabId.Some? {
        target := NavigateTab(activeTabId.value, url);
      }
    }

    /**
     * What `close_tab` and `remove_content_tab_by_browser_id` share once the
     * tab is known: remove it, and when it was the active one, activate the
     * first remaining tab in key order, or none.
     */
    method RemoveTab(tabId: string)
      requires Valid() && tabId in contentTabs
      modifies this
      ensures Valid()
      ensures contentTabs == old(contentTabs) - {tabId}
      ensures old(activeTabId) != Some(tabId) ==> activeTabId == old(activeTabId)
      ensures old(activeTabId) == Some(tabId) && contentTabs == map[] ==> activeTabId.None?
      ensures old(activeTabId) == Some(tabId) && contentTabs != map[] ==>
                activeTabId.Some? && IsLeast(activeTabId.value, contentTabs.Keys)
      ensures uiBrowserId == old(uiBrowserId) && windowBounds == old(windowBounds)
      ensures requestedContentBounds == old(requestedContentBounds) && contentVisible == old(contentVisible)
    {
      contentTabs := contentTabs - {tabId};
      if activeTabId == Some(tabId) {
        activeTabId := FirstKey(contentTabs.Keys);
      }
    }

    /**
     * `close_tab`: nothing happens for an unknown id and nothing is returned;
     * otherwise the tab is removed and its browser returned, if it had one.
     */
    method CloseTab(tabId: string) returns (browser: Option<int>)
      requires Valid()
      modifies this
      ensures Valid()
      ensures tabId !in old(contentTabs) ==>
                browser.None? && contentTabs == old(contentTabs) && activeTabId == old(activeTabId)
      ensures tabId in old(contentTabs) ==>
                browser == old(contentTabs)[tabId].browserId && contentTabs == old(contentTabs) - {tabId}
      ensures old(activeTabId) != Some(tabId) ==> activeTabId == old(activeTabId)
      ensures old(activeTabId) == Some(tabId) ==>
                (activeTabId.None? <==> contentTabs == map[])
                && (activeTabId.Some? ==> IsLeast(activeTabId.value, contentTabs.Keys))
      ensures uiBrowserId == old(uiBrowserId) && windowBounds == old(windowBounds)
      ensures requestedContentBounds == old(requestedContentBounds) && contentVisible == old(contentVisible)
    {
      if tabId !in contentTabs {
        return None;
      }
      browser := contentTabs[tabId].browserId;
      RemoveTab(tabId);
    }

    /**
     * `tab_id_for_browser_id`: the first tab in key order whose view hosts the
     * browser `browserId`.
     */
    method TabIdForBrowserId(browserId: int) returns (r: Option<string>)
      ensures r.None? <==> TabsOfBrowser(contentTabs, browserId) == {}
      ensures r.Some? ==> IsLeast(r.value, TabsOfBrowser(contentTabs, browserId))
    {
      r := FirstKey(TabsOfBrowser(contentTabs, browserId));
    }

    /**
     * `remove_content_tab_by_browser_id`: the first tab hosting the browser is
     * closed as by `close_tab`; nothing happens when no tab hosts it.
     */
    method RemoveContentTabByBrowserId(browserId: int)
      requires Valid()
      modifies this
      ensures Valid()
      ensures TabsOfBrowser(old(contentTabs), browserId) == {} ==>
                contentTabs == old(contentTabs) && activeTabId == old(activeTabId)
      ensures TabsOfBrowser(old(contentTabs), browserId) != {} ==>
                exists k :: IsLeast(k, TabsOfBrowser(old(contentTabs), browserId))
                       && contentTabs == old(contentTabs) - {k}
                       && (old(activeTabId) != Some(k) ==> activeTabId == old(activeTabId))
                       && (old(activeTabId) == Some(k) ==>
                             (activeTabId.None? <==> contentTabs == map[])
                             && (activeTabId.Some? ==> IsLeast(activeTabId.value, contentTabs.Keys)))
      ensures old(activeTabId).Some? && old(activeTabId.value) !in contentTabs ==>
                (activeTabId.None? <==> contentTabs == map[])
                && (activeTabId.Some? ==> IsLeast(activeTabId.value, contentTabs.Keys))
      ensures uiBrowserId == old(uiBrowserId) && windowBounds == old(windowBounds)
      ensures requestedContentBounds == old(requestedContentBounds) && contentVisible == old(contentVisible)
    {
      var found := TabIdForBrowserId(browserId);
      if found.Some? {
        RemoveTab(found.value);
      }
    }

    /** `clear_content_tabs`: no tabs and no active tab. */
    method ClearContentTabs()
      modifies this
      ensures Valid()
      ensures contentTabs == map[] && activeTabId.None?
      ensures uiBrowserId == old(uiBrowserId) && windowBounds == old(windowBounds)
      ensures requestedContentBounds == old(requestedContentBounds) && contentVisible == old(contentVisible)
    {
      contentTabs := map[];
      activeTabId := None;
    }

    /**
     * `layout_content_views`: every registered view is set visible or hidden
     * (`shown`), and the bounds given to the shown one (`bounds`).
     */
    method LayoutContentViews() returns (shown: map<string, bool>, bounds: Rect)
      ensures shown.Keys == contentTabs.Keys
      ensures forall k :: k in shown ==> (shown[k] <==> ShouldShow(k, activeTabId, contentVisible))
      ensures forall k1, k2 :: k1 in shown && k2 in shown && shown[k1] && shown[k2] ==> k1 == k2
      ensures Valid() && contentVisible && activeTabId.Some? ==>
                activeTabId.value in shown && shown[activeTabId.value]
      ensures bounds == ContentBounds(windowBounds, requestedContentBounds)
    {
      bounds := ContentBounds(windowBounds, requestedContentBounds);
      shown := map[];
      var rest := contentTabs.Keys;
      while rest != {}
        invariant rest <= contentTabs.Keys
        invariant shown.Keys == contentTabs.Keys - rest
        invariant forall k :: k in shown ==> (shown[k] <==> ShouldShow(k, activeTabId, contentVisible))
        decreases |rest|
      {
        var k :| k in rest;
        shown := shown[k := contentVisible && activeTabId == Some(k)];
        rest := rest - {k};
      }
    }
  }
}
