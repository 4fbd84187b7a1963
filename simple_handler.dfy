/**
 * The shell's browser handler: the IPC commands the UI page sends to the
 * native side (`pulse-host-command`), the checks a message must pass before
 * any of them runs, the parsing of the command's string arguments, and the
 * bookkeeping of open browsers as they are created and closed.
 * Browsers and views are opaque handles known by their integer identifiers;
 * creating a content view is a parameter that may fail.
 */
module SimpleHandler {
  import opened Wrappers
  import opened Strings
  import opened ShellState

  /** `IPC_COMMAND_MESSAGE`: the name of every command message. */
  const IpcCommandMessage := "pulse-host-command"

  /** The url of a content tab opened without one. */
  const AboutBlank := "about:blank"

  /** Which page a handler serves: the UI chrome or web content. */
  datatype BrowserRole = UiChrome | WebContent

  /** The process a message comes from. */
  datatype ProcessId = BrowserProcess | RendererProcess

  /** A process message: its name and, when it has one, its argument list (as strings). */
  datatype ProcessMessage = ProcessMessage(name: string, args: Option<seq<string>>)

  /** What a command asks of a content browser, identified by its id. */
  datatype BrowserRequest =
    | LoadUrl(browserId: int, url: string)
    | CloseBrowser(browserId: int)
    | GoBack(browserId: int)
    | GoForward(browserId: int)
    | Reload(browserId: int)
    | StopLoad(browserId: int)

  // ---------------------------------------------------------------------
  // Trusted origin
  // ---------------------------------------------------------------------

  /** Rust `s.trim_end_matches('/')`. */
  function TrimTrailingSlashes(s: string): (r: string)
    ensures |r| <= |s| && r == s[..|r|]
    ensures forall i :: |r| <= i < |s| ==> s[i] == '/'
    ensures |r| > 0 ==> r[|r| - 1] != '/'
  {
    if |s| > 0 && s[|s| - 1] == '/' then TrimTrailingSlashes(s[..|s| - 1]) else s
  }

  /**
   * `is_trusted_ui_url`: the url is the origin itself, trailing slashes
   * aside, or a path below it; a longer port or host does not match.
   */
  predicate IsTrustedUiUrl(url: string, trustedOrigin: string): (b: bool)
    ensures var prefix := TrimTrailingSlashes(trustedOrigin);
            b <==> StartsWith(url, prefix) && (|url| == |prefix| || url[|prefix|] == '/')
  {
    var prefix := TrimTrailingSlashes(trustedOrigin);
    assert StartsWith(url, prefix) && |url| > |prefix| && url[|prefix|] == '/' ==> url[..|prefix| + 1] == prefix + "/";
    assert StartsWith(url, prefix + "/") ==> url[..|prefix|] == (prefix + "/")[..|prefix|] && url[|prefix|] == (prefix + "/")[|prefix|];
    url == prefix || StartsWith(url, prefix + "/")
  }

  /** Trailing slashes on the configured origin make no difference. */
  lemma {:induction false} TrailingSlashIgnored(url: string, trustedOrigin: string)
    ensures IsTrustedUiUrl(url, trustedOrigin + "/") == IsTrustedUiUrl(url, trustedOrigin)
  {
    assert (trustedOrigin + "/")[..|trustedOrigin|] == trustedOrigin;
  }

  /** The origin with port 5173 does not trust a page served from port 51730. */
  lemma LongerPortIsNotTrusted()
    ensures !IsTrustedUiUrl("http://localhost:51730/", "http://localhost:5173")
  {
    var url := "http://localhost:51730/";
    var prefix := "http://localhost:5173";
    assert TrimTrailingSlashes(prefix) == prefix;
    assert url[21] == '0';
    assert (prefix + "/")[21] == '/';
  }

  // ---------------------------------------------------------------------
  // Argument parsing
  // ---------------------------------------------------------------------

  /** `list_string_arg`: the argument at `index`, or `None` past the end of the list. */
  function ListStringArg(args: seq<string>, index: nat): (r: Option<string>)
    ensures r.None? <==> index >= |args|
    ensures r.Some? ==> r.value == args[index]
  {
    if index >= |args| then None else Some(args[index])
  }

  const I32Min := -0x8000_0000
  const I32Max := 0x7fff_ffff

  predicate IsAsciiDigit(c: char) {
    '0' <= c <= '9'
  }

  predicate AllDigits(s: string) {
    forall i :: 0 <= i < |s| ==> IsAsciiDigit(s[i])
  }

  /** The number a run of decimal digits spells, most significant first. */
  function DigitsValue(s: string): nat
    requires AllDigits(s)
  {
    if |s| == 0 then 0 else DigitsValue(s[..|s| - 1]) * 10 + (s[|s| - 1] as int - '0' as int)
  }

  /**
   * Rust `str::parse::<i32>`: an optional `+` or `-`, then at least one ASCII
   * digit and nothing else, with the value in the `i32` range.
   */
  function ParseI32(s: string): (r: Option<int>)
    ensures r.Some? ==> I32Min <= r.value <= I32Max
    ensures r.Some? ==> |s| > 0 && (IsAsciiDigit(s[0]) || s[0] == '+' || s[0] == '-')
    ensures |s| > 0 && AllDigits(s) && DigitsValue(s) <= I32Max ==> r == Some(DigitsValue(s))
    // what is accepted, by its first character, and what it reads as
    ensures |s| == 0 ==> r.None?
    ensures |s| > 0 && s[0] == '-' ==>
              && (r.Some? <==> |s| > 1 && AllDigits(s[1..]) && DigitsValue(s[1..]) <= -I32Min)
              && (r.Some? ==> r.value == -(DigitsValue(s[1..]) as int))
    ensures |s| > 0 && s[0] == '+' ==>
              && (r.Some? <==> |s| > 1 && AllDigits(s[1..]) && DigitsValue(s[1..]) <= I32Max)
              && (r.Some? ==> r.value == DigitsValue(s[1..]))
    ensures |s| > 0 && s[0] != '-' && s[0] != '+' ==>
              && (r.Some? <==> AllDigits(s) && DigitsValue(s) <= I32Max)
              && (r.Some? ==> r.value == DigitsValue(s))
  {
    var negative := |s| > 0 && s[0] == '-';
    var digits := if |s| > 0 && (s[0] == '-' || s[0] == '+') then s[1..] else s;
    if |digits| == 0 || !AllDigits(digits) then None
    else
      var magnitude: int := DigitsValue(digits);
      var value := if negative then -magnitude else magnitude;
      if I32Min <= value <= I32Max then Some(value) else None
  }

  /** The decimal digits of `n`, without leading zeros. */
  function DecimalDigits(n: nat): (s: string)
    ensures |s| > 0 && AllDigits(s) && DigitsValue(s) == n
    ensures IsAsciiDigit(s[0])
  {
    var last := ['0' + (n % 10) as char];
    if n < 10 then last
    else
      var init := DecimalDigits(n / 10);
      var s := init + last;
      assert s[..|s| - 1] == init;
      s
  }

  /** An `i32` as Rust's `Display` writes it. */
  function FormatI32(n: int): (s: string)
    requires I32Min <= n <= I32Max
    ensures |s| > 0
  {
    if n < 0 then "-" + DecimalDigits(-n) else DecimalDigits(n)
  }

  /** Every `i32` reads back from its decimal form. */
  lemma ParseFormatRoundTrip(n: int)
    requires I32Min <= n <= I32Max
    ensures ParseI32(FormatI32(n)) == Some(n)
  {
    var s := FormatI32(n);
    if n < 0 {
      assert s[1..] == DecimalDigits(-n);
    }
  }

  /** `list_i32_arg`: the argument, trimmed, parsed as an `i32`. */
  function ListI32Arg(args: seq<string>, index: nat): (r: Option<int>)
    ensures index >= |args| ==> r.None?
    ensures index < |args| ==> r == ParseI32(RustTrim(args[index]))
  {
    match ListStringArg(args, index)
    case None => None
    case Some(s) => ParseI32(RustTrim(s))
  }

  /**
   * `list_bool_arg`: the argument, trimmed and ASCII-lower-cased: `1` and
   * `true` are true, `0` and `false` are false, anything else is no value.
   */
  function ListBoolArg(args: seq<string>, index: nat): (r: Option<bool>)
    ensures r == Some(true) <==> index < |args| && ToLower(RustTrim(args[index])) in {"1", "true"}
    ensures r == Some(false) <==> index < |args| && ToLower(RustTrim(args[index])) in {"0", "false"}
  {
    match ListStringArg(args, index)
    case None => None
    case Some(s) =>
      var word := ToLower(RustTrim(s));
      if word == "1" || word == "true" then Some(true)
      else if word == "0" || word == "false" then Some(false)
      else None
  }

  /** `ensure_tab`'s url for a new view: the trimmed initial url, or `about:blank` when that is empty. */
  function InitialTabUrl(initialUrl: string): (r: string)
    ensures RustBlank(initialUrl) ==> r == AboutBlank
    ensures !RustBlank(initialUrl) ==> r == RustTrim(initialUrl)
    ensures r != ""
  {
    if RustBlank(initialUrl) then AboutBlank else RustTrim(initialUrl)
  }

  /** The content bounds a `set-content-bounds` command asks for, when all four numbers parse. */
  function RequestedBounds(args: seq<string>): (r: Option<Rect>)
    ensures r.Some? <==> ListI32Arg(args, 1).Some? && ListI32Arg(args, 2).Some?
                         && ListI32Arg(args, 3).Some? && ListI32Arg(args, 4).Some?
    ensures r.Some? ==> r.value.x == ListI32Arg(args, 1).value && r.value.y == ListI32Arg(args, 2).value
    ensures r.Some? ==> r.value.width == Max(ListI32Arg(args, 3).value, 1)
                        && r.value.height == Max(ListI32Arg(args, 4).value, 1)
    ensures r.Some? ==> r.value.width >= 1 && r.value.height >= 1
  {
    match (ListI32Arg(args, 1), ListI32Arg(args, 2), ListI32Arg(args, 3), ListI32Arg(args, 4))
    case (Some(x), Some(y), Some(width), Some(height)) => Some(Rect(x, y, Max(width, 1), Max(height, 1)))
    case _ => None
  }

  /**
   * Whether `on_process_message_received` claims the message (returns 1):
   * the UI chrome handler, a message from the renderer, named `pulse-host-command`.
   */
  predicate ClaimsMessage(role: BrowserRole, source: ProcessId, message: Option<ProcessMessage>) {
    role == UiChrome && source == RendererProcess && message.Some? && message.value.name == IpcCommandMessage
  }

  /** `browser_list.retain(|b| b.identifier() != closing)`. */
  function Retain(list: seq<int>, closing: int): (r: seq<int>)
    ensures multiset(r)[closing] == 0
    ensures forall id :: id != closing ==> multiset(r)[id] == multiset(list)[id]
  {
    if |list| == 0 then []
    else
      var rest := Retain(list[1..], closing);
      assert list == [list[0]] + list[1..];
      if list[0] == closing then rest else [list[0]] + rest
  }

  /** Retaining works piece by piece, so what stays keeps its order. */
  lemma {:induction false} RetainConcat(a: seq<int>, b: seq<int>, closing: int)
    ensures Retain(a + b, closing) == Retain(a, closing) + Retain(b, closing)
  {
    if |a| > 0 {
      assert (a + b)[1..] == a[1..] + b;
      RetainConcat(a[1..], b, closing);
    } else {
      assert a + b == b;
    }
  }

  // ---------------------------------------------------------------------
  // The handler
  // ---------------------------------------------------------------------

  class SimpleHandler {
    const role: BrowserRole
    const shellState: ShellState
    const trustedUiOrigin: string
    const hasContentClient: bool
    var browserList: seq<int>

    constructor (role: BrowserRole, shellState: ShellState, trustedUiOrigin: string, hasContentClient: bool)
      ensures this.role == role && this.shellState == shellState
      ensures this.trustedUiOrigin == trustedUiOrigin && this.hasContentClient == hasContentClient
      ensures browserList == []
    {
      this.role := role;
      this.shellState := shellState;
      this.trustedUiOrigin := trustedUiOrigin;
      this.hasContentClient := hasContentClient;
      browserList := [];
    }

    /** `on_after_created`: the browser is listed, and the UI handler records it as the UI browser. */
    method OnAfterCreated(browserId: Option<int>)
      requires shellState.Valid()
      modifies this, shellState
      ensures shellState.Valid()
      ensures browserId.None? ==> browserList == old(browserList) && unchanged(shellState)
      ensures browserId.Some? ==> browserList == old(browserList) + [browserId.value]
      ensures browserId.Some? && role == UiChrome ==>
                shellState.uiBrowserId == browserId
                && shellState.contentTabs == old(shellState.contentTabs)
                && shellState.activeTabId == old(shellState.activeTabId)
                && shellState.contentVisible == old(shellState.contentVisible)
                && shellState.windowBounds == old(shellState.windowBounds)
                && shellState.requestedContentBounds == old(shellState.requestedContentBounds)
      ensures browserId.Some? && role == WebContent ==> unchanged(shellState)
    {
      if browserId.None? {
        return;
      }
      browserList := browserList + [browserId.value];
      if role == UiChrome {
        shellState.SetUiBrowserId(browserId);
      }
    }

    /**
     * `on_before_close`: the closing browser leaves the list; the UI handler
     * forgets it as the UI browser, a content handler closes the tab it hosted.
     * The UI handler quits the message loop once no browser is left.
     */
    method OnBeforeClose(closing: Option<int>) returns (quit: bool)
      requires shellState.Valid()
      modifies this, shellState
      ensures shellState.Valid()
      ensures closing.None? ==> browserList == old(browserList) && unchanged(shellState)
      ensures closing.Some? ==> browserList == Retain(old(browserList), closing.value)
      ensures closing.Some? && role == UiChrome ==>
                shellState.uiBrowserId == (if old(shellState.uiBrowserId) == closing then None else old(shellState.uiBrowserId))
                && shellState.contentTabs == old(shellState.contentTabs)
                && shellState.activeTabId == old(shellState.activeTabId)
      ensures closing.Some? && role == WebContent ==>
                shellState.uiBrowserId == old(shellState.uiBrowserId)
                && (TabsOfBrowser(old(shellState.contentTabs), closing.value) == {} ==>
                      shellState.contentTabs == old(shellState.contentTabs)
                      && shellState.activeTabId == old(shellState.activeTabId))
                && (TabsOfBrowser(old(shellState.contentTabs), closing.value) != {} ==>
                      exists k :: IsLeast(k, TabsOfBrowser(old(shellState.contentTabs), closing.value))
                             && shellState.contentTabs == old(shellState.contentTabs) - {k}
                             && (old(shellState.activeTabId) != Some(k) ==> shellState.activeTabId == old(shellState.activeTabId))
                             && (old(shellState.activeTabId) == Some(k) ==>
                                   (shellState.activeTabId.None? <==> shellState.contentTabs == map[])
                                   && (shellState.activeTabId.Some? ==> IsLeast(shellState.activeTabId.value, shellState.contentTabs.Keys))))
      ensures closing.Some? ==>
                shellState.contentVisible == old(shellState.contentVisible)
                && shellState.windowBounds == old(shellState.windowBounds)
                && shellState.requestedContentBounds == old(shellState.requestedContentBounds)
      ensures quit <==> role == UiChrome && browserList == []
    {
      if closing.Some? {
        browserList := Retain(browserList, closing.value);
        if role == UiChrome && shellState.uiBrowserId == closing {
          shellState.SetUiBrowserId(None);
        } else if role == WebContent {
          shellState.RemoveContentTabByBrowserId(closing.value);
        }
      }
      quit := role == UiChrome && browserList == [];
    }

    /**
     * `ensure_tab`: a tab whose trimmed id is blank or already registered, or
     * a handler without a content client, opens nothing. Otherwise a view is
     * requested for `InitialTabUrl(initialUrl)` (`requested`); `created` is
     * the view that request yields, `None` when creation fails, and a created
     * view is registered under the trimmed id.
     */
    method EnsureTab(tabId: string, initialUrl: string, created: Option<TabSession>) returns (requested: Option<string>)
      requires shellState.Valid()
      modifies shellState
      ensures shellState.Valid()
      ensures var id := RustTrim(tabId);
              requested.Some? <==> id != "" && id !in old(shellState.contentTabs) && hasContentClient
      ensures requested.Some? ==> requested.value == InitialTabUrl(initialUrl)
      ensures requested.None? || created.None? ==> unchanged(shellState)
      ensures requested.Some? && created.Some? ==>
                var id := RustTrim(tabId);
                && shellState.contentTabs == old(shellState.contentTabs)[id := created.value]
                && shellState.activeTabId == (if old(shellState.activeTabId).None? then Some(id) else old(shellState.activeTabId))
                && shellState.uiBrowserId == old(shellState.uiBrowserId)
                && shellState.contentVisible == old(shellState.contentVisible)
                && shellState.requestedContentBounds == old(shellState.requestedContentBounds)
                && shellState.windowBounds == old(shellState.windowBounds)
    {
      var id := RustTrim(tabId);
      if id == "" || shellState.HasTab(id) || !hasContentClient {
        return None;
      }
      requested := Some(InitialTabUrl(initialUrl));
      if created.None? {
        return;
      }
      shellState.RegisterContentTab(id, created.value);
    }

    /** `activate-tab`: activate the tab when it is registered, and show the content. */
    method ActivateTabCommand(tabId: string)
      requires shellState.Valid()
      modifies shellState
      ensures shellState.Valid()
      ensures shellState.activeTabId == (if tabId in shellState.contentTabs then Some(tabId) else old(shellState.activeTabId))
      ensures shellState.contentVisible
      ensures shellState.contentTabs == old(shellState.contentTabs) && shellState.uiBrowserId == old(shellState.uiBrowserId)
      ensures shellState.requestedContentBounds == old(shellState.requestedContentBounds)
      ensures shellState.windowBounds == old(shellState.windowBounds)
    {
      shellState.ActivateTab(tabId);
      shellState.SetContentVisible(true);
    }

    /**
     * `navigate-tab`: for a url that is not blank after trimming, make sure
     * the tab exists (opened at that url), activate it and load the url in it.
     * `ensure_tab` trims the tab id but activation and loading use it as sent,
     * so a padded id opens a tab that is then neither activated nor loaded.
     */
    method NavigateTabCommand(tabId: string, url: string, created: Option<TabSession>)
      returns (requested: Option<string>, request: Option<BrowserRequest>)
      requires shellState.Valid()
      modifies shellState
      ensures shellState.Valid()
      ensures RustBlank(url) ==> requested.None? && request.None? && unchanged(shellState)
      ensures !RustBlank(url) ==>
                && (requested.Some? ==> requested.value == RustTrim(url))
                && (requested.Some? <==> RustTrim(tabId) != "" && RustTrim(tabId) !in old(shellState.contentTabs) && hasContentClient)
                && shellState.contentVisible
                && (tabId in shellState.contentTabs ==> shellState.activeTabId == Some(tabId))
                && (request.Some? <==> tabId in shellState.contentTabs && shellState.contentTabs[tabId].browserId.Some?)
                && (request.Some? ==> request.value == LoadUrl(shellState.contentTabs[tabId].browserId.value, RustTrim(url)))
                && shellState.contentTabs == (if requested.Some? && created.Some?
                                              then old(shellState.contentTabs)[RustTrim(tabId) := created.value]
                                              else old(shellState.contentTabs))
                && shellState.activeTabId == (if tabId in shellState.contentTabs then Some(tabId)
                                              else if requested.Some? && created.Some? && old(shellState.activeTabId).None?
                                              then Some(RustTrim(tabId))
                                              else old(shellState.activeTabId))
                && shellState.uiBrowserId == old(shellState.uiBrowserId)
                && shellState.windowBounds == old(shellState.windowBounds)
                && shellState.requestedContentBounds == old(shellState.requestedContentBounds)
      ensures tabId !in old(shellState.contentTabs) && RustTrim(tabId) != tabId ==>
                request.None? && shellState.activeTabId != Some(tabId)
    {
      requested, request := None, None;
      var trimmed := RustTrim(url);
      if trimmed == "" {
        return;
      }
      requested := EnsureTab(tabId, trimmed, created);
      TrimOfTrimmed(trimmed, IsRustSpace);
      shellState.ActivateTab(tabId);
      var target := shellState.NavigateTab(tabId, trimmed);
      if target.Some? {
        request := Some(LoadUrl(target.value, trimmed));
      }
    }

    /** `close-tab`: close the tab and ask its browser, if it had one, to close. */
    method CloseTabCommand(tabId: string) returns (request: Option<BrowserRequest>)
      requires shellState.Valid()
      modifies shellState
      ensures shellState.Valid()
      ensures tabId !in old(shellState.contentTabs) ==> request.None? && unchanged(shellState)
      ensures tabId in old(shellState.contentTabs) ==>
                && shellState.contentTabs == old(shellState.contentTabs) - {tabId}
                && (request.Some? <==> old(shellState.contentTabs)[tabId].browserId.Some?)
                && (request.Some? ==> request.value == CloseBrowser(old(shellState.contentTabs)[tabId].browserId.value))
                && (old(shellState.activeTabId) != Some(tabId) ==> shellState.activeTabId == old(shellState.activeTabId))
                && (old(shellState.activeTabId) == Some(tabId) ==>
                      (shellState.activeTabId.None? <==> shellState.contentTabs == map[])
                      && (shellState.activeTabId.Some? ==> IsLeast(shellState.activeTabId.value, shellState.contentTabs.Keys)))
                && shellState.uiBrowserId == old(shellState.uiBrowserId)
                && shellState.contentVisible == old(shellState.contentVisible)
                && shellState.windowBounds == old(shellState.windowBounds)
                && shellState.requestedContentBounds == old(shellState.requestedContentBounds)
    {
      request := None;
      if tabId !in shellState.contentTabs {
        return;
      }
      var browser := shellState.CloseTab(tabId);
      if browser.Some? {
        request := Some(CloseBrowser(browser.value));
      }
    }

    /**
     * `navigate`, the older single-content command: a url that is not blank
     * after trimming is loaded in the active tab, if there is one.
     */
    method NavigateCommand(url: string) returns (request: Option<BrowserRequest>)
      requires shellState.Valid()
      modifies shellState
      ensures shellState.Valid()
      ensures RustBlank(url) || old(shellState.activeTabId).None? ==> request.None? && unchanged(shellState)
      ensures !RustBlank(url) && old(shellState.activeTabId).Some? ==>
                && shellState.contentVisible
                && shellState.contentTabs == old(shellState.contentTabs)
                && shellState.activeTabId == old(shellState.activeTabId)
                && shellState.uiBrowserId == old(shellState.uiBrowserId)
                && shellState.windowBounds == old(shellState.windowBounds)
                && shellState.requestedContentBounds == old(shellState.requestedContentBounds)
                && var tab := shellState.contentTabs[shellState.activeTabId.value];
                   (request.Some? <==> tab.browserId.Some?)
                   && (request.Some? ==> request.value == LoadUrl(tab.browserId.value, RustTrim(url)))
    {
      request := None;
      var trimmed := RustTrim(url);
      if trimmed == "" || shellState.activeTabId.None? {
        return;
      }
      var target := shellState.NavigateActiveTab(trimmed);
      if target.Some? {
        request := Some(LoadUrl(target.value, trimmed));
      }
    }

    /** The browser a browser control acts on: the one hosted by the tab, if any. */
    function BrowserForTab(tabId: string): (r: Option<int>)
      reads this, shellState
      ensures r.Some? ==> tabId in shellState.contentTabs && shellState.contentTabs[tabId].browserId == r
      ensures tabId in shellState.contentTabs ==> r == shellState.contentTabs[tabId].browserId
    {
      if tabId in shellState.contentTabs then shellState.contentTabs[tabId].browserId else None
    }

    /**
     * `on_process_message_received`: 0 for a message this handler does not
     * claim (see `ClaimsMessage`), 1 for every claimed one. A claimed message
     * runs its command only when it comes from the UI browser, from a frame
     * at the trusted origin, and carries an argument list whose first entry is
     * the command; a command missing a required argument does nothing.
     * `created` is the view that `ensure_tab` would get, as in `EnsureTab`.
     */
    method OnProcessMessageReceived(browserId: Option<int>, frameUrl: Option<string>, source: ProcessId,
                                    message: Option<ProcessMessage>, created: Option<TabSession>)
      returns (r: int, requested: Option<string>, request: Option<BrowserRequest>)
      requires shellState.Valid()
      modifies shellState
      ensures shellState.Valid()
      ensures r == (if ClaimsMessage(role, source, message) then 1 else 0)
      ensures !ClaimsMessage(role, source, message) ==> unchanged(shellState) && requested.None? && request.None?
      ensures ClaimsMessage(role, source, message) &&
              (browserId.None? || old(shellState.uiBrowserId) != browserId
               || frameUrl.None? || !IsTrustedUiUrl(frameUrl.value, trustedUiOrigin)
               || message.value.args.None? || message.value.args.value == []) ==>
                unchanged(shellState) && requested.None? && request.None?
    {
      requested, request := None, None;
      if !ClaimsMessage(role, source, message) {
        return 0, None, None;
      }
      if browserId.None? || shellState.uiBrowserId != browserId
         || frameUrl.None? || !IsTrustedUiUrl(frameUrl.value, trustedUiOrigin) {
        return 1, None, None;
      }
      if message.value.args.None? {
        return 1, None, None;
      }
      var args := message.value.args.value;
      var command := ListStringArg(args, 0);
      if command.None? {
        return 1, None, None;
      }
      r := 1;
      match command.value {
        case "ensure-tab" =>
          var tabId := ListStringArg(args, 1);
          if tabId.Some? {
            requested := EnsureTab(tabId.value, ListStringArg(args, 2).GetOr(AboutBlank), created);
          }
        case "activate-tab" =>
          var tabId := ListStringArg(args, 1);
          if tabId.Some? {
            ActivateTabCommand(tabId.value);
          }
        case "navigate-tab" =>
          var tabId := ListStringArg(args, 1);
          var url := ListStringArg(args, 2);
          if tabId.Some? && url.Some? {
            requested, request := NavigateTabCommand(tabId.value, url.value, created);
          }
        case "close-tab" =>
          var tabId := ListStringArg(args, 1);
          if tabId.Some? {
            request := CloseTabCommand(tabId.value);
          }
        case "browser-back" =>
          var tabId := ListStringArg(args, 1);
          if tabId.Some? && BrowserForTab(tabId.value).Some? {
            request := Some(GoBack(BrowserForTab(tabId.value).value));
          }
        case "browser-forward" =>
          var tabId := ListStringArg(args, 1);
          if tabId.Some? && BrowserForTab(tabId.value).Some? {
            request := Some(GoForward(BrowserForTab(tabId.value).value));
          }
        case "browser-reload" =>
          var tabId := ListStringArg(args, 1);
          if tabId.Some? && BrowserForTab(tabId.value).Some? {
            request := Some(Reload(BrowserForTab(tabId.value).value));
          }
        case "browser-stop" =>
          var tabId := ListStringArg(args, 1);
          if tabId.Some? && BrowserForTab(tabId.value).Some? {
            request := Some(StopLoad(BrowserForTab(tabId.value).value));
          }
        case "navigate" =>
          var url := ListStringArg(args, 1);
          if url.Some? {
            request := NavigateCommand(url.value);
          }
        case "set-content-bounds" =>
          var bounds := RequestedBounds(args);
          if bounds.Some? {
            shellState.SetContentBounds(bounds.value);
          }
        case "set-content-visible" =>
          var visible := ListBoolArg(args, 1);
          if visible.Some? {
            shellState.SetContentVisible(visible.value);
          }
        case _ =>
      }
    }
  }
}
