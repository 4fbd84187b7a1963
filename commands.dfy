/**
 * Keyboard commands of the UI: the command table, the shortcut map, and the
 * canonical text of a shortcut ("Ctrl+Shift+G"), computed both from a binding
 * the user typed and from a key event, so that the two can be compared.
 */
module Commands {
  import opened Wrappers
  import opened Strings
  import opened Url

  // ---------------------------------------------------------------------------
  // The command table

  datatype CommandId =
    | NewGroup | NewTab | CloseCurrentTab | FocusAddress
    | BrowserBack | BrowserForward | BrowserReload | BrowserStop
    | ToggleTheme | OpenSettings

  datatype CommandCapability = WorkspaceMutate | WorkspaceNavigate | BrowserNavigate | UiSettings

  datatype Category = WorkspaceCategory | BrowserCategory | InterfaceCategory

  /**
   * A command definition. The label and description shown in the palette are
   * given by `Label` and `Description`, so that the table itself stays small.
   */
  datatype CommandDefinition = CommandDefinition(
    id: CommandId, category: Category, capability: CommandCapability, defaultShortcuts: seq<string>)

  /** The id as the UI writes it (the key of the stored shortcut map). */
  function IdName(id: CommandId): string {
    match id
    case NewGroup => "workspace.new-group"
    case NewTab => "workspace.new-tab"
    case CloseCurrentTab => "workspace.close-current-tab"
    case FocusAddress => "workspace.focus-address"
    case BrowserBack => "browser.back"
    case BrowserForward => "browser.forward"
    case BrowserReload => "browser.reload"
    case BrowserStop => "browser.stop"
    case ToggleTheme => "ui.toggle-theme"
    case OpenSettings => "ui.open-settings"
  }

  function Label(id: CommandId): string {
    match id
    case NewGroup => "New Group"
    case NewTab => "New Tab"
    case CloseCurrentTab => "Close Current Tab"
    case FocusAddress => "Focus Address Bar"
    case BrowserBack => "Back"
    case BrowserForward => "Forward"
    case BrowserReload => "Reload"
    case BrowserStop => "Stop Loading"
    case ToggleTheme => "Toggle Theme"
    case OpenSettings => "Open Settings"
  }

  function Description(id: CommandId): string {
    match id
    case NewGroup => "Create a new root group in the sidebar tree."
    case NewTab => "Create a browser tab in the active group context."
    case CloseCurrentTab => "Close the currently selected browser tab."
    case FocusAddress => "Move focus to the omnibox and select its text."
    case BrowserBack => "Navigate the current tab one page back."
    case BrowserForward => "Navigate the current tab one page forward."
    case BrowserReload => "Reload the current tab."
    case BrowserStop => "Stop loading the current tab."
    case ToggleTheme => "Switch between dark and light appearance."
    case OpenSettings => "Open the Pulse settings dialog."
  }

  /** `COMMAND_DEFINITIONS`, in their declared order. */
  const CommandDefinitions: seq<CommandDefinition> := [
    CommandDefinition(NewGroup, WorkspaceCategory, WorkspaceMutate, ["Ctrl+Shift+G"]),
    CommandDefinition(NewTab, WorkspaceCategory, WorkspaceMutate, ["Ctrl+T"]),
    CommandDefinition(CloseCurrentTab, WorkspaceCategory, WorkspaceMutate, ["Ctrl+W"]),
    CommandDefinition(FocusAddress, WorkspaceCategory, WorkspaceNavigate, ["Ctrl+L"]),
    CommandDefinition(BrowserBack, BrowserCategory, BrowserNavigate, ["Alt+Left"]),
    CommandDefinition(BrowserForward, BrowserCategory, BrowserNavigate, ["Alt+Right"]),
    CommandDefinition(BrowserReload, BrowserCategory, BrowserNavigate, ["Ctrl+R", "F5"]),
    CommandDefinition(BrowserStop, BrowserCategory, BrowserNavigate, ["Escape"]),
    CommandDefinition(ToggleTheme, InterfaceCategory, UiSettings, ["Ctrl+Shift+L"]),
    CommandDefinition(OpenSettings, InterfaceCategory, UiSettings, ["Ctrl+Comma"])
  ]

  /** Position of each command in the table. */
  function IndexOfCommand(id: CommandId): (i: nat)
    ensures i < |CommandDefinitions| && CommandDefinitions[i].id == id
  {
    match id
    case NewGroup => 0
    case NewTab => 1
    case CloseCurrentTab => 2
    case FocusAddress => 3
    case BrowserBack => 4
    case BrowserForward => 5
    case BrowserReload => 6
    case BrowserStop => 7
    case ToggleTheme => 8
    case OpenSettings => 9
  }

  /** No two definitions share an id. */
  lemma DefinitionIdsDistinct()
    ensures forall i, j :: 0 <= i < j < |CommandDefinitions| ==> CommandDefinitions[i].id != CommandDefinitions[j].id
  {
  }

  /** `Object.fromEntries`: a later entry for the same key wins. */
  function FromEntries<V>(entries: seq<(CommandId, V)>): (m: map<CommandId, V>)
    ensures forall k :: k in m <==> exists i :: 0 <= i < |entries| && entries[i].0 == k
  {
    if entries == [] then map[]
    else
      var last := entries[|entries| - 1];
      var m := FromEntries(entries[..|entries| - 1])[last.0 := last.1];
      assert forall i :: 0 <= i < |entries| - 1 ==> entries[..|entries| - 1][i] == entries[i];
      m
  }

  /** With distinct keys, every entry can be looked up. */
  lemma {:induction false} FromEntriesLookup<V>(entries: seq<(CommandId, V)>, i: nat)
    requires forall a, b :: 0 <= a < b < |entries| ==> entries[a].0 != entries[b].0
    requires i < |entries|
    ensures FromEntries(entries)[entries[i].0] == entries[i].1
  {
    var n := |entries| - 1;
    if i < n {
      assert entries[..n][i] == entries[i];
      FromEntriesLookup(entries[..n], i);
    }
  }

  /** `COMMAND_MAP`: each id to its definition. */
  function CommandMap(): map<CommandId, CommandDefinition> {
    FromEntries(seq(|CommandDefinitions|, i requires 0 <= i < |CommandDefinitions| =>
      (CommandDefinitions[i].id, CommandDefinitions[i])))
  }

  /** `COMMAND_MAP` has every command, mapped to its own definition. */
  lemma CommandMapIsTable(id: CommandId)
    ensures id in CommandMap() && CommandMap()[id] == CommandDefinitions[IndexOfCommand(id)]
    ensures CommandMap()[id].id == id
  {
    var entries := seq(|CommandDefinitions|, i requires 0 <= i < |CommandDefinitions| =>
      (CommandDefinitions[i].id, CommandDefinitions[i]));
    DefinitionIdsDistinct();
    FromEntriesLookup(entries, IndexOfCommand(id));
  }

  /** Bindings per command. */
  type ShortcutMap = map<CommandId, seq<string>>

  /** `defaultShortcutMap`: each command to a copy of its default bindings. */
  function DefaultShortcutMap(): ShortcutMap {
    FromEntries(seq(|CommandDefinitions|, i requires 0 <= i < |CommandDefinitions| =>
      (CommandDefinitions[i].id, CommandDefinitions[i].defaultShortcuts)))
  }

  /** The default map has an entry for every command, holding its default bindings. */
  lemma DefaultShortcutMapEntries(id: CommandId)
    ensures id in DefaultShortcutMap()
    ensures DefaultShortcutMap()[id] == CommandDefinitions[IndexOfCommand(id)].defaultShortcuts
  {
    var entries := seq(|CommandDefinitions|, i requires 0 <= i < |CommandDefinitions| =>
      (CommandDefinitions[i].id, CommandDefinitions[i].defaultShortcuts));
    DefinitionIdsDistinct();
    FromEntriesLookup(entries, IndexOfCommand(id));
  }

  // ---------------------------------------------------------------------------
  // Keys

  /** `/^f\d{1,2}$/i`: F1 .. F99. */
  predicate IsFunctionKey(key: string) {
    (|key| == 2 || |key| == 3) && (key[0] == 'f' || key[0] == 'F')
    && forall i :: 1 <= i < |key| ==> IsDigit(key[i])
  }

  /** The lower-cased keys the `switch` of `normalizedKey` has a case for. */
  predicate IsSwitchCase(lower: string) {
    lower == "control" || lower == "shift" || lower == "alt" || lower == "meta"
    || lower == "arrowleft" || lower == "arrowright" || lower == "arrowup" || lower == "arrowdown"
    || lower == "esc" || lower == " " || lower == "space" || lower == ","
  }

  /** The names the `switch` gives. */
  const FixedNames: set<string> := {"Left", "Right", "Up", "Down", "Escape", "Space", "Comma"}

  /** The `switch`: the bare modifier keys have no name, the other cases a fixed one. */
  function SwitchName(lower: string): (r: Option<string>)
    requires IsSwitchCase(lower)
    ensures r.None? <==> lower == "control" || lower == "shift" || lower == "alt" || lower == "meta"
    ensures r.Some? ==> r.value in FixedNames && r.value != [] && IsTrimmed(r.value, IsJsSpace)
  {
    if lower == "arrowleft" then Some("Left")
    else if lower == "arrowright" then Some("Right")
    else if lower == "arrowup" then Some("Up")
    else if lower == "arrowdown" then Some("Down")
    else if lower == "esc" then Some("Escape")
    else if lower == " " || lower == "space" then Some("Space")
    else if lower == "," then Some("Comma")
    else None
  }

  /** The name of a trimmed, non-empty key. */
  function KeyName(key: string): (r: Option<string>)
    requires key != [] && IsTrimmed(key, IsJsSpace)
    ensures r.Some? ==> r.value != [] && IsTrimmed(r.value, IsJsSpace)
  {
    var lower := ToLower(key);
    if IsSwitchCase(lower) then SwitchName(lower)
    else if IsFunctionKey(key) || |key| == 1 then Some(ToUpper(key))
    else Some([ToUpperChar(key[0])] + key[1..])
  }

  /**
   * `normalizedKey`: `None` for a blank key and for the bare modifier keys;
   * arrows, Esc, Space and ',' get fixed names; F-keys and single characters
   * are upper-cased; any other key gets its first character upper-cased.
   */
  function NormalizedKey(raw: string): (r: Option<string>)
    ensures JsBlank(raw) ==> r.None?
    ensures r.Some? ==> r.value != [] && IsTrimmed(r.value, IsJsSpace)
  {
    var key := JsTrim(raw);
    if key == [] then None else KeyName(key)
  }

  /**
   * The `" "` case of `normalizedKey` is unreachable: the key is trimmed
   * first, so the space bar (whose key is " ") has no name and no shortcut.
   */
  lemma SpaceBarHasNoKey()
    ensures NormalizedKey(" ") == None
  {
    assert IsJsSpace(" "[0]);
  }

  /** What the cases of the `switch` give, and that only blank keys and bare modifiers have no name. */
  lemma NormalizedKeyCases(raw: string)
    ensures var lower := ToLower(JsTrim(raw));
            && (lower == "arrowleft" ==> NormalizedKey(raw) == Some("Left"))
            && (lower == "arrowright" ==> NormalizedKey(raw) == Some("Right"))
            && (lower == "arrowup" ==> NormalizedKey(raw) == Some("Up"))
            && (lower == "arrowdown" ==> NormalizedKey(raw) == Some("Down"))
            && (lower == "esc" ==> NormalizedKey(raw) == Some("Escape"))
            && (lower == "space" ==> NormalizedKey(raw) == Some("Space"))
            && (lower == "," ==> NormalizedKey(raw) == Some("Comma"))
    ensures NormalizedKey(raw).None? <==>
              JsBlank(raw) || var lower := ToLower(JsTrim(raw)); lower == "control" || lower == "shift" || lower == "alt" || lower == "meta"
  {
    if JsTrim(raw) == [] {
      assert ToLower(JsTrim(raw)) == [];
    }
  }

  /** Upper-casing keeps the lower case. */
  lemma LowerOfUpper(s: string)
    ensures ToLower(ToUpper(s)) == ToLower(s)
  {
  }

  /** Upper-casing the first character keeps the lower case. */
  lemma LowerOfCapitalised(key: string)
    requires key != []
    ensures ToLower([ToUpperChar(key[0])] + key[1..]) == ToLower(key)
  {
  }

  /** An upper-cased F-key or single character is its own name. */
  lemma UpperKeyIsKept(key: string)
    requires key != [] && IsTrimmed(key, IsJsSpace) && !IsSwitchCase(ToLower(key))
    requires IsFunctionKey(key) || |key| == 1
    ensures KeyName(ToUpper(key)) == Some(ToUpper(key))
  {
    var k := ToUpper(key);
    LowerOfUpper(key);
    assert IsFunctionKey(key) ==> IsFunctionKey(k);
    assert ToUpper(k) == k;
  }

  /** A capitalised key other than an F-key or a single character is its own name. */
  lemma CapitalisedKeyIsKept(key: string)
    requires key != [] && IsTrimmed(key, IsJsSpace) && !IsSwitchCase(ToLower(key))
    requires !IsFunctionKey(key) && |key| != 1
    ensures var k := [ToUpperChar(key[0])] + key[1..];
            IsTrimmed(k, IsJsSpace) && KeyName(k) == Some(k)
  {
    var k := [ToUpperChar(key[0])] + key[1..];
    LowerOfCapitalised(key);
    assert [ToUpperChar(k[0])] + k[1..] == k;
  }

  /** A capitalised name outside the `switch` is its own name. */
  lemma CapitalNameIsKept(name: string, lower: string)
    requires |name| > 1 && IsTrimmed(name, IsJsSpace) && 'A' <= name[0] <= 'Z' && !IsFunctionKey(name)
    requires ToLower(name) == lower && !IsSwitchCase(lower)
    ensures KeyName(name) == Some(name)
  {
    assert [ToUpperChar(name[0])] + name[1..] == name;
  }

  /** A fixed name other than "Space" is its own name. */
  lemma CapitalFixedNameIsKept(name: string, lower: string)
    requires name in FixedNames && name != "Space" && lower == ToLower(name)
    requires lower in {"left", "right", "up", "down", "escape", "comma"}
    ensures KeyName(name) == Some(name)
  {
    CapitalNameIsKept(name, lower);
  }

  /** "Space" is its own name: it is a case of the `switch`. */
  lemma SpaceNameIsKept()
    ensures KeyName("Space") == Some("Space")
  {
    assert ToLower("Space") == "space";
  }

  /** The fixed names are their own names. */
  lemma FixedNameIsKept(name: string)
    requires name in FixedNames
    ensures KeyName(name) == Some(name)
  {
    if name == "Space" {
      SpaceNameIsKept();
    } else if name == "Left" {
      assert ToLower(name) == "left";
      CapitalFixedNameIsKept(name, "left");
    } else if name == "Right" {
      assert ToLower(name) == "right";
      CapitalFixedNameIsKept(name, "right");
    } else if name == "Up" {
      assert ToLower(name) == "up";
      CapitalFixedNameIsKept(name, "up");
    } else if name == "Down" {
      assert ToLower(name) == "down";
      CapitalFixedNameIsKept(name, "down");
    } else if name == "Escape" {
      assert ToLower(name) == "escape";
      CapitalFixedNameIsKept(name, "escape");
    } else {
      assert ToLower(name) == "comma";
      CapitalFixedNameIsKept(name, "comma");
    }
  }

  /** `normalizedKey` is idempotent: the names it gives are read back as themselves. */
  lemma NormalizedKeyIdempotent(raw: string)
    requires NormalizedKey(raw).Some?
    ensures NormalizedKey(NormalizedKey(raw).value) == NormalizedKey(raw)
  {
    var key := JsTrim(raw);
    var k := NormalizedKey(raw).value;
    TrimOfTrimmed(k, IsJsSpace);
    if IsSwitchCase(ToLower(key)) {
      FixedNameIsKept(k);
    } else if IsFunctionKey(key) || |key| == 1 {
      UpperKeyIsKept(key);
    } else {
      CapitalisedKeyIsKept(key);
    }
  }

  // ---------------------------------------------------------------------------
  // Shortcuts

  datatype Modifier = Ctrl | Meta | Alt | Shift

  /** Which modifier a part of a binding names, in any case. */
  function ModifierOf(part: string): Option<Modifier> {
    var lower := ToLower(part);
    if lower == "ctrl" || lower == "control" then Some(Ctrl)
    else if lower == "meta" || lower == "cmd" || lower == "command" then Some(Meta)
    else if lower == "alt" || lower == "option" then Some(Alt)
    else if lower == "shift" then Some(Shift)
    else None
  }

  /** The names of the present modifiers, always in the order Ctrl, Meta, Alt, Shift. */
  function OrderedModifiers(modifiers: set<Modifier>): seq<string> {
    (if Ctrl in modifiers then ["Ctrl"] else [])
    + (if Meta in modifiers then ["Meta"] else [])
    + (if Alt in modifiers then ["Alt"] else [])
    + (if Shift in modifiers then ["Shift"] else [])
  }

  /** The canonical text of a shortcut: the modifiers in fixed order, then the key, joined by '+'. */
  function ShortcutText(modifiers: set<Modifier>, key: string): string {
    Join(OrderedModifiers(modifiers) + [key], '+')
  }

  /** The parts of a typed binding: split on '+', trimmed, empty parts dropped. */
  function ShortcutParts(shortcut: string): (parts: seq<string>)
    ensures forall i :: 0 <= i < |parts| ==> parts[i] != [] && '+' !in parts[i]
  {
    NonEmptyTrimmed(Split(shortcut, '+'))
  }

  /** `.map((part) => part.trim()).filter((part) => part.length > 0)`. */
  function NonEmptyTrimmed(parts: seq<string>): (r: seq<string>)
    requires forall i :: 0 <= i < |parts| ==> '+' !in parts[i]
    ensures forall i :: 0 <= i < |r| ==> r[i] != [] && '+' !in r[i]
  {
    if parts == [] then []
    else
      var t := JsTrim(parts[0]);
      TrimIsInfix(parts[0]);
      var rest := NonEmptyTrimmed(parts[1..]);
      if t != [] then [t] + rest else rest
  }

  /** Trimming keeps only characters of the text. */
  lemma TrimIsInfix(s: string)
    ensures forall c :: c in JsTrim(s) ==> c in s
  {
    var a := LeadingSpaces(s, IsJsSpace);
    var t := s[a..];
    var r := t[..KeptLength(t, IsJsSpace)];
    forall c | c in r ensures c in s {
      var i :| 0 <= i < |r| && r[i] == c;
      assert s[a + i] == c;
    }
  }

  /** The modifiers a list of parts names. */
  function PartModifiers(parts: seq<string>): set<Modifier> {
    if parts == [] then {}
    else
      var last := parts[|parts| - 1];
      PartModifiers(parts[..|parts| - 1]) + (if ModifierOf(last).Some? then {ModifierOf(last).value} else {})
  }

  /** The key of a list of parts: `normalizedKey` of the last part that is not a modifier. */
  function LastKey(parts: seq<string>): Option<string> {
    if parts == [] then None
    else
      var last := parts[|parts| - 1];
      if ModifierOf(last).Some? then LastKey(parts[..|parts| - 1]) else NormalizedKey(last)
  }

  /** What `normalizeShortcut` returns: the canonical text, or "" when the binding has no key. */
  function CanonicalShortcut(shortcut: string): string {
    var parts := ShortcutParts(shortcut);
    match LastKey(parts)
    case None => ""
    case Some(key) => ShortcutText(PartModifiers(parts), key)
  }

  /** `normalizeShortcut`: the loop over the parts filling the modifier set and the key. */
  method NormalizeShortcut(shortcut: string) returns (r: string)
    ensures r == CanonicalShortcut(shortcut)
  {
    var rawParts := ShortcutParts(shortcut);
    var modifiers: set<Modifier> := {};
    var key: Option<string> := None;
    for i := 0 to |rawParts|
      invariant modifiers == PartModifiers(rawParts[..i])
      invariant key == LastKey(rawParts[..i])
    {
      PartsStep(rawParts, i);
      var modifier := ModifierOf(rawParts[i]);
      if modifier.Some? {
        modifiers := modifiers + {modifier.value};
      } else {
        key := NormalizedKey(rawParts[i]);
      }
    }
    assert rawParts[..|rawParts|] == rawParts;
    if key.None? {
      return "";
    }
    r := JoinShortcut(modifiers, key.value);
  }

  /** One more part read: its modifier is added, or it becomes the key. */
  lemma PartsStep(parts: seq<string>, i: nat)
    requires i < |parts|
    ensures PartModifiers(parts[..i + 1])
            == PartModifiers(parts[..i]) + (if ModifierOf(parts[i]).Some? then {ModifierOf(parts[i]).value} else {})
    ensures LastKey(parts[..i + 1]) == if ModifierOf(parts[i]).Some? then LastKey(parts[..i]) else NormalizedKey(parts[i])
  {
    assert parts[..i + 1][..i] == parts[..i];
  }

  /** The ordered modifiers and the key, joined by '+'. */
  method JoinShortcut(modifiers: set<Modifier>, key: string) returns (r: string)
    ensures r == ShortcutText(modifiers, key)
  {
    var ordered := OrderModifiers(modifiers);
    ordered := ordered + [key];
    r := Join(ordered, '+');
  }

  /** The four `if (modifiers.has(...)) ordered.push(...)` steps. */
  method OrderModifiers(modifiers: set<Modifier>) returns (ordered: seq<string>)
    ensures ordered == OrderedModifiers(modifiers)
  {
    ordered := [];
    if Ctrl in modifiers {
      ordered := ordered + ["Ctrl"];
    }
    if Meta in modifiers {
      ordered := ordered + ["Meta"];
    }
    if Alt in modifiers {
      ordered := ordered + ["Alt"];
    }
    if Shift in modifiers {
      ordered := ordered + ["Shift"];
    }
  }

  /** The key and modifier flags of a `KeyboardEvent`. */
  datatype KeyEvent = KeyEvent(key: string, ctrlKey: bool, metaKey: bool, altKey: bool, shiftKey: bool)

  /** The modifiers a key event holds. */
  function EventModifiers(event: KeyEvent): (m: set<Modifier>)
    ensures Ctrl in m <==> event.ctrlKey
    ensures Meta in m <==> event.metaKey
    ensures Alt in m <==> event.altKey
    ensures Shift in m <==> event.shiftKey
  {
    (if event.ctrlKey then {Ctrl} else {}) + (if event.metaKey then {Meta} else {})
    + (if event.altKey then {Alt} else {}) + (if event.shiftKey then {Shift} else {})
  }

  /** The shortcut text of a key event, `None` when its key has no name. */
  function EventShortcut(event: KeyEvent): Option<string> {
    match NormalizedKey(event.key)
    case None => None
    case Some(key) => Some(ShortcutText(EventModifiers(event), key))
  }

  /** `keyboardEventToShortcut`: pushes the held modifiers and the key. */
  method KeyboardEventToShortcut(event: KeyEvent) returns (r: Option<string>)
    ensures r == EventShortcut(event)
  {
    var key := NormalizedKey(event.key);
    if key.None? {
      return None;
    }
    var text := JoinShortcut(EventModifiers(event), key.value);
    return Some(text);
  }

  /** The modifier names are read back as the modifiers they name. */
  lemma ModifierNamesRoundTrip(modifiers: set<Modifier>)
    ensures var names := OrderedModifiers(modifiers);
            (forall i :: 0 <= i < |names| ==> ModifierOf(names[i]).Some? && IsTrimmed(names[i], IsJsSpace)
                                               && names[i] != [] && '+' !in names[i])
            && PartModifiers(names) == modifiers
  {
    var names := OrderedModifiers(modifiers);
    OrderedModifiersNames(modifiers);
    forall i | 0 <= i < |names|
      ensures ModifierOf(names[i]).Some? && IsTrimmed(names[i], IsJsSpace) && names[i] != [] && '+' !in names[i]
    {
      ModifierNameClean(names[i]);
    }
    OrderedModifiersRead(modifiers);
  }

  /** The words written for modifiers. */
  predicate IsModifierName(name: string) {
    name == "Ctrl" || name == "Meta" || name == "Alt" || name == "Shift"
  }

  lemma OrderedModifiersNames(modifiers: set<Modifier>)
    ensures forall i :: 0 <= i < |OrderedModifiers(modifiers)| ==> IsModifierName(OrderedModifiers(modifiers)[i])
  {
  }

  lemma ModifierNameClean(name: string)
    requires IsModifierName(name)
    ensures ModifierOf(name).Some? && IsTrimmed(name, IsJsSpace) && name != [] && '+' !in name
  {
    ModifierNamesAreModifiers();
  }

  /** The modifiers named by `OrderedModifiers` are the ones it was given. */
  lemma OrderedModifiersRead(modifiers: set<Modifier>)
    ensures PartModifiers(OrderedModifiers(modifiers)) == modifiers
  {
    var c: seq<string> := if Ctrl in modifiers then ["Ctrl"] else [];
    var me: seq<string> := if Meta in modifiers then ["Meta"] else [];
    var a: seq<string> := if Alt in modifiers then ["Alt"] else [];
    var sh: seq<string> := if Shift in modifiers then ["Shift"] else [];
    assert OrderedModifiers(modifiers) == c + me + a + sh;
    ModifierNamesAreModifiers();
    PartModifiersAppend(c, me);
    PartModifiersAppend(c + me, a);
    PartModifiersAppend(c + me + a, sh);
    OptionalPart(Ctrl in modifiers, "Ctrl", Ctrl);
    OptionalPart(Meta in modifiers, "Meta", Meta);
    OptionalPart(Alt in modifiers, "Alt", Alt);
    OptionalPart(Shift in modifiers, "Shift", Shift);
    KindsUnion(modifiers);
  }

  /** The modifiers of a part list holding one modifier name or nothing. */
  lemma OptionalPart(present: bool, name: string, m: Modifier)
    requires ModifierOf(name) == Some(m)
    ensures PartModifiers(if present then [name] else []) == if present then {m} else {}
  {
    PartModifiersOfOne(name);
    assert PartModifiers([]) == {};
  }

  /** A set of modifiers is the union of its four possible members. */
  lemma KindsUnion(modifiers: set<Modifier>)
    ensures modifiers == (if Ctrl in modifiers then {Ctrl} else {}) + (if Meta in modifiers then {Meta} else {})
                         + (if Alt in modifiers then {Alt} else {}) + (if Shift in modifiers then {Shift} else {})
  {
    var u := (if Ctrl in modifiers then {Ctrl} else {}) + (if Meta in modifiers then {Meta} else {})
             + (if Alt in modifiers then {Alt} else {}) + (if Shift in modifiers then {Shift} else {});
    SameKinds(modifiers, u);
  }

  /** Two sets of modifiers that agree on each of the four kinds are equal. */
  lemma SameKinds(modifiers: set<Modifier>, other: set<Modifier>)
    requires Ctrl in other <==> Ctrl in modifiers
    requires Meta in other <==> Meta in modifiers
    requires Alt in other <==> Alt in modifiers
    requires Shift in other <==> Shift in modifiers
    ensures other == modifiers
  {
    forall m ensures m in other <==> m in modifiers {
      match m
      case Ctrl =>
      case Meta =>
      case Alt =>
      case Shift =>
    }
  }

  /** The names written for the modifiers are read back as them. */
  lemma ModifierNamesAreModifiers()
    ensures ModifierOf("Ctrl") == Some(Ctrl) && ModifierOf("Meta") == Some(Meta)
    ensures ModifierOf("Alt") == Some(Alt) && ModifierOf("Shift") == Some(Shift)
  {
    assert ToLower("Ctrl") == "ctrl";
    assert ToLower("Meta") == "meta";
    assert ToLower("Alt") == "alt";
    assert ToLower("Shift") == "shift";
  }

  lemma PartModifiersOfOne(part: string)
    ensures PartModifiers([part]) == if ModifierOf(part).Some? then {ModifierOf(part).value} else {}
  {
    assert [part][..0] == [];
  }

  /** The modifiers of two lists of parts together. */
  lemma {:induction false} PartModifiersAppend(xs: seq<string>, ys: seq<string>)
    ensures PartModifiers(xs + ys) == PartModifiers(xs) + PartModifiers(ys)
  {
    if ys != [] {
      var n := |ys| - 1;
      assert (xs + ys)[..|xs + ys| - 1] == xs + ys[..n];
      PartModifiersAppend(xs, ys[..n]);
    } else {
      assert xs + ys == xs;
    }
  }

  /** The key part ends a list of modifier parts, so it is the key that is read back. */
  lemma {:induction false} LastKeyOfModifiersThenKey(names: seq<string>, key: string)
    requires ModifierOf(key).None?
    ensures LastKey(names + [key]) == NormalizedKey(key)
    ensures PartModifiers(names + [key]) == PartModifiers(names)
  {
    assert (names + [key])[..|names|] == names;
  }

  /** A text of trimmed, non-empty parts is its own list of parts. */
  lemma {:induction false} NonEmptyTrimmedOfClean(parts: seq<string>)
    requires forall i :: 0 <= i < |parts| ==> parts[i] != [] && IsTrimmed(parts[i], IsJsSpace) && '+' !in parts[i]
    ensures NonEmptyTrimmed(parts) == parts
  {
    if parts != [] {
      TrimOfTrimmed(parts[0], IsJsSpace);
      NonEmptyTrimmedOfClean(parts[1..]);
    }
  }

  /**
   * Canonical shortcut texts are fixed points of `normalizeShortcut` when the
   * key is read back as itself, has no '+' and does not name a modifier.
   */
  lemma ShortcutTextRoundTrip(modifiers: set<Modifier>, key: string)
    requires NormalizedKey(key) == Some(key) && '+' !in key && ModifierOf(key).None?
    ensures CanonicalShortcut(ShortcutText(modifiers, key)) == ShortcutText(modifiers, key)
  {
    var names := OrderedModifiers(modifiers);
    var parts := names + [key];
    ModifierNamesRoundTrip(modifiers);
    ModifiersThenKeyClean(modifiers, key);
    SplitJoin(parts, '+');
    NonEmptyTrimmedOfClean(parts);
    LastKeyOfModifiersThenKey(names, key);
  }

  /** The parts of a canonical shortcut are non-empty, trimmed and free of '+'. */
  lemma ModifiersThenKeyClean(modifiers: set<Modifier>, key: string)
    requires key != [] && IsTrimmed(key, IsJsSpace) && '+' !in key
    ensures var parts := OrderedModifiers(modifiers) + [key];
            forall i :: 0 <= i < |parts| ==> parts[i] != [] && IsTrimmed(parts[i], IsJsSpace) && '+' !in parts[i]
  {
    var names := OrderedModifiers(modifiers);
    var parts := names + [key];
    ModifierNamesRoundTrip(modifiers);
    forall i | 0 <= i < |parts| ensures parts[i] != [] && IsTrimmed(parts[i], IsJsSpace) && '+' !in parts[i] {
      if i < |names| { assert parts[i] == names[i]; }
    }
  }

  /**
   * The shortcut of a key event, typed back as a binding, matches the event,
   * unless its key is '+' or a modifier word.
   */
  lemma EventShortcutRoundTrip(event: KeyEvent)
    requires EventShortcut(event).Some?
    requires '+' !in NormalizedKey(event.key).value && ModifierOf(NormalizedKey(event.key).value).None?
    ensures CanonicalShortcut(EventShortcut(event).value) == EventShortcut(event).value
  {
    NormalizedKeyIdempotent(event.key);
    ShortcutTextRoundTrip(EventModifiers(event), NormalizedKey(event.key).value);
  }

  /** The plus key: Ctrl with '+' gives "Ctrl++", which no binding can be typed to match. */
  lemma PlusKeyHasNoBinding()
    ensures EventShortcut(KeyEvent("+", true, false, false, false)) == Some("Ctrl++")
    ensures CanonicalShortcut("Ctrl++") == ""
  {
    PlusKeyShortcut();
    CtrlPlusPlusHasNoKey();
  }

  lemma PlusKeyShortcut()
    ensures EventShortcut(KeyEvent("+", true, false, false, false)) == Some("Ctrl++")
  {
    var plus := "+";
    TrimOfTrimmed(plus, IsJsSpace);
    assert ToLower(plus) == "+";
    assert !IsSwitchCase(plus);
    assert ToUpper(plus) == "+";
    assert NormalizedKey(plus) == Some("+");
    assert EventModifiers(KeyEvent("+", true, false, false, false)) == {Ctrl};
    assert OrderedModifiers({Ctrl}) == ["Ctrl"];
    assert Join(["Ctrl", "+"], '+') == "Ctrl++";
  }

  lemma CtrlPlusPlusHasNoKey()
    ensures CanonicalShortcut("Ctrl++") == ""
  {
    CtrlPlusPlusParts();
    ModifierNamesAreModifiers();
    assert ["Ctrl"][..0] == [];
  }

  /** "Ctrl++" splits into "Ctrl" and two empty parts, which are dropped. */
  lemma CtrlPlusPlusParts()
    ensures ShortcutParts("Ctrl++") == ["Ctrl"]
  {
    var parts := ["Ctrl", "", ""];
    assert Join(parts, '+') == "Ctrl++";
    assert forall i :: 0 <= i < |parts| ==> '+' !in parts[i];
    SplitJoin(parts, '+');
    TrimOfTrimmed("Ctrl", IsJsSpace);
    assert NonEmptyTrimmed([""]) == [];
    assert NonEmptyTrimmed(["", ""]) == [];
  }

  // ---------------------------------------------------------------------------
  // Resolving a key event

  /** `shortcutMap[definition.id] ?? definition.defaultShortcuts`. */
  function BindingsOf(shortcutMap: ShortcutMap, definition: CommandDefinition): seq<string> {
    if definition.id in shortcutMap then shortcutMap[definition.id] else definition.defaultShortcuts
  }

  /** Some element of `xs` is mapped to `y` by `f`: `xs.some((x) => f(x) === y)`. */
  predicate SomeMapsTo(f: string -> string, xs: seq<string>, y: string) {
    exists i :: 0 <= i < |xs| && f(xs[i]) == y
  }

  /** A definition is bound to the shortcut when one of its bindings normalises to it. */
  predicate BoundBy(normalize: string -> string, shortcutMap: ShortcutMap, definition: CommandDefinition, shortcut: string) {
    SomeMapsTo(normalize, BindingsOf(shortcutMap, definition), shortcut)
  }

  /** The test the loop applies to each definition. */
  function IsBoundTo(shortcutMap: ShortcutMap, shortcut: string): CommandDefinition -> bool {
    definition => BoundBy(CanonicalShortcut, shortcutMap, definition, shortcut)
  }

  /** Index of the first definition passing `test`, `|definitions|` when there is none. */
  function FirstWhere(test: CommandDefinition -> bool, definitions: seq<CommandDefinition>): (i: nat)
    ensures i <= |definitions|
    ensures i < |definitions| ==> test(definitions[i])
    ensures forall j :: 0 <= j < i ==> !test(definitions[j])
  {
    if definitions == [] then 0
    else if test(definitions[0]) then 0
    else 1 + FirstWhere(test, definitions[1..])
  }

  /** The command a key event runs: the first in table order with a binding whose canonical text is the event's. */
  function ResolvedCommand(event: KeyEvent, shortcutMap: ShortcutMap): Option<CommandId> {
    match EventShortcut(event)
    case None => None
    case Some(shortcut) =>
      var i := FirstWhere(IsBoundTo(shortcutMap, shortcut), CommandDefinitions);
      if i < |CommandDefinitions| then Some(CommandDefinitions[i].id) else None
  }

  /** The `for ... of` loop over the definitions: the index of the first one passing `test`. */
  method FindDefinition(test: CommandDefinition -> bool, definitions: seq<CommandDefinition>) returns (i: nat)
    ensures i == FirstWhere(test, definitions)
  {
    i := 0;
    while i < |definitions|
      invariant i <= |definitions|
      invariant forall j :: 0 <= j < i ==> !test(definitions[j])
    {
      if test(definitions[i]) {
        return;
      }
      i := i + 1;
    }
  }

  /** `resolveCommandFromKeyboardEvent`. */
  method ResolveCommandFromKeyboardEvent(event: KeyEvent, shortcutMap: ShortcutMap) returns (r: Option<CommandId>)
    ensures r == ResolvedCommand(event, shortcutMap)
  {
    var shortcut := KeyboardEventToShortcut(event);
    if shortcut.None? {
      return None;
    }
    var i := FindDefinition(IsBoundTo(shortcutMap, shortcut.value), CommandDefinitions);
    if i < |CommandDefinitions| {
      return Some(CommandDefinitions[i].id);
    }
    return None;
  }

  /**
   * An event whose shortcut is the canonical text of one of a command's
   * default bindings runs that command, or one listed before it.
   */
  lemma DefaultBindingResolves(event: KeyEvent, n: nat, b: nat) returns (k: nat)
    requires EventShortcut(event).Some?
    requires n < |CommandDefinitions| && b < |CommandDefinitions[n].defaultShortcuts|
    requires CanonicalShortcut(CommandDefinitions[n].defaultShortcuts[b]) == EventShortcut(event).value
    ensures k <= n && ResolvedCommand(event, DefaultShortcutMap()) == Some(CommandDefinitions[k].id)
  {
    var shortcut := EventShortcut(event).value;
    DefaultBindingIsFound(shortcut, n, b);
    k := FirstWhere(IsBoundTo(DefaultShortcutMap(), shortcut), CommandDefinitions);
  }

  /** The loop stops at or before a definition one of whose default bindings matches. */
  lemma DefaultBindingIsFound(shortcut: string, n: nat, b: nat)
    requires n < |CommandDefinitions| && b < |CommandDefinitions[n].defaultShortcuts|
    requires CanonicalShortcut(CommandDefinitions[n].defaultShortcuts[b]) == shortcut
    ensures FirstWhere(IsBoundTo(DefaultShortcutMap(), shortcut), CommandDefinitions) <= n
  {
    IndexOfCommandOfTable(n);
    DefaultShortcutMapEntries(CommandDefinitions[n].id);
    DefaultBindingIsBound(DefaultShortcutMap(), CommandDefinitions[n], shortcut, b);
  }

  /** A definition whose stored bindings include one normalising to the shortcut passes the loop's test. */
  lemma DefaultBindingIsBound(shortcutMap: ShortcutMap, definition: CommandDefinition, shortcut: string, b: nat)
    requires definition.id in shortcutMap
    requires b < |shortcutMap[definition.id]| && CanonicalShortcut(shortcutMap[definition.id][b]) == shortcut
    ensures IsBoundTo(shortcutMap, shortcut)(definition)
  {
    assert BoundBy(CanonicalShortcut, shortcutMap, definition, shortcut);
  }

  /** Each command's position in the table is where `IndexOfCommand` says. */
  lemma IndexOfCommandOfTable(i: nat)
    requires i < |CommandDefinitions|
    ensures IndexOfCommand(CommandDefinitions[i].id) == i
  {
    DefinitionIdsDistinct();
  }
}
