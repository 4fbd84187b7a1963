/**
 * What the UI reads at start-up: the session it restores (host copy, then the
 * local copy, then the seed workspace) and the user's shortcut bindings.
 *
 * Storage reads are parameters: a stored text is `None` when the key is
 * absent, and `parseJson` stands for `JSON.parse`, giving `None` where it
 * throws.
 */
module AppLoading {
  import opened Wrappers
  import opened Strings
  import opened Json
  import opened Workspace
  import opened SessionState
  import opened Commands

  /** `JSON.parse` on a stored text: the value, or `None` for text that is not JSON. */
  type JsonParser = string -> Option<Json>

  // ---------------------------------------------------------------------------
  // The session

  /** The state a stored copy yields: only a non-empty text is parsed, and it must parse. */
  function StoredSession(text: Option<string>, parseJson: JsonParser): Option<UiSessionState> {
    if text.Some? && text.value != "" then ParseUiSessionState(parseJson(text.value)) else None
  }

  /** `loadInitialSessionState`: the host's copy if it parses, else the local copy if it parses, else the default. */
  function LoadInitialSessionState(hostText: Option<string>, localText: Option<string>, parseJson: JsonParser): (r: UiSessionState)
    ensures StoredSession(hostText, parseJson).Some? ==> r == StoredSession(hostText, parseJson).value
    ensures StoredSession(hostText, parseJson).None? && StoredSession(localText, parseJson).Some? ==>
              r == StoredSession(localText, parseJson).value
    ensures StoredSession(hostText, parseJson).None? && StoredSession(localText, parseJson).None? ==>
              r == DefaultUiSessionState()
  {
    match StoredSession(hostText, parseJson)
    case Some(state) => state
    case None =>
      match StoredSession(localText, parseJson)
      case Some(state) => state
      case None => DefaultUiSessionState()
  }

  /** A restored session is well-formed unless it is the seed workspace. */
  lemma LoadedSessionWellFormed(hostText: Option<string>, localText: Option<string>, parseJson: JsonParser)
    ensures var r := LoadInitialSessionState(hostText, localText, parseJson);
            r == DefaultUiSessionState() || WellFormed(r)
  {
    var host := StoredSession(hostText, parseJson);
    var local := StoredSession(localText, parseJson);
    if host.Some? {
      SanitizeWellFormed(parseJson(hostText.value).value);
    } else if local.Some? {
      SanitizeWellFormed(parseJson(localText.value).value);
    }
  }

  /** The seed workspace has distinct ids, so every state the UI starts from has them. */
  lemma LoadedSessionDistinct(hostText: Option<string>, localText: Option<string>, parseJson: JsonParser)
    ensures DistinctIds(LoadInitialSessionState(hostText, localText, parseJson).items)
  {
    LoadedSessionWellFormed(hostText, localText, parseJson);
    DefaultUiSessionStateValue();
    InitialWorkspaceDistinct();
  }

  /** The seed workspace's six ids are pairwise different. */
  lemma InitialWorkspaceDistinct()
    ensures DistinctIds(InitialWorkspace)
  {
    var ids := seq(|InitialWorkspace|, i requires 0 <= i < |InitialWorkspace| => InitialWorkspace[i].id);
    assert ids == ["group-research", "tab-edge", "tab-cef", "group-project", "file-readme", "tab-shadcn"];
  }

  /** A well-formed state the host saved is the one the next start restores, whatever the local copy holds. */
  lemma HostSaveIsRestored(state: UiSessionState, hostText: string, localText: Option<string>, parseJson: JsonParser)
    requires WellFormed(state)
    requires hostText != "" && parseJson(hostText) == Some(Serialize(state))
    ensures LoadInitialSessionState(Some(hostText), localText, parseJson) == state
  {
    SerializeRoundTrip(state);
  }

  /** When the host holds nothing usable, a well-formed state saved locally is restored. */
  lemma LocalSaveIsRestored(state: UiSessionState, hostText: Option<string>, localText: string, parseJson: JsonParser)
    requires WellFormed(state)
    requires StoredSession(hostText, parseJson).None?
    requires localText != "" && parseJson(localText) == Some(Serialize(state))
    ensures LoadInitialSessionState(hostText, Some(localText), parseJson) == state
  {
    SerializeRoundTrip(state);
  }

  // ---------------------------------------------------------------------------
  // The shortcut map

  /** The strings of `entries` that `blank` rejects, in order. */
  function StringsNotBlank(entries: seq<Json>, blank: string -> bool): (r: seq<string>)
    ensures forall s :: s in r <==> JString(s) in entries && !blank(s)
  {
    if entries == [] then []
    else
      var last := entries[|entries| - 1];
      var kept := StringsNotBlank(entries[..|entries| - 1], blank);
      assert entries == entries[..|entries| - 1] + [last];
      if last.JString? && !blank(last.s) then kept + [last.s] else kept
  }

  /** Strings none of which is blank pass the filter unchanged. */
  lemma {:induction false} StringsNotBlankOfStrings(bindings: seq<string>, blank: string -> bool)
    requires forall i :: 0 <= i < |bindings| ==> !blank(bindings[i])
    ensures StringsNotBlank(StringsJson(bindings), blank) == bindings
  {
    if bindings != [] {
      var n := |bindings| - 1;
      assert StringsJson(bindings)[..n] == StringsJson(bindings[..n]);
      StringsNotBlankOfStrings(bindings[..n], blank);
      assert bindings[..n] + [bindings[n]] == bindings;
    }
  }

  /** `entry.trim().length === 0`. */
  function BlankTest(): string -> bool {
    s => JsBlank(s)
  }

  /** `candidate.filter((entry) => typeof entry === "string" && entry.trim().length > 0)`. */
  function NonBlankEntries(entries: seq<Json>): (r: seq<string>)
    ensures forall s :: s in r <==> JString(s) in entries && !JsBlank(s)
  {
    StringsNotBlank(entries, BlankTest())
  }

  /** Non-blank strings pass the filter unchanged. */
  lemma NonBlankEntriesOfStrings(bindings: seq<string>)
    requires forall i :: 0 <= i < |bindings| ==> !JsBlank(bindings[i])
    ensures NonBlankEntries(StringsJson(bindings)) == bindings
  {
    StringsNotBlankOfStrings(bindings, BlankTest());
  }

  /** The stored bindings of one command: the non-blank strings of an array, when there is at least one. */
  function StoredBindings(candidate: Option<Json>): (r: Option<seq<string>>)
    ensures r.Some? <==> candidate.Some? && candidate.value.JArray? && NonBlankEntries(candidate.value.elems) != []
    ensures r.Some? ==> r.value == NonBlankEntries(candidate.value.elems)
  {
    if candidate.Some? && candidate.value.JArray? && NonBlankEntries(candidate.value.elems) != [] then
      Some(NonBlankEntries(candidate.value.elems))
    else None
  }

  /** The stored bindings of each command, read from a parsed value by `candidateOf`. */
  function StoredOf(candidateOf: CommandId -> Option<Json>): CommandId -> Option<seq<string>> {
    id => StoredBindings(candidateOf(id))
  }

  /** `defaults` with the stored bindings of each command of `ids` written over it, in order. */
  function Merged(defaults: ShortcutMap, ids: seq<CommandId>, stored: CommandId -> Option<seq<string>>): ShortcutMap {
    if ids == [] then defaults
    else
      var merged := Merged(defaults, ids[..|ids| - 1], stored);
      var id := ids[|ids| - 1];
      match stored(id)
      case Some(bindings) => merged[id := bindings]
      case None => merged
  }

  /**
   * Each command of `ids` gets its own stored bindings when it has some and
   * keeps its default otherwise; nothing else is added or changed.
   */
  lemma {:induction false} MergedLookup(defaults: ShortcutMap, ids: seq<CommandId>, stored: CommandId -> Option<seq<string>>, id: CommandId)
    requires forall k :: 0 <= k < |ids| ==> ids[k] in defaults
    ensures id in Merged(defaults, ids, stored) <==> id in defaults
    ensures id in defaults ==>
              Merged(defaults, ids, stored)[id] == (if id in ids && stored(id).Some? then stored(id).value else defaults[id])
  {
    if ids != [] {
      var n := |ids| - 1;
      MergedLookup(defaults, ids[..n], stored, id);
      assert id in ids <==> id in ids[..n] || id == ids[n] by {
        assert ids == ids[..n] + [ids[n]];
      }
    }
  }

  /** The `for (const definition of COMMAND_DEFINITIONS)` loop of `loadShortcutMap`. */
  method MergeStoredShortcuts(defaults: ShortcutMap, ids: seq<CommandId>, candidateOf: CommandId -> Option<Json>)
    returns (merged: ShortcutMap)
    ensures merged == Merged(defaults, ids, StoredOf(candidateOf))
  {
    merged := defaults;
    for k := 0 to |ids|
      invariant merged == Merged(defaults, ids[..k], StoredOf(candidateOf))
    {
      assert ids[..k + 1][..k] == ids[..k];
      var candidate := candidateOf(ids[k]);
      if candidate.Some? && candidate.value.JArray? {
        var normalized := NonBlankEntries(candidate.value.elems);
        if |normalized| > 0 {
          merged := merged[ids[k] := normalized];
        }
      }
    }
    assert ids[..|ids|] == ids;
  }

  /** The ids of `COMMAND_DEFINITIONS`, in order. */
  function DefinitionIds(): (ids: seq<CommandId>)
    ensures |ids| == |CommandDefinitions|
    ensures forall k :: 0 <= k < |ids| ==> ids[k] == CommandDefinitions[k].id
  {
    seq(|CommandDefinitions|, k requires 0 <= k < |CommandDefinitions| => CommandDefinitions[k].id)
  }

  /** `parsed[definition.id]` for a parsed value that is not `null`. */
  function CandidateOf(parsed: Json): CommandId -> Option<Json> {
    id => Field(parsed, IdName(id))
  }

  /**
   * The map `loadShortcutMap` returns: the defaults for an absent or empty
   * text, for one that is not JSON and for `null` (reading a field of it
   * throws); otherwise the defaults merged with the stored bindings.
   */
  function StoredShortcutMap(raw: Option<string>, parseJson: JsonParser): ShortcutMap {
    if raw.None? || raw.value == "" then DefaultShortcutMap()
    else
      match parseJson(raw.value)
      case None => DefaultShortcutMap()
      case Some(JNull) => DefaultShortcutMap()
      case Some(parsed) => Merged(DefaultShortcutMap(), DefinitionIds(), StoredOf(CandidateOf(parsed)))
  }

  /** `loadShortcutMap`. */
  method LoadShortcutMap(raw: Option<string>, parseJson: JsonParser) returns (r: ShortcutMap)
    ensures r == StoredShortcutMap(raw, parseJson)
  {
    var defaults := DefaultShortcutMap();
    if raw.None? || raw.value == "" {
      return defaults;
    }
    var parsed := parseJson(raw.value);
    if parsed.None? || parsed.value.JNull? {
      return defaults;
    }
    r := MergeStoredShortcuts(defaults, DefinitionIds(), CandidateOf(parsed.value));
  }

  /** Every command id is one of the definitions' ids. */
  lemma DefinitionIdsComplete(id: CommandId)
    ensures id in DefinitionIds() && id in DefaultShortcutMap()
  {
    var ids := DefinitionIds();
    assert ids[IndexOfCommand(id)] == id;
    DefaultShortcutMapEntries(id);
  }

  /** The bindings the stored value holds for `id`, if it holds some that survive the filter. */
  function StoredBindingsFor(raw: Option<string>, parseJson: JsonParser, id: CommandId): Option<seq<string>> {
    if raw.None? || raw.value == "" then None
    else
      match parseJson(raw.value)
      case None => None
      case Some(parsed) => StoredBindings(Field(parsed, IdName(id)))
  }

  /**
   * The loaded map has every command; a command takes the non-blank stored
   * strings under its id when at least one survives, and its default bindings
   * otherwise. Keys that are not command ids are never read.
   */
  lemma StoredShortcutMapLookup(raw: Option<string>, parseJson: JsonParser, id: CommandId)
    ensures id in StoredShortcutMap(raw, parseJson)
    ensures StoredShortcutMap(raw, parseJson)[id]
         == (if StoredBindingsFor(raw, parseJson, id).Some? then StoredBindingsFor(raw, parseJson, id).value
             else CommandDefinitions[IndexOfCommand(id)].defaultShortcuts)
  {
    DefaultShortcutMapEntries(id);
    if raw.Some? && raw.value != "" && parseJson(raw.value).Some? && !parseJson(raw.value).value.JNull? {
      ParsedShortcutMapLookup(parseJson(raw.value).value, id);
    }
  }

  /** The lookup of `StoredShortcutMapLookup` for a parsed value that is not `null`. */
  lemma ParsedShortcutMapLookup(parsed: Json, id: CommandId)
    ensures id in Merged(DefaultShortcutMap(), DefinitionIds(), StoredOf(CandidateOf(parsed)))
    ensures Merged(DefaultShortcutMap(), DefinitionIds(), StoredOf(CandidateOf(parsed)))[id]
         == (if StoredBindings(Field(parsed, IdName(id))).Some? then StoredBindings(Field(parsed, IdName(id))).value
             else CommandDefinitions[IndexOfCommand(id)].defaultShortcuts)
  {
    DefinitionIdsComplete(id);
    DefaultShortcutMapEntries(id);
    var ids := DefinitionIds();
    forall k | 0 <= k < |ids| ensures ids[k] in DefaultShortcutMap() {
      DefinitionIdsComplete(ids[k]);
    }
    MergedLookup(DefaultShortcutMap(), ids, StoredOf(CandidateOf(parsed)), id);
  }

  // ---------------------------------------------------------------------------
  // Writing the map back

  /** An array of JSON strings. */
  function StringsJson(bindings: seq<string>): (r: seq<Json>)
    ensures |r| == |bindings| && forall i :: 0 <= i < |r| ==> r[i] == JString(bindings[i])
  {
    seq(|bindings|, i requires 0 <= i < |bindings| => JString(bindings[i]))
  }

  /** The ids' names are pairwise different. */
  lemma IdNamesDistinct(a: CommandId, b: CommandId)
    requires a != b
    ensures IdName(a) != IdName(b)
  {
    match a
    case NewGroup => assert IdName(a)[10] == 'n' && IdName(a)[14] == 'g';
    case _ =>
  }

  /** The object `JSON.stringify(shortcutMap)` writes. */
  function ShortcutMapJson(m: ShortcutMap): Json {
    JObject(map id | id in m :: IdName(id) := JArray(StringsJson(m[id])))
  }

  /** The written object holds each command's bindings under its id. */
  lemma ShortcutMapJsonField(m: ShortcutMap, id: CommandId)
    requires id in m
    ensures IdName(id) in ShortcutMapJson(m).fields
    ensures ShortcutMapJson(m).fields[IdName(id)] == JArray(StringsJson(m[id]))
  {
    forall a: CommandId, b: CommandId | a != b ensures IdName(a) != IdName(b) {
      IdNamesDistinct(a, b);
    }
  }

  /** A map whose bindings are non-empty lists of non-blank strings. */
  predicate StorableShortcutMap(m: ShortcutMap) {
    forall id :: id in m ==> m[id] != [] && forall i :: 0 <= i < |m[id]| ==> !JsBlank(m[id][i])
  }

  /** One command's bindings, once written, are loaded back as they were. */
  lemma BindingsRoundTrip(m: ShortcutMap, raw: string, parseJson: JsonParser, id: CommandId)
    requires id in m && StorableShortcutMap(m)
    requires raw != "" && parseJson(raw) == Some(ShortcutMapJson(m))
    ensures id in StoredShortcutMap(Some(raw), parseJson) && StoredShortcutMap(Some(raw), parseJson)[id] == m[id]
  {
    StoredShortcutMapLookup(Some(raw), parseJson, id);
    ShortcutMapJsonField(m, id);
    NonBlankEntriesOfStrings(m[id]);
  }

  /** A complete map of non-blank bindings, once written, is loaded back as it was. */
  lemma ShortcutMapRoundTrip(m: ShortcutMap, raw: string, parseJson: JsonParser)
    requires forall id: CommandId :: id in m
    requires StorableShortcutMap(m)
    requires raw != "" && parseJson(raw) == Some(ShortcutMapJson(m))
    ensures StoredShortcutMap(Some(raw), parseJson) == m
  {
    var r := StoredShortcutMap(Some(raw), parseJson);
    forall id: CommandId ensures id in r && r[id] == m[id] {
      BindingsRoundTrip(m, raw, parseJson, id);
    }
    SameEntriesSameMap(r, m);
  }

  /** Two maps with the same keys and the same value at each key are equal. */
  lemma SameEntriesSameMap(r: ShortcutMap, m: ShortcutMap)
    requires forall id :: id in r <==> id in m
    requires forall id :: id in r ==> r[id] == m[id]
    ensures r == m
  {
  }
}
