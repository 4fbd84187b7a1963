/**
 * The UI session codec: the persisted envelope `{version, items,
 * selectedItemId, address}` is validated and repaired item by item when it is
 * read back, and written as a version-1 envelope. Decoding starts from an
 * already-parsed JSON value; `None` stands for text `JSON.parse` rejects.
 */
module SessionState {
  import opened Wrappers
  import opened Strings
  import opened Json
  import opened Url
  import opened Workspace

  /** The envelope version written by `serializeUiSessionState`. */
  const CurrentSessionVersion: int := 1

  /** The address used when no tab supplies one. */
  const DefaultAddress: string := "https://www.microsoft.com/edge"

  /** The state the UI restores: the workspace, the selected item and the address bar. */
  datatype UiSessionState = UiSessionState(items: seq<Item>, selectedItemId: string, address: string)

  // ---------------------------------------------------------------------------
  // Coercers

  /** A string that is its own trim and is not empty: what `asNonEmptyString` can return. */
  predicate IsCleanText(s: string) {
    s != [] && JsTrim(s) == s
  }

  /** `asNonEmptyString`: the trimmed string, unless the value is not a string or is blank. */
  function AsNonEmptyString(v: Option<Json>): (r: Option<string>)
    ensures r.Some? <==> v.Some? && v.value.JString? && !JsBlank(v.value.s)
    ensures r.Some? ==> r.value == JsTrim(v.value.s) && IsCleanText(r.value)
  {
    match AsString(v)
    case None => None
    case Some(s) =>
      var trimmed := JsTrim(s);
      TrimIdempotent(s, IsJsSpace);
      if |trimmed| == 0 then None else Some(trimmed)
  }

  /** A clean string is read back as itself. */
  lemma AsNonEmptyStringOfClean(s: string)
    requires IsCleanText(s)
    ensures AsNonEmptyString(Some(JString(s))) == Some(s)
  {
  }

  /** `asNullableString`: a string as it is (even blank), anything else `null`. */
  function AsNullableString(v: Option<Json>): (r: Option<string>)
    ensures r.Some? <==> v.Some? && v.value.JString?
    ensures r.Some? ==> r.value == v.value.s
  {
    AsString(v)
  }

  /**
   * `asInteger`: a number truncated toward zero, anything else `null`. Every
   * number a JSON value holds here is finite, so `Number.isFinite` always holds.
   */
  function AsInteger(v: Option<Json>): (r: Option<int>)
    ensures r.Some? <==> v.Some? && IsNumber(v.value)
    ensures v.Some? && v.value.JInt? ==> r == Some(v.value.i)
  {
    if v.Some? && IsNumber(v.value) then Some(Trunc(NumberValue(v.value))) else None
  }

  // ---------------------------------------------------------------------------
  // Items

  /** The `kind` tag of an item. */
  function KindName(item: Item): string {
    match item
    case Group(_, _, _, _, _) => "group"
    case BrowserTab(_, _, _, _, _) => "browser-tab"
    case FileRef(_, _, _, _, _) => "file-ref"
  }

  /**
   * `parseWorkspaceItem`: `id`, `kind` and `title` must be non-blank strings
   * (kept trimmed) and `order` a number (truncated); a non-string `parentId`
   * is `null`. A group's `collapsed` is the truthiness of the field, a tab needs
   * a non-blank `url` (stored normalised), a file reference a non-blank
   * `filePath` (kept trimmed); any other kind is rejected.
   */
  function ParseWorkspaceItem(value: Json): (r: Option<Item>)
    ensures r.Some? ==> CleanItem(r.value)
    ensures r.Some? ==> AsNonEmptyString(Field(value, "id")) == Some(r.value.id)
    ensures r.Some? ==> AsNonEmptyString(Field(value, "kind")) == Some(KindName(r.value))
    ensures r.Some? ==> r.value.parentId == AsNullableString(Field(value, "parentId"))
    ensures r.Some? ==> Some(r.value.order) == AsInteger(Field(value, "order"))
    ensures !IsRecord(value) ==> r.None?
  {
    if !IsRecord(value) then None
    else
      var id := AsNonEmptyString(Field(value, "id"));
      var kind := AsNonEmptyString(Field(value, "kind"));
      var title := AsNonEmptyString(Field(value, "title"));
      var parentId := AsNullableString(Field(value, "parentId"));
      var order := AsInteger(Field(value, "order"));
      if id.None? || kind.None? || title.None? || order.None? then None
      else if kind.value == "group" then
        Some(Group(id.value, parentId, order.value, title.value, Truthy(Field(value, "collapsed"))))
      else if kind.value == "browser-tab" then
        var rawUrl := AsNonEmptyString(Field(value, "url"));
        if rawUrl.None? then None
        else
          NormalizedUrlIsClean(rawUrl.value);
          Some(BrowserTab(id.value, parentId, order.value, title.value, NormalizeUrl(rawUrl.value)))
      else if kind.value == "file-ref" then
        var filePath := AsNonEmptyString(Field(value, "filePath"));
        if filePath.None? then None
        else Some(FileRef(id.value, parentId, order.value, title.value, filePath.value))
      else None
  }

  /** `parseWorkspaceItem` applied to every element. */
  function Parses(candidates: seq<Json>): (r: seq<Option<Item>>)
    ensures |r| == |candidates| && forall j :: 0 <= j < |candidates| ==> r[j] == ParseWorkspaceItem(candidates[j])
  {
    seq(|candidates|, j requires 0 <= j < |candidates| => ParseWorkspaceItem(candidates[j]))
  }

  /**
   * The items `parseWorkspaceItems` keeps from a list of parse outcomes: every
   * item, unless an item with its id was already kept.
   */
  function KeptItems(parses: seq<Option<Item>>): (r: seq<Item>)
    ensures DistinctIds(r)
    ensures |r| <= |parses|
    ensures forall x :: x in r ==> Some(x) in parses
  {
    if parses == [] then []
    else
      var kept := KeptItems(parses[..|parses| - 1]);
      match parses[|parses| - 1]
      case None => kept
      case Some(item) => if HasId(kept, item.id) then kept else kept + [item]
  }

  /** `parseWorkspaceItems`: an array with at least one usable element, else `null`. */
  function WorkspaceItemsOf(value: Option<Json>): (r: Option<seq<Item>>)
    ensures r.Some? ==> |r.value| > 0 && DistinctIds(r.value)
    ensures r.Some? ==> forall i :: 0 <= i < |r.value| ==> CleanItem(r.value[i])
    ensures !(value.Some? && value.value.JArray?) ==> r.None?
  {
    if value.Some? && value.value.JArray? && |KeptItems(Parses(value.value.elems))| > 0
    then
      var items := KeptItems(Parses(value.value.elems));
      assert forall i :: 0 <= i < |items| ==> CleanItem(items[i]) by {
        forall i | 0 <= i < |items| ensures CleanItem(items[i]) {
          assert Some(items[i]) in Parses(value.value.elems);
        }
      }
      Some(items)
    else None
  }

  /** `parseWorkspaceItems`: the loop over the array with the `seenIds` set. */
  method ParseWorkspaceItems(value: Option<Json>) returns (r: Option<seq<Item>>)
    ensures r == WorkspaceItemsOf(value)
  {
    if !(value.Some? && value.value.JArray?) {
      return None;
    }
    var candidates := value.value.elems;
    ghost var parses := Parses(candidates);
    var parsed: seq<Item> := [];
    var seenIds: set<string> := {};
    var index := 0;
    while index < |candidates|
      invariant 0 <= index <= |candidates|
      invariant parsed == KeptItems(parses[..index])
      invariant forall id :: id in seenIds <==> HasId(parsed, id)
    {
      var item := ParseWorkspaceItem(candidates[index]);
      KeptItemsStep(parses, index);
      parsed, seenIds := KeepFirst(parsed, seenIds, item);
      index := index + 1;
    }
    assert parses[..index] == parses;
    if |parsed| == 0 {
      return None;
    }
    return Some(parsed);
  }

  /** The body of the `parseWorkspaceItems` loop: keeps a parsed item whose id is not yet seen. */
  method KeepFirst(parsed: seq<Item>, seenIds: set<string>, item: Option<Item>)
    returns (nextParsed: seq<Item>, nextSeenIds: set<string>)
    requires forall id :: id in seenIds <==> HasId(parsed, id)
    ensures nextParsed == if item.Some? && !HasId(parsed, item.value.id) then parsed + [item.value] else parsed
    ensures forall id :: id in nextSeenIds <==> HasId(nextParsed, id)
  {
    nextParsed, nextSeenIds := parsed, seenIds;
    if item.Some? && item.value.id !in seenIds {
      HasIdAppend(parsed, item.value);
      nextSeenIds := seenIds + {item.value.id};
      nextParsed := parsed + [item.value];
    }
  }

  /** One more parse outcome: its item is kept unless its id already is. */
  lemma KeptItemsStep(parses: seq<Option<Item>>, n: nat)
    requires n < |parses|
    ensures var kept := KeptItems(parses[..n]);
            KeptItems(parses[..n + 1])
            == if parses[n].Some? && !HasId(kept, parses[n].value.id) then kept + [parses[n].value] else kept
  {
    assert parses[..n + 1][..n] == parses[..n];
  }

  /** The ids of a list with one more item. */
  lemma HasIdAppend(items: seq<Item>, x: Item)
    ensures forall id :: HasId(items + [x], id) <==> HasId(items, id) || x.id == id
  {
    forall id | HasId(items + [x], id) ensures HasId(items, id) || x.id == id {
      var i :| 0 <= i < |items| + 1 && (items + [x])[i].id == id;
      if i < |items| { assert items[i].id == id; }
    }
    forall id | HasId(items, id) ensures HasId(items + [x], id) {
      var i :| 0 <= i < |items| && items[i].id == id;
      assert (items + [x])[i].id == id;
    }
    assert (items + [x])[|items|] == x;
  }

  /** Element `j` is the first that parses to an item carrying `id`. */
  predicate FirstWithId(parses: seq<Option<Item>>, j: nat, id: string)
    requires j < |parses|
  {
    parses[j].Some? && parses[j].value.id == id
    && forall k :: 0 <= k < j && parses[k].Some? ==> parses[k].value.id != id
  }

  /**
   * First one wins: every kept item is the first parsed item carrying its id,
   * and every id some element parses to is kept.
   */
  lemma {:induction false} KeptItemsFirstWins(parses: seq<Option<Item>>)
    ensures forall x :: x in KeptItems(parses) ==>
              exists j :: 0 <= j < |parses| && FirstWithId(parses, j, x.id) && parses[j] == Some(x)
    ensures forall j :: 0 <= j < |parses| && parses[j].Some? ==> HasId(KeptItems(parses), parses[j].value.id)
  {
    if parses != [] {
      var n := |parses| - 1;
      var prefix := parses[..n];
      KeptItemsFirstWins(prefix);
      var kept := KeptItems(prefix);
      var r := KeptItems(parses);
      forall x | x in r
        ensures exists j :: 0 <= j < |parses| && FirstWithId(parses, j, x.id) && parses[j] == Some(x)
      {
        if x in kept {
          var j :| 0 <= j < |prefix| && FirstWithId(prefix, j, x.id) && prefix[j] == Some(x);
          assert FirstWithId(parses, j, x.id);
        } else {
          assert parses[n] == Some(x) && !HasId(kept, x.id);
          assert FirstWithId(parses, n, x.id);
        }
      }
      forall j | 0 <= j < |parses| && parses[j].Some? ensures HasId(r, parses[j].value.id) {
        var id := parses[j].value.id;
        if j < n {
          assert prefix[j] == parses[j];
          var i :| 0 <= i < |kept| && kept[i].id == id;
          assert r[i] == kept[i];
        } else if !HasId(kept, id) {
          assert r[|kept|].id == id;
        } else {
          var i :| 0 <= i < |kept| && kept[i].id == id;
          assert r[i] == kept[i];
        }
      }
    }
  }

  /** Items with distinct ids, all parsed, are kept as they are, in order. */
  lemma {:induction false} KeptItemsOfDistinct(items: seq<Item>)
    requires DistinctIds(items)
    ensures KeptItems(seq(|items|, j requires 0 <= j < |items| => Some(items[j]))) == items
  {
    if items != [] {
      var n := |items| - 1;
      var parses := seq(|items|, j requires 0 <= j < |items| => Some(items[j]));
      assert parses[..n] == seq(n, j requires 0 <= j < n => Some(items[..n][j]));
      KeptItemsOfDistinct(items[..n]);
      assert !HasId(items[..n], items[n].id);
      assert items == items[..n] + [items[n]];
    }
  }

  // ---------------------------------------------------------------------------
  // Selection and address repair

  /** Position of the first browser tab, or `|items|`. */
  function FirstTab(items: seq<Item>): (k: nat)
    ensures k <= |items|
    ensures k < |items| ==> items[k].BrowserTab?
    ensures forall i :: 0 <= i < k ==> !items[i].BrowserTab?
  {
    if items == [] then 0 else if items[0].BrowserTab? then 0 else 1 + FirstTab(items[1..])
  }

  /**
   * `pickSelectedItemId`: the candidate when it is a string naming an item,
   * else the first browser tab, else the first item.
   */
  function PickSelectedItemId(items: seq<Item>, candidate: Option<Json>): (r: string)
    requires |items| > 0
    ensures HasId(items, r)
    ensures AsString(candidate).Some? && HasId(items, AsString(candidate).value) ==> r == AsString(candidate).value
    ensures !(AsString(candidate).Some? && HasId(items, AsString(candidate).value)) ==>
              r == items[if FirstTab(items) < |items| then FirstTab(items) else 0].id
  {
    var c := AsString(candidate);
    if c.Some? && HasId(items, c.value) then c.value
    else if FirstTab(items) < |items| then items[FirstTab(items)].id
    else items[0].id
  }

  /** Position of the first browser tab carrying `id`, or `|items|`. */
  function FindTab(items: seq<Item>, id: string): (k: nat)
    ensures k <= |items|
    ensures k < |items| ==> items[k].BrowserTab? && items[k].id == id
    ensures forall i :: 0 <= i < k ==> !(items[i].BrowserTab? && items[i].id == id)
  {
    if items == [] then 0
    else if items[0].BrowserTab? && items[0].id == id then 0
    else 1 + FindTab(items[1..], id)
  }

  /** Every browser tab has a url that is not blank. */
  predicate TabUrlsNonBlank(items: seq<Item>) {
    forall i :: 0 <= i < |items| && items[i].BrowserTab? ==> !JsBlank(items[i].url)
  }

  /**
   * `pickAddress`: the candidate as it is when it is a non-blank string, else
   * the url of the selected tab, else that of the first tab, else the default.
   */
  function PickAddress(items: seq<Item>, selectedItemId: string, candidate: Option<Json>): (r: string)
    ensures AsString(candidate).Some? && !JsBlank(AsString(candidate).value) ==> r == AsString(candidate).value
    ensures !(AsString(candidate).Some? && !JsBlank(AsString(candidate).value)) ==>
              r == (if FindTab(items, selectedItemId) < |items| then items[FindTab(items, selectedItemId)].url
                    else if FirstTab(items) < |items| then items[FirstTab(items)].url
                    else DefaultAddress)
    ensures TabUrlsNonBlank(items) ==> !JsBlank(r)
  {
    var c := AsString(candidate);
    if c.Some? && !JsBlank(c.value) then c.value
    else if FindTab(items, selectedItemId) < |items| then items[FindTab(items, selectedItemId)].url
    else if FirstTab(items) < |items| then items[FirstTab(items)].url
    else
      DefaultAddressNotBlank();
      DefaultAddress
  }

  lemma DefaultAddressNotBlank()
    ensures !JsBlank(DefaultAddress)
  {
    assert !IsJsSpace(DefaultAddress[0]);
  }

  // ---------------------------------------------------------------------------
  // The envelope

  /**
   * `sanitizeUiSessionState`: a record whose `version` (0 when it is not a
   * number) is 0 or 1 and whose `items` keep at least one item; both versions
   * read the same three fields.
   */
  function Sanitize(raw: Json): (r: Option<UiSessionState>)
    ensures r.Some? ==> |r.value.items| > 0 && DistinctIds(r.value.items) && HasId(r.value.items, r.value.selectedItemId)
    ensures !IsRecord(raw) ==> r.None?
    ensures var version := Field(raw, "version");
            (version.Some? && IsNumber(version.value) && NumberValue(version.value) != 0.0
             && NumberValue(version.value) != 1.0) ==> r.None?
    ensures WorkspaceItemsOf(Field(raw, "items")).None? ==> r.None?
    ensures r.Some? ==> Some(r.value.items) == WorkspaceItemsOf(Field(raw, "items"))
    ensures var version := Field(raw, "version");
            (IsRecord(raw)
             && !(version.Some? && IsNumber(version.value) && NumberValue(version.value) != 0.0
                  && NumberValue(version.value) != 1.0)
             && WorkspaceItemsOf(Field(raw, "items")).Some?) ==> r.Some?
    ensures r.Some? ==>
              r.value.selectedItemId == PickSelectedItemId(r.value.items, Field(raw, "selectedItemId"))
              && r.value.address == PickAddress(r.value.items, r.value.selectedItemId, Field(raw, "address"))
  {
    if !IsRecord(raw) then None
    else
      var versionField := Field(raw, "version");
      var version := if versionField.Some? && IsNumber(versionField.value) then NumberValue(versionField.value) else 0.0;
      if version != 0.0 && version != CurrentSessionVersion as real then None
      else
        match WorkspaceItemsOf(Field(raw, "items"))
        case None => None
        case Some(items) =>
          var selectedItemId := PickSelectedItemId(items, Field(raw, "selectedItemId"));
          Some(UiSessionState(items, selectedItemId, PickAddress(items, selectedItemId, Field(raw, "address"))))
  }

  /** `parseUiSessionState`: `None` for text that is not JSON. */
  function ParseUiSessionState(parsed: Option<Json>): (r: Option<UiSessionState>)
    ensures parsed.None? ==> r.None?
    ensures parsed.Some? ==> r == Sanitize(parsed.value)
  {
    if parsed.None? then None else Sanitize(parsed.value)
  }

  /** The JSON object `JSON.stringify` writes for an item: its five common fields and the one of its kind. */
  function ItemJson(item: Item): (r: Json)
    ensures r.JObject?
    ensures Field(r, "id") == Some(JString(item.id))
    ensures Field(r, "kind") == Some(JString(KindName(item)))
    ensures Field(r, "title") == Some(JString(item.title))
    ensures Field(r, "parentId") == Some(if item.parentId.Some? then JString(item.parentId.value) else JNull)
    ensures Field(r, "order") == Some(JInt(item.order))
    ensures item.Group? ==> Field(r, "collapsed") == Some(JBool(item.collapsed))
    ensures item.BrowserTab? ==> Field(r, "url") == Some(JString(item.url))
    ensures item.FileRef? ==> Field(r, "filePath") == Some(JString(item.filePath))
  {
    var common := map[
      "id" := JString(item.id),
      "kind" := JString(KindName(item)),
      "title" := JString(item.title),
      "parentId" := (if item.parentId.Some? then JString(item.parentId.value) else JNull),
      "order" := JInt(item.order)];
    match item
    case Group(_, _, _, _, collapsed) => JObject(common["collapsed" := JBool(collapsed)])
    case BrowserTab(_, _, _, _, url) => JObject(common["url" := JString(url)])
    case FileRef(_, _, _, _, filePath) => JObject(common["filePath" := JString(filePath)])
  }

  /** `serializeUiSessionState`: the version-1 envelope. */
  function Serialize(state: UiSessionState): (r: Json)
    ensures r.JObject? && r.fields.Keys == {"version", "items", "selectedItemId", "address"}
    ensures r.fields["version"] == JInt(CurrentSessionVersion)
    ensures r.fields["items"].JArray? && |r.fields["items"].elems| == |state.items|
    ensures r.fields["selectedItemId"] == JString(state.selectedItemId)
    ensures r.fields["address"] == JString(state.address)
  {
    JObject(map[
      "version" := JInt(CurrentSessionVersion),
      "items" := JArray(ItemsJson(state.items)),
      "selectedItemId" := JString(state.selectedItemId),
      "address" := JString(state.address)])
  }

  /** An item the parser reads back as itself. */
  predicate CleanItem(item: Item) {
    IsCleanText(item.id) && IsCleanText(item.title)
    && match item
       case Group(_, _, _, _, _) => true
       case BrowserTab(_, _, _, _, url) => IsCleanText(url) && NormalizeUrl(url) == url
       case FileRef(_, _, _, _, filePath) => IsCleanText(filePath)
  }

  /**
   * A state the codec reproduces: distinct, clean items, at least one; a
   * selected id that exists; an address that is not blank.
   */
  predicate WellFormed(state: UiSessionState) {
    |state.items| > 0 && DistinctIds(state.items)
    && (forall i :: 0 <= i < |state.items| ==> CleanItem(state.items[i]))
    && HasId(state.items, state.selectedItemId)
    && !JsBlank(state.address)
  }

  /** The five fields every item writes are read back as they were. */
  lemma CommonFieldsRoundTrip(item: Item)
    requires CleanItem(item)
    ensures var v := ItemJson(item);
            IsRecord(v)
            && AsNonEmptyString(Field(v, "id")) == Some(item.id)
            && AsNonEmptyString(Field(v, "kind")) == Some(KindName(item))
            && AsNonEmptyString(Field(v, "title")) == Some(item.title)
            && AsNullableString(Field(v, "parentId")) == item.parentId
            && AsInteger(Field(v, "order")) == Some(item.order)
  {
    AsNonEmptyStringOfClean(item.id);
    AsNonEmptyStringOfClean(item.title);
    KindNameClean(item);
    AsNonEmptyStringOfClean(KindName(item));
  }

  /** The kind tags have no surrounding whitespace. */
  lemma KindNameClean(item: Item)
    ensures IsCleanText(KindName(item))
  {
    var k := KindName(item);
    assert !IsJsSpace(k[0]) && !IsJsSpace(k[|k| - 1]);
    TrimOfTrimmed(k, IsJsSpace);
  }

  /** A record whose fields read back as those of a clean item parses to that item. */
  lemma ParseFromFields(v: Json, item: Item)
    requires CleanItem(item) && IsRecord(v)
    requires AsNonEmptyString(Field(v, "id")) == Some(item.id)
    requires AsNonEmptyString(Field(v, "kind")) == Some(KindName(item))
    requires AsNonEmptyString(Field(v, "title")) == Some(item.title)
    requires AsNullableString(Field(v, "parentId")) == item.parentId
    requires AsInteger(Field(v, "order")) == Some(item.order)
    requires item.Group? ==> Truthy(Field(v, "collapsed")) == item.collapsed
    requires item.BrowserTab? ==> AsNonEmptyString(Field(v, "url")) == Some(item.url)
    requires item.FileRef? ==> AsNonEmptyString(Field(v, "filePath")) == Some(item.filePath)
    ensures ParseWorkspaceItem(v) == Some(item)
  {
  }

  /** A clean item survives writing and reading back. */
  lemma ItemRoundTrip(item: Item)
    requires CleanItem(item)
    ensures ParseWorkspaceItem(ItemJson(item)) == Some(item)
  {
    var v := ItemJson(item);
    CommonFieldsRoundTrip(item);
    if item.BrowserTab? {
      AsNonEmptyStringOfClean(item.url);
    } else if item.FileRef? {
      AsNonEmptyStringOfClean(item.filePath);
    }
    ParseFromFields(v, item);
  }

  /** The JSON array `JSON.stringify` writes for a list of items. */
  function ItemsJson(items: seq<Item>): (r: seq<Json>)
    ensures |r| == |items| && forall j :: 0 <= j < |items| ==> r[j] == ItemJson(items[j])
  {
    seq(|items|, j requires 0 <= j < |items| => ItemJson(items[j]))
  }

  /** A written list of distinct clean items is read back as it was. */
  lemma ItemsRoundTrip(items: seq<Item>)
    requires |items| > 0 && DistinctIds(items) && forall i :: 0 <= i < |items| ==> CleanItem(items[i])
    ensures WorkspaceItemsOf(Some(JArray(ItemsJson(items)))) == Some(items)
  {
    var elems := ItemsJson(items);
    forall j | 0 <= j < |elems| ensures ParseWorkspaceItem(elems[j]) == Some(items[j]) {
      ItemRoundTrip(items[j]);
    }
    assert Parses(elems) == seq(|items|, j requires 0 <= j < |items| => Some(items[j]));
    KeptItemsOfDistinct(items);
  }

  /** A version-1 record whose three fields read back as a well-formed state sanitises to that state. */
  lemma SanitizeFromFields(raw: Json, state: UiSessionState)
    requires WellFormed(state) && IsRecord(raw)
    requires Field(raw, "version") == Some(JInt(CurrentSessionVersion))
    requires WorkspaceItemsOf(Field(raw, "items")) == Some(state.items)
    requires Field(raw, "selectedItemId") == Some(JString(state.selectedItemId))
    requires Field(raw, "address") == Some(JString(state.address))
    ensures Sanitize(raw) == Some(state)
  {
  }

  /** Reading back the written envelope of a well-formed state gives the state. */
  lemma SerializeRoundTrip(state: UiSessionState)
    requires WellFormed(state)
    ensures ParseUiSessionState(Some(Serialize(state))) == Some(state)
  {
    var raw := Serialize(state);
    ItemsRoundTrip(state.items);
    SanitizeFromFields(raw, state);
  }

  /** Everything the codec reads back is well-formed, so it survives another round trip. */
  lemma SanitizeWellFormed(raw: Json)
    requires Sanitize(raw).Some?
    ensures WellFormed(Sanitize(raw).value)
  {
    var state := Sanitize(raw).value;
    forall i | 0 <= i < |state.items| && state.items[i].BrowserTab? ensures !JsBlank(state.items[i].url) {
      assert CleanItem(state.items[i]);
    }
  }

  /** `normalizeUrl` gives a clean text that it maps to itself. */
  lemma NormalizedUrlIsClean(raw: string)
    ensures IsCleanText(NormalizeUrl(raw)) && NormalizeUrl(NormalizeUrl(raw)) == NormalizeUrl(raw)
  {
    NormalizeUrlShape(raw);
    NormalizeUrlIdempotent(raw);
    TrimOfTrimmed(NormalizeUrl(raw), IsJsSpace);
  }

  // ---------------------------------------------------------------------------
  // The default state

  /** `defaultUiSessionState`: the seed workspace, its first tab selected and that tab's url as address. */
  function DefaultUiSessionState(): (r: UiSessionState) {
    var items := InitialWorkspace;
    var selectedItemId := PickSelectedItemId(items, None);
    UiSessionState(items, selectedItemId, PickAddress(items, selectedItemId, None))
  }

  /** The default state selects the Edge tab and shows its url. */
  lemma DefaultUiSessionStateValue()
    ensures DefaultUiSessionState() == UiSessionState(InitialWorkspace, "tab-edge", "https://www.microsoft.com/edge")
  {
    assert FirstTab(InitialWorkspace) == 1;
    assert FindTab(InitialWorkspace, "tab-edge") == 1;
  }
}
