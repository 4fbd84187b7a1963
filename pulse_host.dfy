/**
 * The validator for the `pulse:tab-runtime-updated` event that the native shell sends
 * when a tab's url or title changes.
 */
module PulseHost {
  import opened Wrappers
  import opened Strings
  import opened Json
  import opened Workspace

  /** `PulseTabRuntimeEventDetail`: the tab id, and the url and title when the event carried them. */
  datatype TabRuntimeDetail = TabRuntimeDetail(tabId: string, url: Option<string>, title: Option<string>)

  /** A field that is a string which is not blank after trimming, kept as it is. */
  function NonBlankString(v: Option<Json>): (r: Option<string>)
    ensures r.Some? <==> AsString(v).Some? && !JsBlank(AsString(v).value)
    ensures r.Some? ==> r.value == AsString(v).value
  {
    match AsString(v)
    case None => None
    case Some(s) => if JsBlank(s) then None else Some(s)
  }

  /**
   * `parsePulseTabRuntimeEventDetail`: `None` for a falsy value, a non-object
   * or a missing or blank `tabId`; otherwise the untrimmed `tabId`, and `url`
   * and `title` only when they are non-blank strings, also untrimmed.
   */
  function ParsePulseTabRuntimeEventDetail(value: Option<Json>): (r: Option<TabRuntimeDetail>)
    ensures !Truthy(value) ==> r.None?
    ensures value.Some? && !IsRecord(value.value) ==> r.None?
    ensures r.Some? <==> value.Some? && IsRecord(value.value) && NonBlankString(Field(value.value, "tabId")).Some?
    ensures r.Some? ==>
              && r.value.tabId == AsString(Field(value.value, "tabId")).value
              && !JsBlank(r.value.tabId)
              && r.value.url == NonBlankString(Field(value.value, "url"))
              && r.value.title == NonBlankString(Field(value.value, "title"))
  {
    if !Truthy(value) || !IsRecord(value.value) then None
    else
      match NonBlankString(Field(value.value, "tabId"))
      case None => None
      case Some(tabId) =>
        Some(TabRuntimeDetail(tabId, NonBlankString(Field(value.value, "url")), NonBlankString(Field(value.value, "title"))))
  }

  /** A JSON string for a present value and `null` for an absent one, as `serde_json` writes an `Option`. */
  function OptionalJson(s: Option<string>): Json {
    if s.Some? then JString(s.value) else JNull
  }

  /** The event detail the shell writes: all three fields, an absent url or title as `null`. */
  function DetailJson(detail: TabRuntimeDetail): map<string, Json> {
    map["tabId" := JString(detail.tabId), "url" := OptionalJson(detail.url), "title" := OptionalJson(detail.title)]
  }

  /** A detail whose present fields are all non-blank. */
  predicate WellFormedDetail(detail: TabRuntimeDetail) {
    !JsBlank(detail.tabId)
    && (detail.url.Some? ==> !JsBlank(detail.url.value))
    && (detail.title.Some? ==> !JsBlank(detail.title.value))
  }

  /** Every well-formed detail is read back from its event unchanged. */
  lemma DetailRoundTrip(detail: TabRuntimeDetail)
    requires WellFormedDetail(detail)
    ensures ParsePulseTabRuntimeEventDetail(Some(JObject(DetailJson(detail)))) == Some(detail)
  {
    var v := JObject(DetailJson(detail));
    DetailJsonFields(detail);
    OptionalFieldRead(detail.url, Field(v, "url"));
    OptionalFieldRead(detail.title, Field(v, "title"));
    assert NonBlankString(Field(v, "tabId")) == Some(detail.tabId);
  }

  /** The event value holds `tabId`, and `url` and `title` as strings when present and `null` otherwise. */
  lemma DetailJsonFields(detail: TabRuntimeDetail)
    ensures var v := JObject(DetailJson(detail));
            && Field(v, "tabId") == Some(JString(detail.tabId))
            && Field(v, "url") == Some(if detail.url.Some? then JString(detail.url.value) else JNull)
            && Field(v, "title") == Some(if detail.title.Some? then JString(detail.title.value) else JNull)
  {
    assert "tabId" != "url" && "tabId" != "title" && "url" != "title";
  }

  /** An optional non-blank string, written as a string or as `null`, is read back. */
  lemma OptionalFieldRead(s: Option<string>, field: Option<Json>)
    requires s.Some? ==> !JsBlank(s.value)
    requires field == Some(if s.Some? then JString(s.value) else JNull)
    ensures NonBlankString(field) == s
  {
  }

  /** Fields other than `tabId`, `url` and `title` are not read. */
  lemma OtherFieldsIgnored(fields: map<string, Json>, key: string, v: Json)
    requires key != "tabId" && key != "url" && key != "title"
    ensures ParsePulseTabRuntimeEventDetail(Some(JObject(fields[key := v])))
         == ParsePulseTabRuntimeEventDetail(Some(JObject(fields)))
  {
    assert Field(JObject(fields[key := v]), "tabId") == Field(JObject(fields), "tabId");
    assert Field(JObject(fields[key := v]), "url") == Field(JObject(fields), "url");
    assert Field(JObject(fields[key := v]), "title") == Field(JObject(fields), "title");
  }

  /**
   * The tab id is not trimmed, while stored item ids are: an event whose tab id
   * has surrounding whitespace updates no item of a restored workspace.
   */
  lemma UntrimmedTabIdUpdatesNothing(items: seq<Item>, detail: TabRuntimeDetail)
    requires forall i :: 0 <= i < |items| ==> JsTrim(items[i].id) == items[i].id
    requires JsTrim(detail.tabId) != detail.tabId
    ensures ApplyTabRuntimeUpdate(items, detail.tabId, detail.url, detail.title) == items
  {
    var r := ApplyTabRuntimeUpdate(items, detail.tabId, detail.url, detail.title);
    assert forall i :: 0 <= i < |items| ==> items[i].id != detail.tabId;
    assert forall i :: 0 <= i < |items| ==> r[i] == items[i];
  }
}
