/**
 * An already-parsed JSON value, the input of every decoder in the model
 * (JSON text parsing itself, `JSON.parse` and `serde_json`, is not modelled).
 */
module Json {
  import opened Wrappers

  /**
   * Numbers keep the distinction serde_json makes between a number written as
   * an integer (`JInt`) and one written with a fraction or exponent (`JFloat`);
   * JavaScript sees both simply as numbers. Duplicate object keys are assumed
   * already resolved by the parser, so an object is a map.
   */
  datatype Json =
    | JNull
    | JBool(b: bool)
    | JInt(i: int)
    | JFloat(r: real)
    | JString(s: string)
    | JArray(elems: seq<Json>)
    | JObject(fields: map<string, Json>)

  /** JavaScript `value !== null && typeof value === "object"`: objects and arrays. */
  predicate IsRecord(v: Json) {
    v.JObject? || v.JArray?
  }

  /** JavaScript property read `value[key]` on a record; `None` is `undefined`. */
  function Field(v: Json, key: string): (r: Option<Json>)
    ensures r.Some? <==> v.JObject? && key in v.fields
    ensures r.Some? ==> r.value == v.fields[key]
  {
    if v.JObject? && key in v.fields then Some(v.fields[key]) else None
  }

  /** JavaScript `typeof value === "number"`. */
  predicate IsNumber(v: Json) {
    v.JInt? || v.JFloat?
  }

  /** The numeric value JavaScript sees. */
  function NumberValue(v: Json): real
    requires IsNumber(v)
  {
    if v.JInt? then v.i as real else v.r
  }

  /** JavaScript `Math.trunc`: rounds toward zero. */
  function Trunc(x: real): (n: int)
    ensures x >= 0.0 ==> n as real <= x < n as real + 1.0
    ensures x < 0.0 ==> n as real - 1.0 < x <= n as real
  {
    if x >= 0.0 then x.Floor else -((-x).Floor)
  }

  /** JavaScript `Boolean(value)`, where `None` is `undefined`. */
  predicate Truthy(v: Option<Json>) {
    match v
    case None => false
    case Some(JNull) => false
    case Some(JBool(b)) => b
    case Some(JInt(i)) => i != 0
    case Some(JFloat(r)) => r != 0.0
    case Some(JString(s)) => s != []
    case Some(JArray(_)) => true
    case Some(JObject(_)) => true
  }

  /** JavaScript `typeof value === "string"`, and the string. */
  function AsString(v: Option<Json>): (r: Option<string>)
    ensures r.Some? <==> v.Some? && v.value.JString?
    ensures r.Some? ==> r.value == v.value.s
  {
    if v.Some? && v.value.JString? then Some(v.value.s) else None
  }
}
