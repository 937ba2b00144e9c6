/**
  The JSON values the application receives, JavaScript's truthiness and `Number()`
  conversion on them, and the host functions the model leaves uninterpreted.
 */
module Json {
  import opened Options

  datatype JsonValue =
    | JNull
    | JBool(b: bool)
    | JNumber(n: real)
    | JString(s: string)
    | JArray(items: seq<JsonValue>)
    | JObject(fields: map<string, JsonValue>)

  /** A JavaScript number as produced by `Number(...)`: finite, or NaN. */
  datatype Number = Finite(value: real) | NaN

  /** Library and engine functions whose exact behaviour is not modelled:
      `JSON.parse` (None when it throws; on text that starts with '{' it can only
      produce an object), `Number(string)`, `String(value)` and `JSON.stringify`. */
  datatype Host = Host(
    parseObject: string -> Option<map<string, JsonValue>>,
    stringToNumber: string -> Number,
    toText: JsonValue -> string,
    stringify: JsonValue -> string)

  /** Property access `o.key`; None stands for `undefined`. */
  function Field(o: map<string, JsonValue>, key: string): (r: Option<JsonValue>)
    ensures r.Some? <==> key in o
    ensures r.Some? ==> r.value == o[key]
  {
    if key in o then Some(o[key]) else None
  }

  /** JavaScript truthiness; `undefined`, null, false, 0 and "" are falsy. */
  predicate Truthy(v: Option<JsonValue>)
  {
    match v
    case None => false
    case Some(JNull) => false
    case Some(JBool(b)) => b
    case Some(JNumber(x)) => x != 0.0
    case Some(JString(s)) => |s| > 0
    case Some(JArray(_)) => true
    case Some(JObject(_)) => true
  }

  /** `Number(v)`: an array converts through its text, a plain object is NaN. */
  function ToNumber(v: JsonValue, host: Host): Number
  {
    match v
    case JNull => Finite(0.0)
    case JBool(b) => Finite(if b then 1.0 else 0.0)
    case JNumber(x) => Finite(x)
    case JString(s) => host.stringToNumber(s)
    case JArray(_) => host.stringToNumber(host.toText(v))
    case JObject(_) => NaN
  }
}
