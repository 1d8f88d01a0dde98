/** The parsed JSON values the worker handles (the result of `Response.json()`),
    and the three pieces of JavaScript semantics it applies to them: truthiness
    (`if (x)`), property access that yields `undefined` (`x?.name`, `x.name`)
    and nullish coalescing (`x ?? d`). */
module JsValue {

  import opened Wrappers

  /** A JSON number is a double in JavaScript; the model uses a real. */
  datatype Json =
    | JNull
    | JBool(b: bool)
    | JNumber(n: real)
    | JString(s: string)
    | JArray(items: seq<Json>)
    | JObject(fields: map<string, Json>)

  /** JavaScript's ToBoolean on a JSON value: `null`, `false`, `0` and `""` are
      falsy; every array and object, even an empty one, is truthy. */
  predicate Truthy(v: Json)
  {
    match v
    case JNull => false
    case JBool(b) => b
    case JNumber(n) => n != 0.0
    case JString(s) => s != ""
    case JArray(_) => true
    case JObject(_) => true
  }

  /** Truthiness of a value that may be `undefined` (`None`). */
  predicate TruthyOpt(v: Option<Json>)
  {
    v.Some? && Truthy(v.value)
  }

  /** `v.name` (and `v?.name`): the own property of a parsed object, and
      `undefined` (`None`) on any other value, `null` included. */
  function Property(v: Json, name: string): Option<Json>
  {
    match v
    case JObject(fields) => if name in fields then Some(fields[name]) else None
    case _ => None
  }

  /** `v ?? fallback`: the fallback exactly when `v` is `undefined` or `null`,
      so the result is nullish only when the fallback is. */
  function Coalesce(v: Option<Json>, fallback: Json): (r: Json)
    ensures r == JNull ==> fallback == JNull
  {
    match v
    case None => fallback
    case Some(JNull) => fallback
    case Some(x) => x
  }
}
