/**
 * The JSON values a request body carries, as Python sees them after decoding:
 * `null`, booleans, numbers (ints and floats alike, as reals), strings, lists and
 * objects; with the three Python builtins the processing route applies to them.
 */
module JsonValue {
  import opened Wrappers

  datatype Json =
    | JNull
    | JBool(b: bool)
    | JNum(n: real)
    | JStr(s: string)
    | JArr(items: seq<Json>)
    | JObj(fields: map<string, Json>)

  /** Python truthiness: `None`, `False`, zero and empty containers are false. */
  predicate Truthy(j: Json) {
    match j
    case JNull => false
    case JBool(b) => b
    case JNum(n) => n != 0.0
    case JStr(s) => s != []
    case JArr(items) => items != []
    case JObj(fields) => |fields| != 0
  }

  /** `len(j)`: defined on strings, lists and objects; `None` where Python raises `TypeError`. */
  function Len(j: Json): (n: Option<nat>)
    ensures n.Some? <==> j.JStr? || j.JArr? || j.JObj?
  {
    match j
    case JStr(s) => Some(|s|)
    case JArr(items) => Some(|items|)
    case JObj(fields) => Some(|fields|)
    case _ => None
  }

  /** `d.get(key, default)` on a decoded object. */
  function Get(fields: map<string, Json>, key: string, default: Json): Json {
    if key in fields then fields[key] else default
  }

  /**
   * `isinstance(v, (int, float)) and v > 0`. A JSON boolean decodes to a Python
   * `bool`, which is an `int`: `true` passes as 1 and `false` fails as 0.
   */
  predicate PositiveNumber(v: Json) {
    match v
    case JNum(n) => n > 0.0
    case JBool(b) => b
    case _ => false
  }

  /** The numeric value of a number or a boolean (`True == 1`, `False == 0`). */
  function NumberValue(v: Json): (r: real)
    requires v.JNum? || v.JBool?
    ensures PositiveNumber(v) <==> r > 0.0
  {
    match v
    case JNum(n) => n
    case JBool(b) => if b then 1.0 else 0.0
  }
}
