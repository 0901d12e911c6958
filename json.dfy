/** A parsed JSON value as Python's `json.load` hands it over, with the
    Python idioms the server and the lint script apply to it. */
module JsonValue {

  /** Integers and floats are both `JNum`; objects are dictionaries. */
  datatype Json =
    | JNull
    | JBool(b: bool)
    | JNum(n: real)
    | JStr(s: string)
    | JArr(items: seq<Json>)
    | JObj(fields: map<string, Json>)

  /** Python's `d.get(key, default)`. */
  function Get(d: map<string, Json>, key: string, default: Json): Json {
    if key in d then d[key] else default
  }

  /** Python's truth value of a JSON value. */
  predicate Truthy(v: Json) {
    match v
    case JNull => false
    case JBool(b) => b
    case JNum(n) => n != 0.0
    case JStr(s) => s != []
    case JArr(a) => a != []
    case JObj(m) => m != map[]
  }

  /** `str(v or "")` for the values it is applied to: a string gives
      itself, a false value gives "", `true` gives "True". Other values
      (non-zero numbers, non-empty lists and objects) are rendered by
      Python's `str()`, which is not part of this model: they give "". */
  function TextOf(v: Json): string {
    if !Truthy(v) then ""
    else match v
      case JStr(s) => s
      case JBool(_) => "True"
      case _ => ""
  }

  /** `_safe_float(v, default)`: `float(v)`, or `default` when that raises.
      `float()` of a string is not part of this model: strings give
      `default`. */
  function SafeFloat(v: Json, default: real): real {
    match v
    case JNum(n) => n
    case JBool(b) => if b then 1.0 else 0.0
    case _ => default
  }

  /** Python's `isinstance(v, (int, float))`; `bool` is a subclass of
      `int`, so `true` and `false` are numbers. */
  predicate IsNumber(v: Json) {
    v.JNum? || v.JBool?
  }
}
