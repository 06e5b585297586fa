/** JavaScript values as the browser code sees them after JSON.parse, plus
    `undefined`, and JavaScript's truthiness. */
module Json {
  /** Numbers are integral here: the values this model exchanges are
      strings, arrays of strings and whole-second timestamps. */
  datatype JsValue =
    | JsUndefined
    | JsNull
    | JsBool(b: bool)
    | JsNumber(n: int)
    | JsString(s: string)
    | JsArray(items: seq<JsValue>)
    | JsObject(fields: map<string, JsValue>)

  /** What `if (v)` accepts: everything except undefined, null, false, 0 and
      the empty string. Arrays and objects are truthy even when empty. */
  predicate Truthy(v: JsValue) {
    match v
    case JsUndefined => false
    case JsNull => false
    case JsBool(b) => b
    case JsNumber(n) => n != 0
    case JsString(s) => s != ""
    case JsArray(_) => true
    case JsObject(_) => true
  }

  /** `obj[key]`: a missing property reads as undefined. */
  function Property(fields: map<string, JsValue>, key: string): JsValue {
    if key in fields then fields[key] else JsUndefined
  }

  /** `arr[i]`: an index past the end reads as undefined. */
  function Element(items: seq<JsValue>, i: nat): JsValue {
    if i < |items| then items[i] else JsUndefined
  }
}
