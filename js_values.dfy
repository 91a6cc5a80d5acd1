/**
 * Plain JavaScript values as the API client handles them: parsed response
 * bodies, error details and group references. Numbers are integers.
 */
module JsValues {
  import opened Strings

  datatype Json =
    | JUndefined
    | JNull
    | JBool(b: bool)
    | JNumber(n: int)
    | JString(s: string)
    | JArray(items: seq<Json>)
    | JObject(fields: map<string, Json>)

  /** `undefined` or `null`, what `??` and `?.` test for. */
  predicate IsNullish(v: Json) {
    v.JUndefined? || v.JNull?
  }

  /** `typeof v === 'object' && v !== null`. */
  predicate IsObject(v: Json) {
    v.JArray? || v.JObject?
  }

  /** JavaScript truthiness: `!!v`. */
  predicate Truthy(v: Json) {
    match v
    case JUndefined => false
    case JNull => false
    case JBool(b) => b
    case JNumber(n) => n != 0
    case JString(s) => s != ""
    case JArray(_) => true
    case JObject(_) => true
  }

  /**
   * `v?.[k]` for a record key: `undefined` when `v` is nullish, when it is
   * a primitive or an array (none of the keys asked for here is an index
   * or inherited), and when the record lacks the key.
   */
  function Member(v: Json, k: string): (r: Json)
    ensures v.JObject? && k in v.fields ==> r == v.fields[k]
    ensures !(v.JObject? && k in v.fields) ==> r == JUndefined
  {
    if v.JObject? && k in v.fields then v.fields[k] else JUndefined
  }

  /** `a ?? b`. */
  function Coalesce(a: Json, b: Json): (r: Json)
    ensures IsNullish(a) ==> r == b
    ensures !IsNullish(a) ==> r == a
  {
    if IsNullish(a) then b else a
  }

  /** The parts joined by commas, as `Array.prototype.join` does. */
  function JoinComma(parts: seq<string>): (r: string)
    ensures |parts| == 1 ==> r == parts[0]
  {
    if |parts| == 0 then ""
    else if |parts| == 1 then parts[0]
    else parts[0] + "," + JoinComma(parts[1..])
  }

  /**
   * What a template literal `${v}` prints: the string itself, the decimal
   * spelling of a number, `[object Object]` for a record, and for an array
   * its elements joined by commas, nullish elements as empty text.
   */
  function TemplateString(v: Json): string
    decreases v
  {
    match v
    case JUndefined => "undefined"
    case JNull => "null"
    case JBool(b) => if b then "true" else "false"
    case JNumber(n) => IntToString(n)
    case JString(s) => s
    case JObject(_) => "[object Object]"
    case JArray(items) =>
      JoinComma(seq(|items|, i requires 0 <= i < |items| =>
        if IsNullish(items[i]) then "" else TemplateString(items[i])))
  }
}
