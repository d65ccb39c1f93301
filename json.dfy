/**
 * JSON values as the request handlers see them once decoded into Python objects, and
 * the three Python operations the handlers apply to them: truthiness (`not v`), the
 * membership test `key in v` and the subscript `v[key]`.
 */
module Json {
  import opened Wrappers
  import opened Text

  /** A decoded JSON document: `None`, a bool, a number, a str, a list or a dict. */
  datatype Json =
    | JNull
    | JBool(b: bool)
    | JNum(n: real)
    | JStr(s: string)
    | JArr(items: seq<Json>)
    | JObj(fields: map<string, Json>)

  /** Python truthiness: `None`, `False`, zero and empty containers are false, everything else true. */
  predicate Truthy(v: Json)
  {
    match v
    case JNull => false
    case JBool(b) => b
    case JNum(n) => n != 0.0
    case JStr(s) => s != []
    case JArr(items) => items != []
    case JObj(fields) => fields != map[]
  }

  /**
   * `key in v`: a dict tests its keys, a list its elements, a str its substrings. On
   * `None`, a bool or a number Python raises `TypeError`, shown here as `None`.
   */
  function Member(v: Json, key: string): (r: Option<bool>)
    ensures r.None? <==> v.JNull? || v.JBool? || v.JNum?
    ensures v.JObj? ==> r == Some(key in v.fields)
  {
    match v
    case JObj(fields) => Some(key in fields)
    case JArr(items) => Some(JStr(key) in items)
    case JStr(s) => Some(Contains(s, key))
    case _ => None
  }

  /**
   * `v[key]` with a str key: only a dict that holds the key answers; any other value
   * raises (`KeyError`, or `TypeError` for a list or a str), shown here as `None`.
   */
  function Subscript(v: Json, key: string): (r: Option<Json>)
    ensures r.Some? <==> v.JObj? && key in v.fields
    ensures r.Some? ==> r.value == v.fields[key]
  {
    match v
    case JObj(fields) => if key in fields then Some(fields[key]) else None
    case _ => None
  }

  /** The dict `{"error": message}` that the handlers send with a failure status. */
  function ErrorBody(message: string): (r: Json)
    ensures r.JObj? && r.fields.Keys == {"error"} && r.fields["error"] == JStr(message)
  {
    JObj(map["error" := JStr(message)])
  }

  /** A dict of str values as a JSON object. */
  function StrDict(m: map<string, string>): (r: Json)
    ensures r.JObj? && r.fields.Keys == m.Keys
    ensures forall k :: k in m ==> r.fields[k] == JStr(m[k])
  {
    JObj(map k | k in m :: JStr(m[k]))
  }
}
