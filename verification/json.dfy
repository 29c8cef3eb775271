/** Parsed JSON values as the server sees them after `express.json()`, with JavaScript truthiness. */
module Json {
  import opened Wrappers

  /** A JSON value. Numbers are exact reals; the infinities that parsing yields for over-large
      numerals are not modelled. */
  datatype Value =
    | JNull
    | JBool(b: bool)
    | JNum(n: real)
    | JStr(s: string)
    | JArr(items: seq<Value>)
    | JObj(fields: map<string, Value>)

  /** A JSON object's members, keyed by property name. */
  type Object = map<string, Value>

  /** JavaScript truthiness: null, false, 0 and the empty string are falsy; every array and object is truthy. */
  predicate Truthy(v: Value)
  {
    match v
    case JNull => false
    case JBool(b) => b
    case JNum(n) => n != 0.0
    case JStr(s) => s != ""
    case JArr(_) => true
    case JObj(_) => true
  }

  /** Truthiness of `o[key]`, where an absent member reads as `undefined` and is falsy. */
  predicate TruthyMember(o: Object, key: string)
  {
    key in o && Truthy(o[key])
  }

  /** `o[key]` as an optional value. */
  function Member(o: Object, key: string): Option<Value>
  {
    if key in o then Some(o[key]) else None
  }
}
