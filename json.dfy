/**
 * The generic document tree the sorter works on (serde_json's `Value`) and its
 * minified text form (`Value::to_string`).
 *
 * A number keeps the literal text it was written with. The serialiser writes a
 * string as its content between double quotes without escaping anything, and it
 * writes an object's members in the order the tree holds them.
 */
module Json {

  /** One node of a parsed document. */
  datatype JValue =
    | JNull
    | JBool(b: bool)
    | JNumber(text: string)
    | JString(s: string)
    | JArray(elems: seq<JValue>)
    | JObject(entries: seq<Entry>)

  /** One key/value member of an object. */
  datatype Entry = Entry(key: string, value: JValue)

  /** A string literal: the content between double quotes. */
  function Quoted(s: string): string
  {
    "\"" + s + "\""
  }

  /** Minified JSON text: no whitespace, elements and members separated by commas. */
  function ToJson(v: JValue): string
  {
    match v
    case JNull => "null"
    case JBool(b) => if b then "true" else "false"
    case JNumber(t) => t
    case JString(s) => Quoted(s)
    case JArray(es) => "[" + JoinValues(es) + "]"
    case JObject(ps) => "{" + JoinEntries(ps) + "}"
  }

  /** The elements of an array, serialised and separated by commas. */
  function JoinValues(es: seq<JValue>): (r: string)
    ensures |r| >= |es| - 1
  {
    if es == [] then ""
    else if |es| == 1 then ToJson(es[0])
    else ToJson(es[0]) + "," + JoinValues(es[1..])
  }

  /** The members of an object as `"key":value`, separated by commas. */
  function JoinEntries(ps: seq<Entry>): (r: string)
    ensures ps != [] ==> |r| >= 4 * |ps| - 1 && r[0] == '"'
  {
    if ps == [] then ""
    else
      var first := Quoted(ps[0].key) + ":" + ToJson(ps[0].value);
      if |ps| == 1 then first else first + "," + JoinEntries(ps[1..])
  }
}
