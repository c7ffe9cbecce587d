/**
 * Decoded JSON as the script sees it: the vendor's response and its log entries
 * are untyped Python values built by `json.loads`.
 */
module JsonValues {
  import opened Wrappers

  /** A JSON value. Numbers are integers; Python dicts are maps from keys to values. */
  datatype Json =
    | JNull
    | JBool(b: bool)
    | JNum(n: int)
    | JStr(s: string)
    | JArr(items: seq<Json>)
    | JObj(members: map<string, Json>)

  /** Python truthiness of a decoded JSON value (`if path:`). */
  predicate Truthy(j: Json) {
    match j
    case JNull => false
    case JBool(b) => b
    case JNum(n) => n != 0
    case JStr(s) => s != ""
    case JArr(items) => items != []
    case JObj(m) => m != map[]
  }

  /** `d.get(key)`: the member, or `None` (which behaves as JSON null). */
  function Get(m: map<string, Json>, key: string): (r: Json)
    ensures key !in m ==> r == JNull
  {
    if key in m then m[key] else JNull
  }

  /** `d.get(key, {})`: the member, or an empty mapping. */
  function GetOrEmpty(m: map<string, Json>, key: string): (r: Json)
    ensures key !in m ==> r == JObj(map[])
  {
    if key in m then m[key] else JObj(map[])
  }
}
