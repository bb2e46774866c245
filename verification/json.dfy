/**
  Parsed JSON values, as Python's `json.loads` hands them over, and the record
  access helpers (`dict.get`, truthiness) the pipeline uses on them.
 */
module Json {

  /** A JSON value. An object keeps its members in document order, as a Python dict does. */
  datatype Json =
    | JNull
    | JBool(b: bool)
    | JInt(i: int)
    | JReal(r: real)
    | JStr(s: string)
    | JArr(items: seq<Json>)
    | JObj(fields: seq<(string, Json)>)

  /** A record of the content list or of the merged output: a JSON object viewed as a dict. */
  type Record = map<string, Json>

  /** Python's `record.get(key)`: an absent key and an explicit `null` both read as `None`. */
  function Get(r: Record, key: string): Json {
    if key in r then r[key] else JNull
  }

  /** Python truthiness of a JSON value. */
  predicate Truthy(j: Json) {
    match j
    case JNull => false
    case JBool(b) => b
    case JInt(i) => i != 0
    case JReal(x) => x != 0.0
    case JStr(s) => |s| > 0
    case JArr(xs) => |xs| > 0
    case JObj(fs) => |fs| > 0
  }

  /** A value Python can use as a dict key or set element (lists and dicts raise `TypeError`). */
  predicate Hashable(j: Json) {
    !j.JArr? && !j.JObj?
  }

  /**
    The value Python compares and hashes a scalar as: `True == 1` and `1.0 == 1`, so
    booleans and integral floats are keyed as the integer they equal.
   */
  function PyKey(j: Json): (k: Json)
    ensures Hashable(j) ==> Hashable(k)
    ensures !k.JBool?
  {
    match j
    case JBool(b) => JInt(if b then 1 else 0)
    case JReal(x) => if x == x.Floor as real then JInt(x.Floor) else j
    case _ => j
  }

  /** Python's `a == b` when `a` is a scalar: a list or dict never equals a scalar. */
  predicate PyEq(a: Json, b: Json)
    requires Hashable(a)
  {
    Hashable(b) && PyKey(a) == PyKey(b)
  }

  predicate IsStrList(j: Json) {
    j.JArr? && forall k | 0 <= k < |j.items| :: j.items[k].JStr?
  }

  /** A caption field as the source accepts it: absent, a string, or a list of strings. */
  predicate CaptionShaped(j: Json) {
    j.JNull? || j.JStr? || IsStrList(j)
  }
}
