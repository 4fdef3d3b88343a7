/** The parsed-JSON values the system inspects, with the Python semantics of
    the few operations applied to them: truthiness, `key in value`, `dict.get`
    and hashing as a dictionary key.

    `json.loads` itself is not modelled: every operation that parses text takes
    a `Parser` argument, a total function from text to an optional value. */
module Json {
  import opened Wrappers
  import Seqs

  /** A value produced by `json.loads`. JSON numbers are modelled as integers. */
  datatype Json =
    | JNull
    | JBool(b: bool)
    | JNum(n: int)
    | JStr(s: string)
    | JArr(items: seq<Json>)
    | JObj(fields: map<string, Json>)

  /** `json.loads`: `None` stands for a raised `JSONDecodeError`. */
  type Parser = string -> Option<Json>

  /** Python's `bool(v)`. */
  predicate Truthy(v: Json) {
    match v
    case JNull => false
    case JBool(b) => b
    case JNum(n) => n != 0
    case JStr(s) => |s| > 0
    case JArr(items) => |items| > 0
    case JObj(fields) => |fields| > 0
  }

  /** Python's `k in v` for a string `k`: key test on a dict, element test on a
      list, substring test on a str; `None` stands for the `TypeError` raised
      for every other value. */
  function PyIn(k: string, v: Json): (r: Option<bool>)
    ensures v.JObj? ==> r == Some(k in v.fields)
    ensures (v.JNull? || v.JBool? || v.JNum?) <==> r.None?
  {
    match v
    case JObj(fields) => Some(k in fields)
    case JArr(items) => Some(JStr(k) in items)
    case JStr(s) => Some(Seqs.Contains(s, k))
    case _ => None
  }

  /** Python's `d.get(k)` on a dict `d`: the value, or `None` (as `JNull`). */
  function Get(fields: map<string, Json>, k: string): Json {
    if k in fields then fields[k] else JNull
  }

  /** A hashable Python value used as a dictionary key. `True`/`False` hash and
      compare equal to `1`/`0`, so they share the integer keys. */
  datatype Key = KNone | KInt(i: int) | KStr(s: string)

  /** The dictionary key for a JSON value; lists and dicts are unhashable (`TypeError`). */
  function KeyOf(v: Json): (r: Option<Key>)
    ensures r.None? <==> (v.JArr? || v.JObj?)
  {
    match v
    case JNull => Some(KNone)
    case JBool(b) => Some(KInt(if b then 1 else 0))
    case JNum(n) => Some(KInt(n))
    case JStr(s) => Some(KStr(s))
    case _ => None
  }
}
