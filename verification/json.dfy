/** Parsed JSON, as `json.load` hands it to the scripts. Numbers are
    integers only: every number the registry carries is a count. */
module JsonValues {
  import opened Wrappers
  import opened Text

  datatype Json =
    | JNull
    | JBool(b: bool)
    | JNum(n: int)
    | JStr(s: string)
    | JArr(items: seq<Json>)
    | JObj(fields: map<string, Json>)

  /** Python's `value == n` for an integer `n`: `True == 1` and
      `False == 0` hold in Python, any other kind of value is unequal. */
  predicate EqualsInt(value: Json, n: int) {
    match value
    case JNum(m) => m == n
    case JBool(b) => (if b then 1 else 0) == n
    case _ => false
  }

  /** Python's `key in container`: a dict looks at its keys, a list at its
      elements, a string at its substrings; anything else raises
      TypeError, written None. */
  function Contains(container: Json, key: string): Option<bool> {
    match container
    case JObj(fields) => Some(key in fields)
    case JArr(items) => Some(JStr(key) in items)
    case JStr(s) => Some(IsSubstring(key, s))
    case _ => None
  }

  /** Python's truth value of a parsed document. */
  predicate Truthy(value: Json) {
    match value
    case JNull => false
    case JBool(b) => b
    case JNum(n) => n != 0
    case JStr(s) => s != ""
    case JArr(items) => items != []
    case JObj(fields) => fields != map[]
  }

  /** What a path in the working directory holds: a document `json.load`
      parses; UTF-8 text it refuses with `JSONDecodeError`; or bytes that
      are not UTF-8, on which reading the file as UTF-8 text raises
      `UnicodeDecodeError`, which is not a `JSONDecodeError`. */
  datatype FileContent = Parsed(doc: Json) | Unparsable | Undecodable

  /** The value Python's `==` and `hash` see in a JSON scalar: `True` is
      `1` and `False` is `0`; every other value stands for itself. */
  function EqualityKey(value: Json): Json {
    match value
    case JBool(b) => JNum(if b then 1 else 0)
    case _ => value
  }

  /** `EqualsInt` is Python's `==` against an integer. */
  lemma EqualsIntIsEqualityKey(value: Json, n: int)
    ensures EqualsInt(value, n) <==> EqualityKey(value) == JNum(n)
  {
  }

  /** The values a `for record in value` loop visits when each of them is
      then subscripted with a string key: a list yields its items; an
      empty dict or string yields nothing; a non-empty dict or string
      yields strings, whose subscript raises TypeError, and anything else
      is not iterable. None stands for the raised error. */
  function RecordsOf(v: Json): Option<seq<Json>> {
    match v
    case JArr(items) => Some(items)
    case JObj(fields) => if fields == map[] then Some([]) else None
    case JStr(s) => if s == "" then Some([]) else None
    case _ => None
  }
}
