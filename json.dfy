/**
  The decoded JSON document the upstream API returns, and the handful of
  Python operations the parser applies to it: `d.get(key, default)`,
  truthiness (`if x:`) and iteration (`for x in ...`).

  A Python exception raised by one of these operations is `Raised`; the parser
  catches every exception at its outermost level.
 */
module Json {

  datatype Json =
    | JNull
    | JBool(b: bool)
    | JNum(n: int)
    | JStr(s: string)
    | JArr(items: seq<Json>)
    | JObj(fields: map<string, Json>)

  /** The result of a Python expression that may raise. */
  datatype Outcome<+T> = Ok(value: T) | Raised {

    predicate IsFailure() {
      Raised?
    }

    function PropagateFailure<U>(): Outcome<U>
      requires Raised?
    {
      Raised
    }

    function Extract(): T
      requires Ok?
    {
      value
    }
  }

  /** `{}` */
  const EmptyObj := JObj(map[])

  /** `[]` */
  const EmptyArr := JArr([])

  /**
    `obj.get(key, default)`: a dict yields the value stored under `key` (even a
    stored `null`) or `default` when the key is absent; any other value has no
    `get` and raises.
   */
  function Get(obj: Json, key: string, default: Json): (r: Outcome<Json>)
    ensures r.Ok? <==> obj.JObj?
    ensures r.Ok? ==> r.value == (if key in obj.fields then obj.fields[key] else default)
  {
    match obj
    case JObj(fields) => Ok(if key in fields then fields[key] else default)
    case _ => Raised
  }

  /** Python truthiness: `None`, `False`, `0`, `""`, `[]` and `{}` are false. */
  predicate Truthy(j: Json) {
    match j
    case JNull => false
    case JBool(b) => b
    case JNum(n) => n != 0
    case JStr(s) => s != ""
    case JArr(items) => items != []
    case JObj(fields) => fields != map[]
  }

  /**
    The elements that a loop `for x in j:` visits, for the loops of the parser,
    each of whose bodies starts with `x.get(...)`. A list yields its items; an
    empty string or dict yields nothing. A non-empty string or dict yields
    strings, and the first `x.get` on one of them raises, so the loop raises
    before doing anything: modelled as raising at once. `None`, booleans and
    numbers are not iterable and raise.
   */
  function Iterate(j: Json): (r: Outcome<seq<Json>>)
    ensures r.Ok? <==> j.JArr? || j == JStr("") || j == EmptyObj
    ensures j.JArr? ==> r == Ok(j.items)
    ensures r.Ok? && !j.JArr? ==> r.value == []
  {
    match j
    case JArr(items) => Ok(items)
    case JStr(s) => if s == "" then Ok([]) else Raised
    case JObj(fields) => if fields == map[] then Ok([]) else Raised
    case _ => Raised
  }

  /**
    The text a parser field reads from a leaf: a JSON string as it is. The
    model reads any other value as the empty string (see README, Left out).
   */
  function Text(j: Json): string {
    if j.JStr? then j.s else ""
  }
}
