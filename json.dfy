/**
 * JSON values as the route handlers see them after `JSON.parse`, with the two
 * JavaScript operations they apply to them: truthiness (`!x`, `x || y`) and
 * strict equality (`===`). A missing property reads as `undefined`, written `None`.
 */
module Json {
  import opened Wrappers

  /** Numbers are kept exact; floating point is not modelled. */
  datatype Value =
    | Null
    | Bool(b: bool)
    | Num(n: real)
    | Str(s: string)
    | Arr(elems: seq<Value>)
    | Obj(fields: map<string, Value>)

  /** A stored record (blog post, event, news article) or a form's state: a JSON object. */
  type Record = map<string, Value>

  /** Property access `r.key`. */
  function Get(r: Record, key: string): (v: Option<Value>)
    ensures v.Some? <==> key in r
    ensures v.Some? ==> v.value == r[key]
  {
    if key in r then Some(r[key]) else None
  }

  /** JavaScript truthiness: `undefined`, `null`, `false`, `0` and `""` are falsy. */
  predicate Truthy(v: Option<Value>) {
    match v
    case None => false
    case Some(Null) => false
    case Some(Bool(b)) => b
    case Some(Num(n)) => n != 0.0
    case Some(Str(s)) => s != ""
    case Some(Arr(_)) => true
    case Some(Obj(_)) => true
  }

  predicate IsPrimitive(v: Value) {
    !v.Arr? && !v.Obj?
  }

  /**
   * `a === b`. Two `undefined`s are equal; primitives compare by value. Arrays and
   * objects compare by identity, which a value does not carry, so they are never
   * equal here. The handlers' first lookup compares values from two separate
   * `JSON.parse` calls, where this is exact. The second lookup after an update compares
   * the merged record with the request item, whose fields the spread copied by
   * reference, so an array or object `id` or `slug` would be equal there; that lookup
   * lands on the updated position either way (`Collection.UpdateInPlace`).
   */
  predicate StrictEquals(a: Option<Value>, b: Option<Value>) {
    match (a, b)
    case (None, None) => true
    case (Some(x), Some(y)) => IsPrimitive(x) && x == y
    case _ => false
  }
}
