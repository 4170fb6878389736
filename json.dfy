/**
 * Already-parsed JSON values, and the two JavaScript operations the core applies
 * to them: reading a property, and the truthiness test behind `!x` and `x || d`.
 */
module JsonValue {
  import opened Wrappers

  datatype Json =
    | JNull
    | JBool(b: bool)
    | JNumber(n: real)
    | JString(s: string)
    | JArray(items: seq<Json>)
    | JObject(members: map<string, Json>)

  /** JavaScript's ToBoolean on a JSON value (`NaN` cannot come out of JSON text). */
  predicate Truthy(v: Json)
  {
    match v
    case JNull => false
    case JBool(b) => b
    case JNumber(n) => n != 0.0
    case JString(s) => s != ""
    case JArray(_) => true
    case JObject(_) => true
  }

  /**
   * `v.key` for a value that is not `null`: the member of an object, `undefined`
   * (None) otherwise. The property names read by the core are never own or
   * inherited properties of booleans, numbers, strings or arrays.
   */
  function Get(v: Json, key: string): (r: Option<Json>)
    ensures r.Some? <==> v.JObject? && key in v.members
    ensures r.Some? ==> r.value == v.members[key]
  {
    if v.JObject? && key in v.members then Some(v.members[key]) else None
  }

  /** `v.key` is present and truthy: what `if (v.key)` tests. */
  predicate HasTruthy(v: Json, key: string)
  {
    Get(v, key).Some? && Truthy(Get(v, key).value)
  }

  /** The falsy JSON values are exactly `null`, `false`, `0` and the empty string. */
  lemma FalsyValues(v: Json)
    ensures !Truthy(v) <==> v == JNull || v == JBool(false) || v == JNumber(0.0) || v == JString("")
  {
  }

  /** `if (v.key)` passes exactly for an object whose `key` member is truthy. */
  lemma HasTruthyMember(v: Json, key: string)
    ensures HasTruthy(v, key) <==> v.JObject? && key in v.members && Truthy(v.members[key])
  {
  }

  /** `v.key || fallback`. */
  function GetOr(v: Json, key: string, fallback: Json): (r: Json)
    ensures HasTruthy(v, key) ==> r == v.members[key]
    ensures !HasTruthy(v, key) ==> r == fallback
  {
    if HasTruthy(v, key) then Get(v, key).value else fallback
  }
}
