/**
 * JSON values as `JSON.parse` produces them, with the three pieces of
 * JavaScript semantics the request code leans on: property lookup
 * (`v.key`, `undefined` when absent), truthiness, and the string
 * conversion that `'Phase ' + phase.id` performs.
 */
module Json {
  import opened Wrappers
  import opened JsText

  /**
   * A parsed JSON value. Numbers are kept as integers (see the README);
   * an object keeps its members in source order, duplicates included.
   */
  datatype Json =
    | JNull
    | JBool(b: bool)
    | JNumber(n: int)
    | JString(s: JsStr)
    | JArray(elems: seq<Json>)
    | JObject(members: seq<(JsStr, Json)>)

  /**
   * `v[key]` for a non-null value: None stands for `undefined`. Only objects
   * have the properties looked up here; `JSON.parse` keeps the last of
   * duplicate members, so the value is that of the last member so named.
   */
  function Get(v: Json, key: JsStr): (r: Option<Json>)
    ensures r.Some? ==> v.JObject? && exists i :: LastKeyAt(v.members, key, i) && r.value == v.members[i].1
    ensures r.None? ==> !v.JObject? || forall i :: 0 <= i < |v.members| ==> v.members[i].0 != key
  {
    if v.JObject? then
      match KeyIndex(v.members, key)
      case Some(i) => Some(v.members[i].1)
      case None => None
    else None
  }

  /** The `i`-th member is named `key` and no later one is. */
  predicate LastKeyAt(ms: seq<(JsStr, Json)>, key: JsStr, i: int)
  {
    0 <= i < |ms| && ms[i].0 == key && forall j :: i < j < |ms| ==> ms[j].0 != key
  }

  /** Where the last member named `key` sits. */
  function KeyIndex(ms: seq<(JsStr, Json)>, key: JsStr): (r: Option<nat>)
    ensures r.Some? ==> LastKeyAt(ms, key, r.value)
    ensures r.None? ==> forall j :: 0 <= j < |ms| ==> ms[j].0 != key
  {
    if |ms| == 0 then None
    else if ms[|ms| - 1].0 == key then Some(|ms| - 1)
    else KeyIndex(ms[..|ms| - 1], key)
  }

  /** Looking up a key at the position of its last member yields that member's value. */
  lemma GetLast(ms: seq<(JsStr, Json)>, key: JsStr, i: nat)
    requires LastKeyAt(ms, key, i)
    ensures Get(JObject(ms), key) == Some(ms[i].1)
  {
  }

  /** A value is truthy unless it is undefined, null, false, 0 or the empty string. */
  predicate Truthy(o: Option<Json>)
  {
    match o
    case None => false
    case Some(JNull) => false
    case Some(JBool(b)) => b
    case Some(JNumber(n)) => n != 0
    case Some(JString(s)) => |s| > 0
    case Some(JArray(_)) => true
    case Some(JObject(_)) => true
  }

  /** `typeof v === 'object'`: null, arrays and objects. */
  predicate IsObjectType(v: Json)
  {
    v.JNull? || v.JArray? || v.JObject?
  }

  /** `Array.isArray(v)`, with undefined not an array. */
  predicate IsArray(o: Option<Json>)
  {
    o.Some? && o.value.JArray?
  }

  /** `String(v)` as the `+` operator applies it, with None for `undefined`. */
  function ToJsString(o: Option<Json>): JsStr
  {
    match o
    case None => Lit("undefined")
    case Some(v) => ValueString(v)
  }

  function ValueString(v: Json): JsStr
  {
    match v
    case JNull => Lit("null")
    case JBool(b) => if b then Lit("true") else Lit("false")
    case JNumber(n) => DecimalString(n)
    case JString(s) => s
    case JArray(es) => Join(es)
    case JObject(_) => Lit("[object Object]")
  }

  /** `Array.prototype.join` with ",": null elements become empty strings. */
  function Join(es: seq<Json>): JsStr
    decreases es
  {
    if |es| == 0 then []
    else
      var last := es[|es| - 1];
      var piece := if last.JNull? then [] else ValueString(last);
      if |es| == 1 then piece else Join(es[..|es| - 1]) + [U(',')] + piece
  }
}
