/** JavaScript values as they reach the server: JSON request bodies and
    socket payloads, plus `undefined` for a missing property. */
module Js {

  /** A JavaScript value. Numbers are integers (fractions, NaN and -0 are
      not modelled); functions and symbols never arrive over JSON. */
  datatype JsValue =
    | Undefined
    | Null
    | Bool(b: bool)
    | Num(n: int)
    | Str(s: string)
    | Arr(elems: seq<JsValue>)
    | Obj(fields: map<string, JsValue>)

  /** JavaScript truthiness: `false`, `0`, `""`, `null` and `undefined` are falsy. */
  predicate Truthy(v: JsValue) {
    match v
    case Undefined => false
    case Null => false
    case Bool(b) => b
    case Num(n) => n != 0
    case Str(s) => s != ""
    case Arr(_) => true
    case Obj(_) => true
  }

  /** `null` or `undefined`: the values `??` and `?.` treat as missing. */
  predicate Nullish(v: JsValue) {
    v.Undefined? || v.Null?
  }

  /** The `typeof` operator (`typeof null` is "object"). */
  function TypeOf(v: JsValue): (t: string)
    ensures t == "object" <==> v.Null? || v.Arr? || v.Obj?
    ensures t == "string" <==> v.Str?
  {
    match v
    case Undefined => "undefined"
    case Null => "object"
    case Bool(_) => "boolean"
    case Num(_) => "number"
    case Str(_) => "string"
    case Arr(_) => "object"
    case Obj(_) => "object"
  }

  /** Property read `v.key` on a value that is not nullish, and also `v?.key`:
      an own property of an object, otherwise `undefined`. */
  function Field(v: JsValue, key: string): (r: JsValue)
    ensures !v.Obj? ==> r == Undefined
    ensures v.Obj? && key !in v.fields ==> r == Undefined
  {
    if v.Obj? && key in v.fields then v.fields[key] else Undefined
  }

  /** The nullish-coalescing operator `a ?? b`. */
  function Coalesce(a: JsValue, b: JsValue): (r: JsValue)
    ensures Nullish(a) ==> r == b
    ensures !Nullish(a) ==> r == a
  {
    if Nullish(a) then b else a
  }
}
