/**
 * The JSON values a request body field can hold, as far as the handlers look at them,
 * and the JavaScript operations the handlers apply to them.
 * Prices are kept in whole cents so that no real arithmetic is needed.
 */
module JsValue {

  datatype Value = Undef | Null | Str(s: string) | Num(cents: int)

  /** The four values JavaScript treats as false in a condition. */
  const FALSY: set<Value> := {Undef, Null, Str(""), Num(0)}

  /** JavaScript truthiness: a value is truthy exactly when it is not one of the four falsy values. */
  predicate Truthy(v: Value)
    ensures Truthy(v) <==> v !in FALSY
  {
    match v
    case Undef => false
    case Null => false
    case Str(s) => s != ""
    case Num(c) => c != 0
  }

  /**
   * JavaScript `a || b`: yields an operand rather than a boolean, the left one when it is
   * truthy and the right one otherwise.
   */
  function Or(a: Value, b: Value): (r: Value)
    ensures Truthy(r) <==> Truthy(a) || Truthy(b)
    ensures Truthy(a) ==> r == a
    ensures !Truthy(a) ==> r == b
  {
    if Truthy(a) then a else b
  }

  /**
   * Passing a value as a positional SQL parameter: the driver sends `undefined` as SQL NULL and
   * every other value as it is. Nothing bound is ever `undefined`.
   */
  function Bind(v: Value): (r: Value)
    ensures r != Undef
    ensures v == Undef ==> r == Null
    ensures v != Undef ==> r == v
    ensures Truthy(r) <==> Truthy(v)
  {
    if v == Undef then Null else v
  }
}
