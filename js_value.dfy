/** The JavaScript values the utility classes store and inspect, with the two
    conversions they rely on: truthiness (`x || d`) and conversion to a string
    (what `Array.prototype.join` applies to each element). */
module JsValue {

  /** A JavaScript value. Numbers are integers; plain objects are known only
      by their identity. */
  datatype Value =
    | Undefined
    | Null
    | Bool(b: bool)
    | Num(n: int)
    | NaN
    | Str(s: string)
    | Obj(ref: nat)

  /** `v` counts as true in a condition: everything except `undefined`, `null`,
      `false`, `0`, `NaN` and the empty string. */
  predicate Truthy(v: Value) {
    match v
    case Undefined => false
    case Null => false
    case Bool(b) => b
    case Num(n) => n != 0
    case NaN => false
    case Str(s) => s != ""
    case Obj(_) => true
  }

  /** The value of `x || d`. */
  function Or(x: Value, d: Value): (r: Value)
    ensures Truthy(r) <==> Truthy(x) || Truthy(d)
    ensures r == x || r == d
    ensures Truthy(x) ==> r == x
    ensures !Truthy(x) ==> r == d
  {
    if Truthy(x) then x else d
  }

  function DigitChar(d: nat): (c: char)
    requires d < 10
    ensures '0' <= c <= '9'
  {
    "0123456789"[d]
  }

  /** The decimal digits of `n`, most significant first. */
  function Digits(n: nat): (r: string)
    ensures |r| >= 1
    ensures forall i :: 0 <= i < |r| ==> '0' <= r[i] <= '9'
    ensures r[0] == '0' ==> n == 0
  {
    if n < 10 then [DigitChar(n)] else Digits(n / 10) + [DigitChar(n % 10)]
  }

  /** `String(n)` for an integer: an optional minus sign and the digits. */
  function NumberToString(n: int): (r: string)
    ensures |r| >= 1
    ensures n < 0 <==> r[0] == '-'
  {
    if n < 0 then "-" + Digits(-n) else Digits(n)
  }

  /** `String(v)`. A truthy value never converts to the empty string. */
  function ToJsString(v: Value): (r: string)
    ensures Truthy(v) ==> |r| >= 1
    ensures v.Str? ==> r == v.s
  {
    match v
    case Undefined => "undefined"
    case Null => "null"
    case Bool(b) => if b then "true" else "false"
    case Num(n) => NumberToString(n)
    case NaN => "NaN"
    case Str(s) => s
    case Obj(_) => "[object Object]"
  }
}
