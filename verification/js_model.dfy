/**
 * JavaScript values as far as the application inspects them: numbers as
 * `Number()` produces them, untyped values coming from the database or
 * from `JSON.parse`, and `String(value)`.
 */
module JsModel {
  import opened Wrappers
  import JsText

  /** A JavaScript number. Finite values are reals; -0 is not distinguished from 0. */
  datatype JsNumber = NaN | PosInf | NegInf | Finite(value: real)

  /** `Boolean(n)`: 0 and NaN are falsy. */
  predicate Truthy(n: JsNumber) {
    n.PosInf? || n.NegInf? || (n.Finite? && n.value != 0.0)
  }

  /** `a || b` on numbers. */
  function Or(a: JsNumber, b: JsNumber): (r: JsNumber)
    ensures Truthy(a) ==> r == a
    ensures !Truthy(a) ==> r == b
  {
    if Truthy(a) then a else b
  }

  /** `a < b`; false whenever NaN is involved. */
  predicate Less(a: JsNumber, b: JsNumber) {
    !a.NaN? && !b.NaN? &&
    ((a.NegInf? && !b.NegInf?) || (b.PosInf? && !a.PosInf?) ||
     (a.Finite? && b.Finite? && a.value < b.value))
  }

  /** `Math.max(a, b)` */
  function Max(a: JsNumber, b: JsNumber): (r: JsNumber)
    ensures r.NaN? <==> a.NaN? || b.NaN?
    ensures !r.NaN? ==> (r == a || r == b) && !Less(r, a) && !Less(r, b)
  {
    if a.NaN? || b.NaN? then NaN else if Less(a, b) then b else a
  }

  /** `Math.min(a, b)` */
  function Min(a: JsNumber, b: JsNumber): (r: JsNumber)
    ensures r.NaN? <==> a.NaN? || b.NaN?
    ensures !r.NaN? ==> (r == a || r == b) && !Less(a, r) && !Less(b, r)
  {
    if a.NaN? || b.NaN? then NaN else if Less(b, a) then b else a
  }

  /** `Number(text)`: the conversion is not modelled; callers receive it as a parameter. */
  type NumberParser = string -> JsNumber

  /** A value of unknown shape (a database column of JSON type, or a `JSON.parse` result). */
  datatype JsValue =
    | Undefined
    | Null
    | Bool(b: bool)
    | Num(text: string)      // `text` is the number's canonical JavaScript spelling
    | Str(s: string)
    | Arr(elems: seq<JsValue>)
    | Obj

  /** `JSON.parse(text)`: `None` when it throws. Not modelled; passed as a parameter. */
  type JsonParser = string -> Option<JsValue>

  /** `String(v)` */
  function ToJsString(v: JsValue): string
    decreases v, 1
  {
    match v
    case Undefined => "undefined"
    case Null => "null"
    case Bool(b) => if b then "true" else "false"
    case Num(text) => text
    case Str(s) => s
    case Obj => "[object Object]"
    case Arr(es) => JoinElements(es)
  }

  /** `es.join(",")` on array elements. */
  function JoinElements(es: seq<JsValue>): string
    decreases es, 0
  {
    if |es| == 0 then ""
    else if |es| == 1 then ElementString(es[0])
    else ElementString(es[0]) + "," + JoinElements(es[1..])
  }

  /** How `Array.prototype.join` spells one element: null and undefined become "". */
  function ElementString(e: JsValue): string
    decreases e, 2
  {
    if e.Undefined? || e.Null? then "" else ToJsString(e)
  }

  /** `xs.map((x) => String(x))` */
  function StringifyAll(xs: seq<JsValue>): (r: seq<string>)
    ensures |r| == |xs|
    ensures forall i :: 0 <= i < |xs| ==> r[i] == ToJsString(xs[i])
  {
    seq(|xs|, i requires 0 <= i < |xs| => ToJsString(xs[i]))
  }
}
