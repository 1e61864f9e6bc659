/** The JavaScript values that cross the connector: parameter values, property values
    and raw column values. Doubles are not modelled bit for bit: an integral number is
    an unbounded integer, a non-integral one is opaque and carries the text `String()`
    gives for it. */
module JsValues {
  import opened Text
  import opened Dates

  datatype JsNumber = Int(i: int) | Frac(text: string) | NaN | Infinity(negative: bool)

  /** `obj` stands for any object or array other than a Date; only its identity matters. */
  datatype Value =
    | Undefined
    | Null
    | Num(n: JsNumber)
    | Str(s: string)
    | Bool(b: bool)
    | DateObj(date: JsDate)
    | Obj(ref: nat)

  /** One result row of the driver's recordset: column name to raw value. */
  type Row = map<string, Value>

  /** The JavaScript runtime behaviour this model does not reproduce: `new Date(v)` for a
      value that is not already a Date (Date parsing), and `String(v)` for a valid Date
      (local-time rendering) or an object. */
  datatype Runtime = Runtime(newDate: Value -> JsDate, display: Value -> string)

  /** `v == null`: true exactly for `null` and `undefined`. */
  predicate IsNullish(v: Value) {
    v.Undefined? || v.Null?
  }

  /** JavaScript truthiness (`!!v`). Objects, Dates included, are always truthy. */
  predicate Truthy(v: Value) {
    match v
    case Undefined => false
    case Null => false
    case Num(n) => (n.Int? && n.i != 0) || n.Frac? || n.Infinity?
    case Str(s) => s != ""
    case Bool(b) => b
    case DateObj(_) => true
    case Obj(_) => true
  }

  /** `String(n)` for a number. Integers whose magnitude reaches 1e21, which JavaScript
      writes in exponent form, are not distinguished. */
  function NumberText(n: JsNumber): string {
    match n
    case Int(i) => IntToString(i)
    case Frac(t) => t
    case NaN => "NaN"
    case Infinity(negative) => if negative then "-Infinity" else "Infinity"
  }

  /** `String(v)`. */
  function JsString(rt: Runtime, v: Value): string {
    match v
    case Undefined => "undefined"
    case Null => "null"
    case Num(n) => NumberText(n)
    case Str(s) => s
    case Bool(b) => if b then "true" else "false"
    case DateObj(d) => if d.InvalidDate? then "Invalid Date" else rt.display(v)
    case Obj(_) => rt.display(v)
  }
}
