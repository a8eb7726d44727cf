/** JavaScript values as the page code sees them after parsing an API response,
    together with the small pieces of JavaScript semantics the formatters rely on:
    truthiness, property reads that may yield `undefined`, string conversion, and
    thrown type errors. */
module JsValues {

  /** The conventional optional value. */
  datatype Option<+T> = None | Some(value: T)

  /** The outcome of a computation that may throw a JavaScript `TypeError`. */
  datatype Result<+T> = Success(value: T) | TypeError(message: string)

  /** A JSON-shaped JavaScript value. Numbers are restricted to integers: the
      fields the formatters inspect are 0/1 flags. `Obj` is any non-array
      object; no formatter looks inside one. */
  datatype Value =
    | Undefined
    | Null
    | Bool(b: bool)
    | Num(n: int)
    | Str(s: string)
    | Arr(items: seq<Value>)
    | Obj

  /** `obj[key]` on an object given by its own properties: a missing property
      reads as `undefined`. */
  function Get<K>(obj: map<K, Value>, key: K): Value
  {
    if key in obj then obj[key] else Undefined
  }

  /** JavaScript truthiness (`if (v)`, `filter((p) => v)`, `!v`). */
  predicate Truthy(v: Value) {
    match v
    case Undefined => false
    case Null => false
    case Bool(b) => b
    case Num(n) => n != 0
    case Str(s) => |s| > 0
    case Arr(_) => true
    case Obj => true
  }

  /** Decimal text of a natural number, as `String(n)` prints it. */
  function NatToString(n: nat): (r: string)
    ensures |r| > 0
    ensures forall i :: 0 <= i < |r| ==> '0' <= r[i] <= '9'
    decreases n
  {
    var digit := ['0' + (n % 10) as char];
    if n < 10 then digit else NatToString(n / 10) + digit
  }

  /** Concatenation of `parts` with `sep` between neighbours (`Array.prototype.join`). */
  function Join(parts: seq<string>, sep: string): string
  {
    if |parts| == 0 then []
    else if |parts| == 1 then parts[0]
    else parts[0] + sep + Join(parts[1..], sep)
  }

  /** String conversion of a value, as a template literal `${v}` performs it. Array
      elements that are `undefined` or `null` print as the empty string. */
  function ToJsString(v: Value): string
    decreases v
  {
    match v
    case Undefined => "undefined"
    case Null => "null"
    case Bool(b) => if b then "true" else "false"
    case Num(n) => if n < 0 then "-" + NatToString(-n) else NatToString(n)
    case Str(s) => s
    case Arr(items) =>
      Join(seq(|items|, i requires 0 <= i < |items| =>
             if items[i].Undefined? || items[i].Null? then "" else ToJsString(items[i])), ",")
    case Obj => "[object Object]"
  }
}
