/**
 * JavaScript values as the dashboard's data pipeline sees them: the number
 * type with its NaN, the cell values a spreadsheet row can hold, and the
 * outcome of an operation that may throw.
 */
module Values {

  /** A JavaScript number: NaN or a finite value (kept exact, as a real). */
  datatype Num = NaN | Val(v: real)

  /** The value of a cell, a field or an argument. A missing field reads as Undefined. */
  datatype JsValue = Undefined | Null | Bool(b: bool) | Number(n: real) | Str(s: string)

  /** Either a value, or the TypeError that JavaScript throws. */
  datatype Outcome<T> = Ok(value: T) | TypeError

  datatype Option<T> = None | Some(value: T)

  /** ToBoolean: the values an `if (x)` test lets through. */
  predicate Truthy(v: JsValue)
  {
    match v
    case Undefined => false
    case Null => false
    case Bool(b) => b
    case Number(n) => n != 0.0
    case Str(s) => s != ""
  }

  /** Concatenation is associative. */
  lemma Associates<T>(a: seq<T>, b: seq<T>, c: seq<T>)
    ensures a + (b + c) == a + b + c
  {
  }

  /** The empty sequence is a unit of concatenation. */
  lemma AppendEmpty<T>(s: seq<T>)
    ensures s + [] == s && [] + s == s
  {
  }
}
