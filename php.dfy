/** Values as PHP sees them, and PHP's notion of an "empty" value. */
module Php {

  /** A nullable column or an optional argument (SQL NULL / PHP null). */
  datatype Option<+T> = None | Some(value: T) {
    function GetOr(default: T): T {
      match this
      case Some(v) => v
      case None => default
    }
  }

  /** A decoded JSON request value. PHP floats are not modelled. */
  datatype Value =
    | Null
    | Bool(b: bool)
    | Int(i: int)
    | Str(s: string)
    | Arr(items: seq<Value>)

  /** PHP `empty()`: null, false, 0, "", "0" and the empty array are empty. */
  predicate Empty(v: Value) {
    match v
    case Null => true
    case Bool(b) => !b
    case Int(i) => i == 0
    case Str(s) => s == "" || s == "0"
    case Arr(items) => items == []
  }

  /** `empty()` of a string. */
  predicate Blank(s: string) {
    Empty(Str(s))
  }
}
