/** The scalar values a JSON request body carries, with Python's truthiness and `str()`. */
module JsonValues {
  import opened Text

  /** A JSON scalar as Python sees it after decoding: `None`, a bool, an int or a str. */
  datatype Value = Null | Bool(b: bool) | Int(i: int) | Str(s: string)

  /** Python's `bool(v)`. */
  predicate Truthy(v: Value) {
    match v
    case Null => false
    case Bool(b) => b
    case Int(i) => i != 0
    case Str(s) => s != ""
  }

  /** Python's `str(v)`; a Django character field coerces a lookup value the same way. */
  function Render(v: Value): string {
    match v
    case Null => "None"
    case Bool(b) => if b then "True" else "False"
    case Int(i) => IntToString(i)
    case Str(s) => s
  }
}
