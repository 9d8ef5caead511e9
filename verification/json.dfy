/**
 Decoded JSON values, as a request body or a response body carries them.
 The book store never inspects a field value: titles, authors, genres and
 years are stored and returned exactly as the caller sent them.
 */
module Json {

  /** One JSON value. Numbers are kept as reals; their binary encoding is not modelled. */
  datatype Value =
    | Null
    | Bool(b: bool)
    | Num(n: real)
    | Str(s: string)
    | Arr(items: seq<Value>)
    | Obj(fields: map<string, Value>)

  /** A JSON object, the shape of a request payload and of a stored record. */
  type Object = map<string, Value>

  /** Python truthiness of a decoded value: `None`, `False`, zero and empty
      strings, lists and dicts are false, everything else is true. */
  predicate Truthy(v: Value) {
    match v
    case Null => false
    case Bool(b) => b
    case Num(n) => n != 0.0
    case Str(s) => |s| > 0
    case Arr(items) => |items| > 0
    case Obj(fields) => |fields| > 0
  }
}
