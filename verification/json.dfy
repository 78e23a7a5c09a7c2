/** The untyped input the service receives: a request body after JSON parsing. */
module Json {

  /** A JSON value. Numbers are exact reals: the IEEE-754 representation
      (rounding, NaN, the infinities) is not modelled. Object keys are unique,
      as they are after `JSON.parse`, where the last duplicate wins. */
  datatype Value =
    | Null
    | Bool(b: bool)
    | Num(n: real)
    | Str(s: string)
    | Arr(items: seq<Value>)
    | Obj(fields: map<string, Value>)

  /** A number with no fractional part (JavaScript's `Number.isInteger`). */
  predicate IsInteger(n: real) {
    n.Floor as real == n
  }
}
