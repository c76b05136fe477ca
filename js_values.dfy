/** Values as the request handlers see them once Express has parsed a request. */
module JsValues {

  /** A value that may be absent: `None` stands for `undefined` (a missing
      field) or, for a number produced by `parseInt`, for `NaN`. */
  datatype Option<+T> = None | Some(value: T)

  /** The outcome of a handler; the HTTP status is implied by the constructor
      (200, 400 and 404). */
  datatype Reply<+T> = Ok(value: T) | BadRequest(msg: string) | NotFound(msg: string)

  /** JavaScript truthiness of a parsed number: `NaN` and `0` are falsy. */
  predicate IsTruthyNumber(n: Option<int>)
  {
    n.Some? && n.value != 0
  }

  /** JavaScript truthiness of a string field: `undefined` and `""` are falsy. */
  predicate IsTruthyString(s: Option<string>)
  {
    s.Some? && s.value != ""
  }
}
