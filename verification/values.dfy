/** Small value wrappers shared by the store model: an optional value (a nullable
    column, an omitted Python argument) and the outcome of a statement that the
    database may reject. */
module Values {

  /** A value that may be absent: SQL NULL, or a Python `None` argument. */
  datatype Option<+T> = None | Some(value: T)

  /** The outcome of a statement: the value it produced, or the error the
      database raised instead. */
  datatype Result<+T, +E> = Ok(value: T) | Err(error: E)

  /** Python truthiness of an optional string argument: `None` and `""` are
      both false, every other string is true. */
  predicate Truthy(s: Option<string>) {
    s.Some? && s.value != ""
  }
}
