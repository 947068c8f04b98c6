/** Small failure-carrying datatypes shared by the estate modules. */
module Common {

  /** An optional value: an unset Many2one, Selection or Date field is None. */
  datatype Option<T> = None | Some(value: T)

  /** The verdict of a check: it passes, or fails with the error it raises. */
  datatype Outcome<E> = Pass | Fail(error: E)

  /** The result of an operation that yields a value or raises an error. */
  datatype Result<T, E> = Ok(value: T) | Err(error: E)
}
