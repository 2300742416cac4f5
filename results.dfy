/** Optional values and pass/fail outcomes shared by every module of the model. */
module Results {

  /** A value that may be absent: Python's `None` or a real value. */
  datatype Option<+T> = None | Some(value: T)

  /** A value or the exception raised instead of it. */
  datatype Result<+T, +E> = Ok(value: T) | Err(error: E)

  /** The failure raised by a catalog write. */
  datatype DbError = UniqueViolation

  /** The result of an operation that returns nothing but may raise. */
  datatype Outcome<+E> = Pass | Fail(error: E)
}
