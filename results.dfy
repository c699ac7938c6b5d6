/** Failure-carrying wrappers shared by the other modules. */
module Results {

  /** Python's `None` or a present value. */
  datatype Option<+T> = None | Some(value: T)

  /** A value, or the exception that the Python code raises instead. */
  datatype Result<+T, +E> = Ok(value: T) | Err(error: E)
}
