/** Optional values and results with an error alternative, standing for Python's
    `None` returns and raised exceptions. */
module Results {

  datatype Option<+T> = None | Some(value: T)

  datatype Result<+T, +E> = Ok(value: T) | Err(error: E)

  /** A check that either passes or fails with an error and produces no value. */
  datatype Outcome<+E> = Pass | Fail(error: E)
}
