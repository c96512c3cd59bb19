/** Failure-carrying values: a missing value, or a value or the error that stopped a computation. */
module Results {

  datatype Option<+T> = None | Some(value: T)

  datatype Result<+T, +E> = Ok(value: T) | Err(error: E)
}
