/** Failure-carrying values used wherever the Python code raises an exception
    that a caller either catches or lets escape. */
module Results {

  datatype Option<+T> = None | Some(value: T)

  datatype Result<+T, +E> = Ok(value: T) | Err(error: E)
}
