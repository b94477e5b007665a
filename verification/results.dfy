/** Failure-carrying values used across the model: `Option` for parsers
    that either yield a value or nothing, `Result` for operations whose
    failure carries a reason. */
module Results {

  datatype Option<+T> = None | Some(value: T)

  datatype Result<+T, +E> = Ok(value: T) | Err(error: E)
}
