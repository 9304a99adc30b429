/** Failure-carrying wrappers shared by the dual-number and expression modules. */
module Results {

  datatype Option<+T> = None | Some(value: T)

  /** Either a value or the error that replaced it; the model's stand-in for a raised exception. */
  datatype Result<+T, +E> = Ok(value: T) | Err(error: E)
}
