/** Failure-compatible wrappers shared by the model: `Option` stands for a
    nullable reference, `Result` for a call that may throw. */
module Results {

  datatype Option<+T> = None | Some(value: T)

  datatype Result<+T, +E> = Ok(value: T) | Err(error: E)
}
