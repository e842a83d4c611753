/** Failure-carrying wrappers shared by every module of the model. */
module Results {

  /** A value that may be absent; `None` plays the role of SQL NULL or of a
      JavaScript call that threw. */
  datatype Option<+T> = None | Some(value: T)

  /** The outcome of a step that can fail with an error of type `E`. */
  datatype Result<+T, +E> = Ok(value: T) | Err(error: E)
}
