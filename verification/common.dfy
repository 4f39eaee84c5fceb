/** Small wrappers shared by the modules of the model. */
module Common {

  /** A value that may be absent: Rust's `Option`. */
  datatype Option<+T> = None | Some(value: T)

  /** The outcome of a step that either produces a value or fails with a
      message: Rust's `Result<T, String>`. */
  datatype Result<+T> = Ok(value: T) | Err(message: string)
}
