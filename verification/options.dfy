/** The two value wrappers every component of the model shares. */
module Options {

  /** A value the program may leave `undefined`. */
  datatype Option<+T> = None | Some(value: T)

  /** A computation that either yields a value or fails with a tagged error. */
  datatype Result<+T, +E> = Ok(value: T) | Err(error: E)
}
