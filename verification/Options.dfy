module Options {
  datatype Option<+T> = None | Some(value: T)

  /** A Go result with an error: which error it was is left out. */
  datatype Result<+T> = Ok(value: T) | Err
}
