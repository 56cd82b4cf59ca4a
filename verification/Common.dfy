/** Results the models share. */
module Common {
  datatype Option<+T> = None | Some(value: T)

  /** A checked value, or the source's error. */
  datatype Result<+T> = Ok(value: T) | Rejected
}
