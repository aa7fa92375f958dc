/** A pointer that may be NULL, read as a value. */
module Options {
  datatype Option<+T> = None | Some(value: T)
}
