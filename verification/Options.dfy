/** A value that may be absent, such as the result of a read that may fail. */
module Options {
  datatype Option<+T> = None | Some(value: T)
}
