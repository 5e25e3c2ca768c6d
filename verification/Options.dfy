/** A value that may be absent: Python's None, and the error returns that carry no reason. */
module Options {
  datatype Option<+T> = None | Some(value: T)
}
