/** A value that may be absent: Python's `X | None`. */
module Optional {
  datatype Option<+T> = None | Some(value: T)
}
