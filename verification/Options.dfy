/** A value that may be absent: Go's nil, or a second result that says so. */
module Options {
  datatype Option<+T> = None | Some(value: T)
}
