/** A value that may be absent; also the error result of a Go function. */
module Options {
  datatype Option<+T> = None | Some(value: T)
}
