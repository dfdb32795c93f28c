/** A value that may be missing: Go's nil results and optional fields. */
module Options {
  datatype Option<+T> = None | Some(value: T)
}
