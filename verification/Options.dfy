/** The optional value used across the project for Go's nil results and (value, ok) pairs. */
module Options {
  datatype Option<+T> = None | Some(value: T)
}
