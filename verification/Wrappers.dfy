module Wrappers {
  /** A result that may be missing: Go's (value, error) when only the error's presence matters. */
  datatype Option<+T> = None | Some(value: T)
}
