/** An optional value, shared by the models. */
module Wrappers {

  /** A value that may be absent: a NULL column, a missing key, a nil pointer. */
  datatype Option<+T> = None | Some(value: T)
}
