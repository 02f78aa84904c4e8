/** A value that may be absent: a nullable reference in the app. */
module Wrappers {
  datatype Option<+T> = None | Some(value: T)
}
