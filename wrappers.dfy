/** The optional value used where the source returns a pointer that may be null. */
module Wrappers {
  datatype Option<+T> = None | Some(value: T)
}
