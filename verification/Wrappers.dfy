/** The usual optional value, used where the source returns a sentinel. */
module Wrappers {
  datatype Option<+T> = None | Some(value: T)
}
