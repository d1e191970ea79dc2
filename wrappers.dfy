/** The optional value that stands in for C's NULL and short-read returns. */
module Wrappers {
  datatype Option<+T> = None | Some(value: T)
}
