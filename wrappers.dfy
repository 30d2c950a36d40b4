/** The optional value used for list iterators that may be `end()`. */
module Wrappers {
  datatype Option<+T> = None | Some(value: T)
}
