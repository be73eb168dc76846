/** The optional value used wherever the reader's source uses PHP's `null`. */
module Wrappers {
  datatype Option<+T> = None | Some(value: T)
}
