/** A nullable reference, written as a value: `None` is JavaScript's `null`. */
module Wrappers {
  datatype Option<+T> = None | Some(value: T)
}
