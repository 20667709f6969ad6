/** The `Option` type that the iterators return from `next`. */
module Wrappers {
  datatype Option<+T> = None | Some(value: T)
}
