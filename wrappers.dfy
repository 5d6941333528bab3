/** The optional value used wherever the source either produces something or raises and skips. */
module Wrappers {
  datatype Option<+T> = None | Some(value: T)
}
