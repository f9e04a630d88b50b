/** The optional value used for lookups and pattern captures that may fail. */
module Wrappers {
  datatype Option<+T> = None | Some(value: T)
}
