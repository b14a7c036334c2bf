/** The optional value used for Python's `None` results and for lookups that may fail. */
module Wrappers {
  datatype Option<+T> = None | Some(value: T)
}
