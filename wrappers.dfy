/** The optional value used for table slots and search results. */
module Wrappers {
  datatype Option<+T> = None | Some(value: T)
}
