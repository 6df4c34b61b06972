/** The optional value used where the source has a "not found" outcome. */
module Wrappers {
  datatype Option<T> = None | Some(value: T)
}
