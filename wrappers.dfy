/** The optional value the library calls and the integer parser return. */
module Wrappers {
  datatype Option<T> = None | Some(value: T)
}
