/** The optional value that the fallible operations of the model return. */
module Wrappers {
  datatype Option<T> = None | Some(value: T)
}
