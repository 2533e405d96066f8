/** The optional value the library passes as `undefined` or a value. */
module Wrappers {
  datatype Option<T> = None | Some(value: T)
}
