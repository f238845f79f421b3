/** A value that may be missing: JavaScript's `null` and `undefined`. */
module Wrappers {

  datatype Option<T> = None | Some(value: T)
}
