/** Option, standing for a JavaScript value that may be `null`. */
module Wrappers {
  datatype Option<T> = None | Some(value: T)
}
