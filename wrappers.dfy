/** The optional-result type used for the library's `Option` returns. */
module Wrappers {

  datatype Option<+T> = None | Some(value: T)
}
