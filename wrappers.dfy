/** The optional-value type used for the outcome of each library call. */
module Wrappers {

  datatype Option<+T> = None | Some(value: T)
}
