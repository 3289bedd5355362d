/** The optional value used throughout the model for JavaScript's `null`/`undefined` cases. */
module Wrappers {

  datatype Option<+T> = None | Some(value: T)
}
