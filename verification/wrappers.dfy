/** The usual optional-value datatype: the model's stand-in for JavaScript's `null`. */
module Wrappers {
  datatype Option<+T> = None | Some(value: T)
}
