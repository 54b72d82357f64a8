/** The optional-value datatype used throughout the model: a pointer that may be
    nil, a slice or map that may be nil, a classifier result that may be invalid. */
module Wrappers {

  datatype Option<+T> = None | Some(value: T)
}
