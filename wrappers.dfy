/** The optional-value datatype used by the model for "no entry" results. */
module Wrappers {

  datatype Option<+T> = None | Some(value: T)
}
