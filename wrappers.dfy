/** The optional-value datatype used for every accessor that may find nothing. */
module Wrappers {

  datatype Option<+T> = None | Some(value: T)
}
