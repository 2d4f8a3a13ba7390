/** The optional-value datatype used for every "match or null" result. */
module Wrappers {

  datatype Option<+T> = None | Some(value: T)
}
