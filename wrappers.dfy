/** The optional-value datatype used for lookups and parse results. */
module Wrappers {

  datatype Option<+T> = None | Some(value: T)
}
