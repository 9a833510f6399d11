/** The optional-value datatype shared by the parsers and the resource simulation. */
module Wrappers {
  datatype Option<+T> = None | Some(value: T)
}
