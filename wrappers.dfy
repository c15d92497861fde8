/** The optional value that a regular-expression match (or its absence) becomes. */
module Wrappers {
  datatype Option<+T> = None | Some(value: T)
}
