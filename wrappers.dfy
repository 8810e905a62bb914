/** The optional value the hex parser returns. */
module Wrappers {
  datatype Option<+T> = None | Some(value: T)
}
