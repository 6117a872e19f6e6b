/** The usual optional value, for the engine's "not found" exceptions and null pointers. */
module Wrappers {
  datatype Option<+T> = None | Some(value: T)
}
