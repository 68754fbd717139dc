/** The optional value used for JavaScript's `T | null` and for operations that can throw. */
module Wrappers {
  datatype Option<+T> = None | Some(value: T)
}
