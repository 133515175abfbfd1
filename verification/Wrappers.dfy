/** The conventional optional value: a C pointer that may be NULL, or a result that may be absent. */
module Wrappers {
  datatype Option<+T> = None | Some(value: T)
}
