/** A small Option type: `Some(x)` for a pointer that is set, `None` for null. */
module Wrappers {
  datatype Option<+T> = None | Some(value: T)
}
