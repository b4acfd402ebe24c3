/** A value that may be absent: a regex match that may fail, a field that may be unset. */
module Wrappers {
  datatype Option<+T> = None | Some(value: T)
}
