/** Option type for values that Python leaves unset or represents by a sentinel. */
module Wrappers {
  datatype Option<+T> = None | Some(value: T)
}
