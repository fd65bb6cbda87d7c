/** The Option type used for array slots (None is a hole) and for parsed array indices. */
module Wrappers {
  datatype Option<+T> = None | Some(value: T)
}
