/** The optional value used for the C code's NULL-or-pointer results. */
module Wrappers {
  datatype Option<+T> = None | Some(value: T)
}
