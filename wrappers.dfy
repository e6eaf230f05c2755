/** The usual Some/None datatype, used where the C code signals "nothing" or a failed call. */
module Wrappers {

  datatype Option<+T> = None | Some(value: T)
}
