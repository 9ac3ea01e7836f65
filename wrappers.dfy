/** The usual Some/None datatype, used for "not found" and "dropped". */
module Wrappers {

  datatype Option<+T> = None | Some(value: T)
}
