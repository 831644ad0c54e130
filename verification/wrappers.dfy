/** A minimal optional-value datatype, used for attributes a Python object may
    or may not carry at a given moment. */
module Wrappers {

  datatype Option<+T> = None | Some(value: T)
}
