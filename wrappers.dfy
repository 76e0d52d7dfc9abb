/** The Option datatype: a value that may be missing (a file that fails to
    load, a mask that has no match). */
module Wrappers {

  datatype Option<+T> = None | Some(value: T)
}
