/** The Option datatype, used where the worker reads a value that may be absent. */
module Wrappers {

  datatype Option<+T> = None | Some(value: T)

}
