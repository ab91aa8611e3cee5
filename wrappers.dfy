/** The optional value used wherever the Java code works with `null`. */
module Wrappers {

  datatype Option<+T> = None | Some(value: T)
}
