/** The optional value used wherever the Java code can hand back null. */
module Wrappers {

  datatype Option<+T> = None | Some(value: T)
}
