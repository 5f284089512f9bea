/** The Option type that stands in for a nullable pointer of the C++ program. */
module Wrappers {

  datatype Option<+T> = None | Some(value: T)
}
