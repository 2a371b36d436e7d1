/** The optional value used wherever the source returns a nullable result. */
module Wrappers {

  datatype Option<+T> = None | Some(value: T)
}
