/** The optional value used where the source keeps a nullable reference. */
module Wrappers {

  datatype Option<+T> = None | Some(value: T)
}
