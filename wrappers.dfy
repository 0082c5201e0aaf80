/** The optional value used for Python's None and for pandas' missing cells. */
module Wrappers {

  datatype Option<+T> = None | Some(value: T)
}
