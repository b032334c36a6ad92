/** The optional value used for the source's failing paths. */
module Wrappers {

  datatype Option<+T> = None | Some(value: T)
}
