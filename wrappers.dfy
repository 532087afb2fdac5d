/** The optional value used where the source returns an index or nothing. */
module Wrappers {

  datatype Option<+T> = None | Some(value: T)

}
