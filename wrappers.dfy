/** The optional value used where the source has `T | null`. */
module Wrappers {

  datatype Option<+T> = None | Some(value: T)
}
