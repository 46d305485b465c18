/** The optional value used wherever the original returns `null`. */
module Wrappers {

  datatype Option<+T> = None | Some(value: T)
}
