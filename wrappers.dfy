/** The optional value used where the source uses `null` or `undefined`. */
module Wrappers {

  datatype Option<+T> = None | Some(value: T)
}
