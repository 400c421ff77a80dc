/** The optional value used where the scheduler has "no candidate yet". */
module Wrappers {
  datatype Option<+T> = None | Some(value: T)
}
