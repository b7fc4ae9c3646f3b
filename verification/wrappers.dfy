/** Small failure-carrying datatype shared by the other modules. */
module Wrappers {

  /** A value that may be absent: a missing CreationDate, a failed parse. */
  datatype Option<+T> = None | Some(value: T)
}
