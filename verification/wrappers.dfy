/** Failure-compatible optional values, used for the decoder's fatal aborts. */
module Wrappers {

  datatype Option<+T> = None | Some(value: T)

}
