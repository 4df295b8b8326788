/** The optional value used for the idle monitor's pending timer and for parse results. */
module Wrappers {

  datatype Option<+T> = None | Some(value: T)
}
