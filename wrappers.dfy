/** The optional value used for "pattern found / not found" results. */
module Wrappers {

  datatype Option<+T> = None | Some(value: T)
}
