/** The optional value used for "no level given" and for a codec library call that raised. */
module Wrappers {

  datatype Option<+T> = None | Some(value: T)
}
