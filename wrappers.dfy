/** The optional value used for nullable columns and absent dates. */
module Wrappers {

  datatype Option<+T> = None | Some(value: T)
}
