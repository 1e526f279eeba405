/** The option type used for nullable columns and absent refs. */
module Wrappers {

  datatype Option<+T> = None | Some(value: T)
}
