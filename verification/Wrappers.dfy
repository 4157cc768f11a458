/** The option type shared by every module: a value that JavaScript may leave `undefined` or `null`. */
module Wrappers {
  datatype Option<+T> = None | Some(value: T)
}
