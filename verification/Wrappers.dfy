/** The optional value, for what the source writes as `undefined`. */
module Wrappers {
  datatype Option<+T> = None | Some(value: T)
}
