/** An optional value, standing for a result that may be `null`. */
module Wrappers {
  datatype Option<+T> = None | Some(value: T)
}
