/** An optional value: a C out-parameter that is either written (`Some`) or left alone (`None`). */
module Wrappers {
  datatype Option<+T> = None | Some(value: T)
}
