/** The optional value used for results that may be absent, such as a NULL task handle. */
module Wrappers {
  datatype Option<+T> = None | Some(value: T)
}
