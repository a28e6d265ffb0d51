/** An optional value: a JSON field that may be absent from a request body. */
module Wrappers {
  datatype Option<+T> = None | Some(value: T)
}
