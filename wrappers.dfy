/** Go's nil-or-value results (`error`, `interface{}` lookups) as an Option. */
module Wrappers {
  datatype Option<+T> = None | Some(value: T)
}
