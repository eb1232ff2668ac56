/** The Option type that stands in for Go's `nil` where the limiter hands out
    a value that may be absent. */
module Wrappers {

  datatype Option<+T> = None | Some(value: T)
}
