/** An optional value. As a result it plays the part of Go's `error`: `None` is nil,
    `Some(e)` is the error `e`. */
module Wrappers {

  datatype Option<+T> = None | Some(value: T)
}
