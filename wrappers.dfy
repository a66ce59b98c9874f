/** An optional value: a stored template that may be absent, the message of an exception
    that processing may have raised. */
module Wrappers {
  datatype Option<T> = None | Some(value: T)
}
