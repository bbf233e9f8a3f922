/** Failure-compatible wrappers: `None` stands for Python's `None` result of a
    regular-expression helper, `Err` for an exception raised by the parser. */
module Wrappers {

  datatype Option<+T> = None | Some(value: T)

  datatype Result<+T, +E> = Ok(value: T) | Err(error: E)
}
