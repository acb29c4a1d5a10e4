/** Option, Result and Outcome: the shapes of Python's `None`-able values, of a value-or-exception
    and of a check that either passes or raises. */
module Wrappers {

  datatype Option<+T> = None | Some(value: T)

  datatype Result<+R, +E> = Success(value: R) | Failure(error: E)

  datatype Outcome<+E> = Pass | Fail(error: E)
}
