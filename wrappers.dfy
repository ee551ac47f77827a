/** Option and Result values shared by every module of the model. */
module Wrappers {

  datatype Option<+T> = None | Some(value: T)

  /** A Python exception, or the value returned when none is raised. */
  datatype Result<+T, +E> = Success(value: T) | Failure(error: E)

  /** The Python exception classes the modelled code can raise. */
  datatype PyError =
    | KeyError           // missing dictionary key
    | IndexError         // list index out of range
    | ValueError         // bad int() literal, failed tuple unpacking, min() of nothing
    | ZeroDivisionError  // true division by zero
    | RuntimeError       // raised deliberately, for a field missing from a row
}
