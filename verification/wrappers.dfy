/** The Option and Result datatypes shared by the model: an optional value,
    and a value-or-error result used for the points where the program
    raises. */
module Wrappers {

  datatype Option<+T> = None | Some(value: T)

  datatype Result<+R, +E> = Success(value: R) | Failure(error: E)
}
