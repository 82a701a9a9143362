/** Success/Failure results: the model's stand-in for the undefined behaviour
    the C++ code reaches on bad arguments. */
module Wrappers {

  datatype Option<+T> = None | Some(value: T)

  datatype Result<+T, +E> = Success(value: T) | Failure(error: E)

}
