/** Option and Result values, and the error shape the services return. */
module Outcome {

  datatype Option<+T> = None | Some(value: T)

  datatype Result<+R, +E> = Success(value: R) | Failure(error: E)

  /** How a service call can fail.
      ApiError is the structured error the services build (a numeric code and a message);
      WrappedError is an ApiError whose message is `prefix` followed by the text of an error from
      Go's standard library; LibraryError is such an error handed back unchanged. The model does not
      reproduce the library's error texts. RuntimePanic is a Go run-time panic the code does not guard. */
  datatype Fault =
    | ApiError(code: int, message: string)
    | WrappedError(code: int, prefix: string)
    | LibraryError(origin: string)
    | RuntimePanic(reason: string)
}
