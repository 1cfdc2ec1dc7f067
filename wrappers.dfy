/** Option and Result, and the two kinds of failure a request handler can end in. */
module Wrappers {

  datatype Option<+T> = None | Some(value: T)

  datatype Result<+T, +E> = Ok(value: T) | Err(error: E)

  /** An `HTTPException` the code raises on purpose, or any other exception (a database
      integrity error, say), which the web framework answers with a 500. */
  datatype Failure =
    | HttpError(status: nat, detail: string)
    | InternalError(message: string)

  /** A service result: the value, or the exception that was raised. */
  type Outcome<+T> = Result<T, Failure>
}
