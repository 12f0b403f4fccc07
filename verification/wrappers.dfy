/** Failure-carrying results shared by every module of the model.

    The web handlers of the console report failure by raising an HTTP
    exception with a status code and a detail message; `Result` carries
    exactly that pair. */
module Wrappers {

  datatype Option<+T> = None | Some(value: T)

  /** An HTTP error as raised by a handler: status code and detail text. */
  datatype HttpError = HttpError(status: int, detail: string)

  datatype Result<+T> = Ok(value: T) | Err(error: HttpError) {

    predicate IsFailure() {
      Err?
    }

    function PropagateFailure<U>(): Result<U>
      requires Err?
    {
      Err(error)
    }

    function Extract(): T
      requires Ok?
    {
      value
    }

    /** The status code of a failed result, 200 for a success. */
    function Status(): int {
      if Ok? then 200 else error.status
    }
  }

  const BadRequest := 400
  const Unauthorized := 401
  const Forbidden := 403
  const NotFound := 404
  const Gone := 410
  const UnprocessableEntity := 422
  const TooManyRequests := 429
  const InternalServerError := 500

  /** What the web framework answers when a handler raises an exception it
      does not catch. */
  const Uncaught := HttpError(InternalServerError, "Internal Server Error")
}
