/** Failure-carrying datatypes shared by the three services.

    A FastAPI handler either returns a value or raises an `HTTPException`
    carrying a status code and a detail text; `Result` is that choice made
    explicit. `Outcome` is the same for a block run only for its effect (the
    body of a `try`).
 */
module Wrappers {

  datatype Option<+T> = None | Some(value: T)

  /** An `HTTPException(status_code=status, detail=detail)`. */
  datatype HttpError = HttpError(status: int, detail: string)

  /** What a handler produces: the value it returns, or the exception it raises. */
  datatype Result<+T> = Ok(value: T) | Raised(error: HttpError)

  /** What a statement block produces: it finishes normally, or it raises. */
  datatype Outcome = Pass | Fail(error: HttpError)

  const BadRequest := 400
  const NotFound := 404
}
