/** A handler's reply, and the error value that reaches Express's
    error-handling middleware. */
module Http {

  /** A status code with either the JSON body of a success or the
      `error`/`message` string of a failure. */
  datatype Reply<T> = Ok(status: int, value: T) | Err(status: int, message: string)

  /** The reply every controller's `catch` block sends. */
  const ServerError := "Server error"

  /** A thrown JavaScript error: its `name`, its `code` ("" when it has none)
      and its `message`. */
  datatype AppError = AppError(name: string, code: string, message: string)
}
