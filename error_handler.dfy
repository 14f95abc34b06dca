/** The error object the handlers pass to `next(err)` and the final
    Express error handler that turns it into `{ error: { code, message, details? } }`. */
module ErrorHandler {
  import opened Common

  /** Where an error comes from: one raised by this code, a MulterError with
      its `code` and `field`, or a database error with its numeric `code`. */
  datatype ErrorKind = Plain | Multer(multerCode: string, field: string) | Mongo(mongoCode: int)

  /** An `AppError`: `statusCode` and `errorCode` are optional and modelled
      with 0 and "" as their falsy values, `details` likewise with "";
      `message` is `None` for a thrown value that has no message at all. */
  datatype AppError = AppError(
    statusCode: int,
    errorCode: string,
    message: Option<string>,
    details: string,
    kind: ErrorKind)

  /** The `new Error(message)` with `statusCode` and `errorCode` set that
      every handler builds before calling `next(err)`. */
  function Raise(status: int, code: string, message: string): AppError {
    AppError(status, code, Some(message), "", Plain)
  }

  /** What an Express handler does: send a JSON response, or pass an error on. */
  datatype Reply<+T> = Send(status: int, body: T) | Next(err: AppError)

  /** A success body that is only `{ message }`. */
  datatype Message = Message(message: string)

  datatype ErrorBody = ErrorBody(code: string, message: string, details: Option<string>)

  datatype ErrorResponse = ErrorResponse(status: int, error: ErrorBody)

  /** `errorHandler`: status, code and message fall back to 500,
      'INTERNAL_SERVER_ERROR' and 'Internal Server Error' when falsy, and the
      body has a `details` key exactly when `err.details` is truthy. */
  function Render(err: AppError): (r: ErrorResponse)
    ensures r.status != 0 && r.error.code != "" && r.error.message != ""
    ensures err.statusCode != 0 ==> r.status == err.statusCode
    ensures err.statusCode == 0 ==> r.status == 500
    ensures err.errorCode != "" ==> r.error.code == err.errorCode
    ensures err.errorCode == "" ==> r.error.code == "INTERNAL_SERVER_ERROR"
    ensures Truthy(err.message) ==> r.error.message == err.message.value
    ensures !Truthy(err.message) ==> r.error.message == "Internal Server Error"
    ensures r.error.details.Some? <==> err.details != ""
    ensures r.error.details.Some? ==> r.error.details.value == err.details
  {
    ErrorResponse(
      if err.statusCode != 0 then err.statusCode else 500,
      ErrorBody(
        if err.errorCode != "" then err.errorCode else "INTERNAL_SERVER_ERROR",
        if Truthy(err.message) then err.message.value else "Internal Server Error",
        if err.details != "" then Some(err.details) else None))
  }

  /** `notFound`: the catch-all for unmatched routes. */
  function NotFound(): (err: AppError)
    ensures Render(err) == ErrorResponse(404, ErrorBody("NOT_FOUND", "Not Found", None))
  {
    Raise(404, "NOT_FOUND", "Not Found")
  }

  /** An error raised by a handler reaches the client exactly as raised. */
  lemma RenderRaised(status: int, code: string, message: string)
    requires status != 0 && code != "" && message != ""
    ensures Render(Raise(status, code, message)) == ErrorResponse(status, ErrorBody(code, message, None))
  {
  }

  /** A foreign error (a database or library error without status or code)
      becomes a 500 INTERNAL_SERVER_ERROR that still carries its message. */
  lemma RenderForeign(err: AppError)
    requires err.statusCode == 0 && err.errorCode == ""
    ensures Render(err).status == 500
    ensures Render(err).error.code == "INTERNAL_SERVER_ERROR"
  {
  }
}
