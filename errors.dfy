/**
 * Errors thrown inside a handler and the HTTP responses the handlers send.
 * A JavaScript `Error` is reduced to the three properties the core reads:
 * `name`, `message` and the driver's numeric `code`.
 */
module Errors {
  import opened Options

  datatype Error = Error(name: string, message: string, code: Option<int>)

  /** `new Error(message)`: name "Error", no code. */
  function PlainError(message: string): Error {
    Error("Error", message, None)
  }

  /** The MongoDB driver's duplicate-key error code. */
  const DuplicateKeyCode: int := 11000

  /** The user-facing text for a duplicate e-mail or user name. */
  const DuplicateMessage: string := "Email or username already exists"

  /** A JSON body as sent by `res.json(...)`: `{error}`, `{message}` or `{token}`. */
  datatype Body = ErrorBody(error: string) | MessageBody(message: string) | TokenBody(token: string)

  /** `res.status(status).json(body)`. */
  datatype Response = Response(status: int, body: Body)
}
