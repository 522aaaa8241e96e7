/** The status-and-detail pairs raised as `HTTPException` and turned into HTTP responses. */
module Http {

  /** An error as it reaches the client: an HTTP status code and a detail message. */
  datatype Error = Error(status: nat, detail: string)

  const BAD_REQUEST: nat := 400
  const UNAUTHORIZED: nat := 401
  const NOT_FOUND: nat := 404

  function BadRequest(detail: string): Error { Error(BAD_REQUEST, detail) }
  function Unauthorized(detail: string): Error { Error(UNAUTHORIZED, detail) }
  function NotFound(detail: string): Error { Error(NOT_FOUND, detail) }

  /** What the framework answers when an exception that is not an `HTTPException` escapes a handler,
      such as a database integrity error, a `KeyError` or a `TypeError`. */
  const INTERNAL_SERVER_ERROR := Error(500, "Internal Server Error")
}
