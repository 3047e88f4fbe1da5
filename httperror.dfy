/**
  The error values of pkg/httperror/error.go: an HTTP status, a machine-readable code, a
  human-readable message and optional details, with New's defaults and the fixed-status
  constructors the handlers use.
 */
module HttpError {

  /** The details an error may carry. The only details the core attaches are those of the
      login's pending second factor: the intermediate token and when it is said to expire. */
  datatype Details = NoDetails | OtpChallenge(jwt: string, expiresAt: int)

  datatype Error = Error(status: int, code: string, message: string, details: Details)

  const StatusAccepted := 202
  const StatusNoContent := 204
  const StatusBadRequest := 400
  const StatusUnauthorized := 401
  const StatusNotFound := 404
  const StatusConflict := 409
  const StatusUnprocessableEntity := 422
  const StatusInternalServerError := 500

  /** The statuses the named constructors fix. */
  predicate KnownStatus(status: int) {
    status in {StatusAccepted, StatusNoContent, StatusBadRequest, StatusUnauthorized,
               StatusNotFound, StatusConflict, StatusUnprocessableEntity,
               StatusInternalServerError}
  }

  /** http.StatusText for the statuses of the named constructors; "" for the others. */
  function StatusText(status: int): (text: string)
    ensures KnownStatus(status) <==> text != ""
  {
    if status == StatusAccepted then "Accepted"
    else if status == StatusNoContent then "No Content"
    else if status == StatusBadRequest then "Bad Request"
    else if status == StatusUnauthorized then "Unauthorized"
    else if status == StatusNotFound then "Not Found"
    else if status == StatusConflict then "Conflict"
    else if status == StatusUnprocessableEntity then "Unprocessable Entity"
    else if status == StatusInternalServerError then "Internal Server Error"
    else ""
  }

  /** New: a zero status becomes 500, an empty code "internal_server_error" and an empty
      message the standard text of the final status; everything else is kept as given. */
  function New(status: int, code: string, message: string, details: Details): (e: Error)
    ensures e.status != 0 && e.code != ""
    ensures status != 0 ==> e.status == status
    ensures status == 0 ==> e.status == StatusInternalServerError
    ensures code != "" ==> e.code == code
    ensures code == "" ==> e.code == "internal_server_error"
    ensures message != "" ==> e.message == message
    ensures message == "" ==> e.message == StatusText(e.status)
    ensures e.details == details
  {
    var s := if status == 0 then StatusInternalServerError else status;
    var c := if code == "" then "internal_server_error" else code;
    var m := if message == "" then StatusText(s) else message;
    Error(s, c, m, details)
  }

  /** An error New built is left as it is by New: the defaults are applied once. */
  lemma NewIdempotent(status: int, code: string, message: string, details: Details)
    ensures var e := New(status, code, message, details);
      New(e.status, e.code, e.message, e.details) == e
  {
    var e := New(status, code, message, details);
    if message == "" {
      assert e.message == StatusText(e.status);
    }
  }

  /** With a status the core uses, the message is never empty. */
  lemma MessageNeverEmpty(status: int, code: string, message: string, details: Details)
    requires status == 0 || KnownStatus(status)
    ensures New(status, code, message, details).message != ""
  {
  }

  function BadRequest(code: string, message: string, details: Details): Error {
    New(StatusBadRequest, code, message, details)
  }

  function Unauthorized(code: string, message: string, details: Details): Error {
    New(StatusUnauthorized, code, message, details)
  }

  function Conflict(code: string, message: string, details: Details): Error {
    New(StatusConflict, code, message, details)
  }

  function NotFound(code: string, message: string, details: Details): Error {
    New(StatusNotFound, code, message, details)
  }

  function InternalServerError(code: string, message: string, details: Details): Error {
    New(StatusInternalServerError, code, message, details)
  }

  function UnprocessableEntity(code: string, message: string, details: Details): Error {
    New(StatusUnprocessableEntity, code, message, details)
  }

  function NoContent(code: string, message: string, details: Details): Error {
    New(StatusNoContent, code, message, details)
  }

  function Accepted(code: string, message: string, details: Details): Error {
    New(StatusAccepted, code, message, details)
  }

  /** Each named constructor fixes its status, and keeps a non-empty code and message. */
  lemma NamedConstructors(code: string, message: string, details: Details)
    requires code != "" && message != ""
    ensures BadRequest(code, message, details) == Error(400, code, message, details)
    ensures Unauthorized(code, message, details) == Error(401, code, message, details)
    ensures Conflict(code, message, details) == Error(409, code, message, details)
    ensures NotFound(code, message, details) == Error(404, code, message, details)
    ensures InternalServerError(code, message, details) == Error(500, code, message, details)
    ensures UnprocessableEntity(code, message, details) == Error(422, code, message, details)
    ensures NoContent(code, message, details) == Error(204, code, message, details)
    ensures Accepted(code, message, details) == Error(202, code, message, details)
  {
  }

  /** Error(): the code, a colon and a space, then the message. */
  function Text(e: Error): (s: string)
    ensures |s| == |e.code| + 2 + |e.message|
    ensures s[..|e.code|] == e.code && s[|e.code|..|e.code| + 2] == ": "
    ensures s[|e.code| + 2..] == e.message
  {
    e.code + ": " + e.message
  }
}
