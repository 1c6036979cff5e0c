/**
 * The HTTP error mapper: every error that reaches a handler becomes one
 * JSON body `{error, message}` with a status chosen by the sentinels the
 * error wraps. Internal errors are logged and their text is hidden from
 * the client.
 */
module Classify {
  import opened Domain

  const StatusBadRequest: nat := 400
  const StatusUnauthorized: nat := 401
  const StatusNotFound: nat := 404
  const StatusInternalServerError: nat := 500

  /** `http.StatusText` for the statuses used here. */
  function StatusText(code: nat): string
  {
    if code == StatusBadRequest then "Bad Request"
    else if code == StatusUnauthorized then "Unauthorized"
    else if code == StatusNotFound then "Not Found"
    else if code == StatusInternalServerError then "Internal Server Error"
    else ""
  }

  datatype ErrorResponse = ErrorResponse(error: string, message: string)

  /** One error-level log record: the request id and the error's text. */
  datatype LogEntry = LogEntry(requestId: string, error: string)

  /** What `HandleError` writes, and what it logs. */
  datatype Reply = Reply(status: nat, body: ErrorResponse, logged: Option<LogEntry>)

  /**
   * `HandleError`: a wrapped not-found sentinel is 404, else a wrapped
   * invalid-input sentinel is 400, with the error's own text as message;
   * anything else is 500 with a fixed message, and the error is logged.
   */
  function HandleError(err: Error, requestId: string): (r: Reply)
    ensures r.status == StatusNotFound <==> Is(err, QuestionNotFound) || Is(err, AnswerNotFound)
    ensures r.status == StatusBadRequest <==>
      !Is(err, QuestionNotFound) && !Is(err, AnswerNotFound) && Is(err, InvalidInput)
    ensures r.status == StatusInternalServerError <==>
      !Is(err, QuestionNotFound) && !Is(err, AnswerNotFound) && !Is(err, InvalidInput)
    ensures r.body.error == StatusText(r.status) && r.body.error != ""
    ensures r.status != StatusInternalServerError ==> r.body.message == err.text && r.logged == None
    ensures r.status == StatusInternalServerError ==>
      r.body.message == "internal server error" && r.logged == Some(LogEntry(requestId, err.text))
  {
    if Is(err, QuestionNotFound) || Is(err, AnswerNotFound) then
      Reply(StatusNotFound, ErrorResponse(StatusText(StatusNotFound), err.text), None)
    else if Is(err, InvalidInput) then
      Reply(StatusBadRequest, ErrorResponse(StatusText(StatusBadRequest), err.text), None)
    else
      Reply(StatusInternalServerError, ErrorResponse(StatusText(StatusInternalServerError), "internal server error"),
            Some(LogEntry(requestId, err.text)))
  }

  /** Wrapping with `%w` never changes the status an error gets. */
  lemma WrappingKeepsStatus(context: string, err: Error, requestId: string)
    ensures HandleError(Wrapf(context, err), requestId).status == HandleError(err, requestId).status
  {
  }

  /** Clients cannot tell internal errors apart: all of them get the same status and body. */
  lemma InternalErrorsLookAlike(e1: Error, e2: Error, id1: string, id2: string)
    requires HandleError(e1, id1).status == StatusInternalServerError
    requires HandleError(e2, id2).status == StatusInternalServerError
    ensures HandleError(e1, id1).body == HandleError(e2, id2).body
  {
  }

  /** Invalid input is 400 and echoes the sentinel's text followed by the detail. */
  lemma InvalidInputIsBadRequest(detail: string, requestId: string)
    ensures HandleError(Invalid(detail), requestId) ==
      Reply(400, ErrorResponse("Bad Request", "invalid input data: " + detail), None)
  {
  }
}
