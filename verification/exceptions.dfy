/**
 * The error translator: the three exception handlers registered on the
 * application, as one total function from a failure to the status and body
 * of the error response. The body carries a message and a `statusCode`;
 * the name of the JSON key that holds the message is not part of the model.
 */
module Exceptions {

  /** The three categories of failure the handlers are registered for. */
  datatype Failure =
    | HttpException(statusCode: int, detail: string)  // raised deliberately by a handler
    | DatabaseError(text: string)                     // anything the store or session raises
    | UnexpectedError(text: string)                   // any other exception

  /** An error response: its HTTP status and the two fields of its body. */
  datatype ErrorReply = ErrorReply(status: int, message: string, statusCode: int)

  const DatabaseErrorMessage := "Database error occurred"
  const InternalErrorMessage := "Internal Server Error"

  /** `http_exception_handler`, `database_exception_handler` and
      `global_exception_handler`; the logging they do is left out. */
  function Translate(e: Failure): (r: ErrorReply)
    ensures r.statusCode == r.status
    ensures e.HttpException? ==> r.status == e.statusCode && r.message == e.detail
    ensures e.DatabaseError? ==> r.status == 500 && r.message == DatabaseErrorMessage
    ensures e.UnexpectedError? ==> r.status == 500 && r.message == InternalErrorMessage
  {
    match e
    case HttpException(s, d) => ErrorReply(s, d, s)
    case DatabaseError(_) => ErrorReply(500, DatabaseErrorMessage, 500)
    case UnexpectedError(_) => ErrorReply(500, InternalErrorMessage, 500)
  }

  /** An HTTP exception's status and detail can be read back from its
      response: they pass through verbatim and are not merged. */
  lemma HttpExceptionPassesThrough(s: int, d: string, s': int, d': string)
    ensures Translate(HttpException(s, d)) == Translate(HttpException(s', d')) <==> s == s' && d == d'
  {
  }

  /** A database or unexpected failure's own text never reaches the
      response: two such failures of one category give the same response,
      whatever their texts. */
  lemma InternalTextNotExposed(a: string, b: string)
    ensures Translate(DatabaseError(a)) == Translate(DatabaseError(b))
    ensures Translate(UnexpectedError(a)) == Translate(UnexpectedError(b))
  {
  }
}
