/** Responses as the routes send them: a status code and a payload. Each
    payload constructor is one JSON body shape of the service; fixed texts
    the body always carries are the constants below. */
module Http {
  import opened Base
  import opened Types
  import opened Store
  import opened HistoryService
  import opened AggregationService

  /** What became of one SQL statement: it completed, or the database
      reported an error with this message. */
  datatype QueryOutcome = Completes | Fails(message: string)

  datatype Payload =
      /** `{message: "Validation failed", errors: [{path, message}]}` */
    | ValidationFailed(errors: seq<Issue>)
      /** `{message}` of a refused ingestion */
    | Blocked(message: string)
      /** `{status: "ok"}`, with a `message` when the event was a duplicate */
    | Recorded(note: Option<string>)
      /** `{message, userId, deletedRecords}` of an erasure */
    | Erased(message: string, userId: string, deletedRecords: nat)
    | HistoryPage(userId: string, total: nat, limit: nat, offset: nat, items: seq<HistoryItem>)
    | Ranking(from: string, to: string, stats: seq<ContentStat>)
      /** `{error}` of a failed insert */
    | IngestFailure(error: string)
      /** `{message, details}` of a failed erasure */
    | EraseFailure(message: string, details: string)
      /** `{message, statusCode}` from the application-wide error handler */
    | ServerError(message: string, statusCode: int)

  datatype Response = Response(status: int, payload: Payload)

  /** The state after a request and the response sent for it. */
  datatype Step = Step(store: Store, response: Response)

  const IngestionBlocked := "User data previously deleted under GDPR. Ingestion blocked."
  const DuplicateIgnored := "Duplicate event ignored (idempotent)"
  const UserDataDeleted := "User data deleted under GDPR"
  const IngestErrorText := "[ERROR] Internal server error"
  const InternalServerError := "Internal Server Error"

  function Invalid(issues: seq<Issue>): Response {
    Response(400, ValidationFailed(issues))
  }

  /** The application-wide handler for an error a route does not catch.
      Database errors carry no status code, so the status is 500; the body
      repeats the error's message, or a generic one when it is empty. */
  function Unhandled(message: string): (r: Response)
    ensures r.status == 500 && r.payload.ServerError? && r.payload.statusCode == 500
    ensures r.payload.message == (if message == "" then InternalServerError else message)
  {
    Response(500, ServerError(if message == "" then InternalServerError else message, 500))
  }
}
