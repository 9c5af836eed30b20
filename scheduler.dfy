/** scheduler.py: what a scheduled run does once the scheduler fires it. The
    HTTP exchange and the clock are inputs. */
module Scheduler {
  import opened Base
  import TimestampTZ
  import opened SchemaTypes
  import Models
  import Crud

  /** What `response.json()` gives: a decoded value, or the message of the
      exception it raises. */
  datatype Body = Decoded(value: Json) | Undecodable(message: string)

  /** How `requests.request` came back: it raised, or there is a response. */
  datatype HttpOutcome =
    | Raised(message: string)
    | Responded(statusCode: int, headers: map<string, string>, body: Body)

  /** `Response.ok`: false exactly for client and server error codes. */
  predicate ResponseOk(statusCode: int) {
    !(400 <= statusCode < 600)
  }

  /** `APIResponse(status_code=500)`, recorded while no response is known. */
  const DefaultResponse := APIResponse(500, map[], JNull)

  datatype Classification = Classification(status: JobStatus, errorMessage: Option<string>, response: APIResponse)

  /** The status, error message and response a run ends with. A run has an
      error message exactly when it ended as a request error, and then keeps
      the placeholder response; otherwise the response read is recorded and
      its code decides between success and response error. A run never ends
      as a warning. */
  function Classify(outcome: HttpOutcome): (c: Classification)
    ensures c.status in {CompletedSuccessful, CompletedRequestError, CompletedResponseError}
    ensures c.errorMessage.Some? <==> c.status == CompletedRequestError
    ensures c.status == CompletedRequestError <==> outcome.Raised? || outcome.body.Undecodable?
    ensures c.status == CompletedRequestError ==> c.response == DefaultResponse
    ensures outcome.Raised? ==> c.errorMessage == Some(outcome.message)
    ensures outcome.Responded? && outcome.body.Undecodable? ==> c.errorMessage == Some(outcome.body.message)
    ensures outcome.Responded? && outcome.body.Decoded? ==>
      && c.response == APIResponse(outcome.statusCode, outcome.headers, outcome.body.value)
      && (c.status == CompletedSuccessful <==> ResponseOk(outcome.statusCode))
  {
    match outcome
    case Raised(m) => Classification(CompletedRequestError, Some(m), DefaultResponse)
    case Responded(code, headers, body) =>
      match body
      case Undecodable(m) => Classification(CompletedRequestError, Some(m), DefaultResponse)
      case Decoded(v) =>
        Classification(if ResponseOk(code) then CompletedSuccessful else CompletedResponseError, None,
                       APIResponse(code, headers, v))
  }

  /** `run_job`: performs the request, records its status and result on the
      job in place and archives the job. A failure to archive is reported and
      swallowed, so the table either gains exactly the job's row or stays as
      it was. `now` is the UTC clock reading; `databaseUp` says whether a
      session can be opened and committed at all. */
  method RunJob(jobInfo: ScheduledJob, archive: Crud.Archive, outcome: HttpOutcome,
                now: TimestampTZ.DateTime, databaseUp: bool)
    requires archive.Valid() && TimestampTZ.IsUtc(now)
    modifies jobInfo, archive
    ensures archive.Valid()
    ensures var c := Classify(outcome);
      jobInfo.Snapshot() == old(jobInfo.Snapshot()).(status := c.status,
                                                       result := Some(JobResult(now, c.errorMessage, c.response)))
    ensures var row := Crud.RecordOf(jobInfo.Snapshot());
      archive.rows == if !databaseUp || Models.KeyTaken(old(archive.rows), Models.Key(row)) then old(archive.rows)
                      else old(archive.rows) + [row]
    ensures Crud.UtcColumn(Crud.RecordOf(jobInfo.Snapshot()).completedAt)
  {
    var status := CompletedRequestError;
    var errorMessage: Option<string> := None;
    var apiResponse := DefaultResponse;
    match outcome {
      case Raised(m) =>
        errorMessage := Some(m);
      case Responded(code, headers, body) =>
        match body {
          case Undecodable(m) =>
            errorMessage := Some(m);
          case Decoded(v) =>
            apiResponse := APIResponse(code, headers, v);
            if ResponseOk(code) {
              status := CompletedSuccessful;
            } else {
              status := CompletedResponseError;
            }
        }
    }
    jobInfo.status := status;
    jobInfo.result := Some(JobResult(now, errorMessage, apiResponse));
    if databaseUp {
      var _ := archive.CreateCompletedJob(jobInfo);
    }
    Crud.RecordOfUtc(jobInfo.Snapshot());
  }
}
