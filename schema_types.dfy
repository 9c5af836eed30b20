/** The data classes of schemas.py: the request and response records, the
    status and trigger enums and the scheduled job itself. */
module SchemaTypes {
  import opened Base
  import TimestampTZ

  datatype APIRequest = APIRequest(
    url: string,
    httpMethod: string,
    headers: Option<map<string, string>>,
    body: Json)

  /** The seven job states; `Value` is the enum member's `.value`. */
  datatype JobStatus =
    | Pending
    | Active
    | Paused
    | CompletedSuccessful
    | CompletedRequestError
    | CompletedResponseError
    | CompletedWarning
  {
    function Value(): string {
      match this
      case Pending => "pending"
      case Active => "active"
      case Paused => "paused"
      case CompletedSuccessful => "completed-successful"
      case CompletedRequestError => "completed-request-error"
      case CompletedResponseError => "completed-response-error"
      case CompletedWarning => "completed-warning"
    }
  }

  datatype TriggerType = OneTime | Cron

  /** A trigger as reported to clients: its kind and its fields. */
  datatype Trigger = Trigger(triggerType: TriggerType, fields: map<string, string>)

  datatype APIResponse = APIResponse(statusCode: int, headers: map<string, string>, body: Json)

  datatype JobResult = JobResult(
    completedAt: TimestampTZ.DateTime,
    errorMessage: Option<string>,
    response: APIResponse)

  /** The field values of a `ScheduledJob`. */
  datatype JobSnapshot = JobSnapshot(
    id: string,
    name: Option<string>,
    createdAt: TimestampTZ.DateTime,
    nextRunTime: Option<TimestampTZ.DateTime>,
    status: JobStatus,
    trigger: Trigger,
    request: APIRequest,
    result: Option<JobResult>)

  /** The job description handed to the scheduler and updated in place by
      `parse_job` and `run_job`. */
  class ScheduledJob {
    var id: string
    var name: Option<string>
    var createdAt: TimestampTZ.DateTime
    var nextRunTime: Option<TimestampTZ.DateTime>
    var status: JobStatus
    var trigger: Trigger
    var request: APIRequest
    var result: Option<JobResult>

    constructor (s: JobSnapshot)
      ensures Snapshot() == s
    {
      id, name, createdAt, nextRunTime := s.id, s.name, s.createdAt, s.nextRunTime;
      status, trigger, request, result := s.status, s.trigger, s.request, s.result;
    }

    function Snapshot(): JobSnapshot
      reads this
    {
      JobSnapshot(id, name, createdAt, nextRunTime, status, trigger, request, result)
    }
  }
}
