/** pydantic_models.py, the older variant of the schemas: the same URL and cron
    validators, a three-valued status, a looser one-time validator and a job
    conversion that reads the request from the job's positional arguments. */
module PydanticModels {
  import opened Base
  import TimestampTZ
  import UrlSplit
  import PySplit
  import Aps
  import Schemas

  datatype APIRequest = APIRequest(
    url: string,
    httpMethod: string,
    headers: map<string, string>,
    body: Json)

  /** `APIRequest.validate_url`: word for word the rule of schemas.py. */
  function ValidateUrl(url: string): (r: Result<string>)
    ensures r.Ok? <==> UrlSplit.StartsWithHttpAuthority(UrlSplit.Clean(url))
    ensures r.Ok? ==> r.value == url
    ensures r.Err? ==> r.error == ValueError("Invalid URL: " + url)
  {
    Schemas.ValidateUrl(url)
  }

  /** Only the three live states exist in this variant. */
  datatype JobStatus = Pending | Active | Paused {
    function Value(): string {
      match this
      case Pending => "pending"
      case Active => "active"
      case Paused => "paused"
    }
  }

  datatype TriggerType = OneTime | Cron

  datatype Trigger = Trigger(triggerType: TriggerType, fields: map<string, string>)

  function GetNextRunTime<A, K>(job: Aps.Job<A, K>): Option<TimestampTZ.DateTime> {
    match job.nextRunTime
    case Unset => None
    case Set(t) => t
  }

  /** `get_job_status`, the same three-way derivation. */
  function GetJobStatus<A, K>(job: Aps.Job<A, K>): (r: JobStatus)
    ensures r == Pending <==> job.nextRunTime.Unset?
    ensures r == Active <==> GetNextRunTime(job).Some?
    ensures r != Active ==> GetNextRunTime(job) == None
  {
    if job.nextRunTime.Set? then
      (if job.nextRunTime.value.Some? then Active else Paused)
    else Pending
  }

  /** Both files derive the same status for every job. */
  lemma StatusAgreesWithSchemas<A, K>(job: Aps.Job<A, K>)
    ensures GetJobStatus(job).Value() == Schemas.GetJobStatus(job).Value()
  {
  }

  datatype ScheduledJob = ScheduledJob(
    id: string,
    nextRunTime: Option<TimestampTZ.DateTime>,
    status: JobStatus,
    trigger: Trigger,
    request: APIRequest)

  /** The positional arguments jobs are created with: a timestamp, then the request. */
  datatype JobArg =
    | ArgTime(time: TimestampTZ.DateTime)
    | ArgRequest(request: APIRequest)
    | ArgOther

  /** `job.trigger is DateTrigger` compares a trigger instance with the class
      object itself, which it never is. */
  predicate IsDateTriggerClass(trigger: Aps.Trigger) {
    false
  }

  /** `ScheduledJob.parse_job`. Arguments are evaluated in order: `job.args[1]`
      fails on a job with fewer than two arguments; the trigger type is always
      CRON; reading `.fields` fails on a date trigger, which has none; finally
      the model rejects a second argument that is not a request. */
  function ParseJob<K>(job: Aps.Job<JobArg, K>): (r: Result<ScheduledJob>)
    ensures r.Ok? <==> |job.args| >= 2 && job.trigger.CronTrigger? && job.args[1].ArgRequest?
    ensures r.Ok? ==>
      && r.value.id == job.id
      && r.value.request == job.args[1].request
      && r.value.nextRunTime == GetNextRunTime(job)
      && r.value.status == GetJobStatus(job)
      && r.value.trigger.triggerType == Cron
      && r.value.trigger.fields == Schemas.NonDefaultFields(job.trigger.fields)
    ensures |job.args| >= 2 && job.trigger.DateTrigger? ==> r == Err(AttributeError("fields"))
  {
    if |job.args| < 2 then Err(IndexError("tuple index out of range"))
    else
      var triggerType := if IsDateTriggerClass(job.trigger) then OneTime else Cron;
      match job.trigger
      case DateTrigger(_) => Err(AttributeError("fields"))
      case CronTrigger(fields) =>
        if !job.args[1].ArgRequest? then Err(ValidationError("request"))
        else
          Ok(ScheduledJob(job.id, GetNextRunTime(job), GetJobStatus(job),
                          Trigger(triggerType, Schemas.NonDefaultFields(fields)), job.args[1].request))
  }

  /** `parse_job` as evidently intended, with `isinstance(job.trigger,
      DateTrigger)` and the date trigger's only field, as schemas.py's
      `parse_trigger` reports it. */
  function ParseJobIntended<K>(job: Aps.Job<JobArg, K>): Result<ScheduledJob> {
    if |job.args| < 2 then Err(IndexError("tuple index out of range"))
    else if !job.args[1].ArgRequest? then Err(ValidationError("request"))
    else
      var trigger := match job.trigger
        case DateTrigger(runDate) => Trigger(OneTime, map["date" := TimestampTZ.Encode(runDate)])
        case CronTrigger(fields) => Trigger(Cron, Schemas.NonDefaultFields(fields));
      Ok(ScheduledJob(job.id, GetNextRunTime(job), GetJobStatus(job), trigger, job.args[1].request))
  }

  /** Every job this module's callers create (a timestamp and a request as
      arguments) converts, and the reported trigger type is ONE_TIME exactly
      for a date trigger, whose run date reads back from the `date` field. */
  lemma IntendedParseJobReportsKind<K>(job: Aps.Job<JobArg, K>)
    requires |job.args| >= 2 && job.args[1].ArgRequest?
    ensures ParseJobIntended(job).Ok?
    ensures ParseJobIntended(job).value.trigger.triggerType == OneTime <==> job.trigger.DateTrigger?
    ensures job.trigger.DateTrigger? ==>
      TimestampTZ.Decode(ParseJobIntended(job).value.trigger.fields["date"]) == Ok(job.trigger.runDate)
    ensures job.trigger.CronTrigger? ==> ParseJobIntended(job) == ParseJob(job)
  {
    if job.trigger.DateTrigger? {
      TimestampTZ.RoundTrip(job.trigger.runDate);
    }
  }

  datatype OneTimeTriggerCreate = OneTimeTriggerCreate(delay: Option<int>, date: Option<Schemas.Instant>)

  const EitherMessage := "Either delay or date must be provided"

  /** The looser validator: it rejects only a trigger with neither field;
      both together are accepted. */
  function CheckDelayOrDate(t: OneTimeTriggerCreate): (r: Result<OneTimeTriggerCreate>)
    ensures r.Ok? <==> t.delay.Some? || t.date.Some?
    ensures r.Ok? ==> r.value == t
    ensures r.Err? ==> r.error == ValueError(EitherMessage)
  {
    if t.delay.None? && t.date.None? then Err(ValueError(EitherMessage)) else Ok(t)
  }

  /** `run_date`, with the naive local clock reading `now`. */
  function RunDate(t: OneTimeTriggerCreate, now: Schemas.Instant): Result<Schemas.Instant> {
    if t.delay.Some? && t.delay.value != 0 then Schemas.AddSeconds(now, t.delay.value)
    else if t.date.Some? then Ok(t.date.value)
    else Err(PlainException(EitherMessage))
  }

  /** `run_date` of a validated trigger: a non-zero delay wins over a date
      given alongside it and is added to `now`; a zero or missing delay falls
      back to the date; it fails exactly for a zero delay without a date or a
      delay that leaves the datetime range. */
  lemma ValidatedRunDate(t: OneTimeTriggerCreate, now: Schemas.Instant)
    requires CheckDelayOrDate(t).Ok?
    ensures t.delay.Some? && t.delay.value != 0 ==>
      RunDate(t, now) == Schemas.AddSeconds(now, t.delay.value) &&
      (RunDate(t, now).Ok? ==> RunDate(t, now).value == now + t.delay.value * Schemas.MicrosPerSecond)
    ensures (t.delay.None? || t.delay == Some(0)) && t.date.Some? ==> RunDate(t, now) == Ok(t.date.value)
    ensures t.delay == Some(0) && t.date.None? ==> RunDate(t, now) == Err(PlainException(EitherMessage))
    ensures RunDate(t, now).Err? <==>
      (t.delay == Some(0) && t.date.None?) ||
      (t.delay.Some? && t.delay.value != 0 && Schemas.AddSeconds(now, t.delay.value).Err?)
  {
  }

  const CronMessage := Schemas.CronMessage

  /** `validate_cron`: word for word the five-field count of schemas.py. */
  function ValidateCron(cron: string): (r: Result<string>)
    ensures r.Ok? <==> PySplit.WordStarts(cron, true) == 5
    ensures r.Ok? ==> r.value == cron
    ensures r.Err? ==> r.error == ValueError(CronMessage)
  {
    Schemas.ValidateCron(cron)
  }
}
