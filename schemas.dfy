/** The validators, status derivation and conversions of schemas.py. */
module Schemas {
  import opened Base
  import TimestampTZ
  import UrlSplit
  import PySplit
  import Aps
  import Models
  import opened SchemaTypes

  // ------------------------------------------------------------ APIRequest

  /** `APIRequest.validate_url`: the URL is returned unchanged when its scheme is
      `http` or `https` and its netloc is non-empty, and rejected otherwise. */
  function ValidateUrl(url: string): (r: Result<string>)
    ensures r.Ok? <==> UrlSplit.StartsWithHttpAuthority(UrlSplit.Clean(url))
    ensures r.Ok? ==> r.value == url
    ensures r.Err? ==> r.error == ValueError("Invalid URL: " + url)
  {
    UrlSplit.HttpRuleOnText(url);
    var parts := UrlSplit.Split(url);
    if (parts.scheme == "http" || parts.scheme == "https") && parts.netloc != "" then Ok(url)
    else Err(ValueError("Invalid URL: " + url))
  }

  // ------------------------------------------------------------ JobStatus

  /** `JobStatus(value)`: the member whose `.value` is `value`, if any. */
  function StatusFromValue(value: string): (r: Option<JobStatus>)
    ensures r.Some? ==> r.value.Value() == value
    ensures r.None? ==> forall s: JobStatus :: s.Value() != value
  {
    if value == "pending" then Some(Pending)
    else if value == "active" then Some(Active)
    else if value == "paused" then Some(Paused)
    else if value == "completed-successful" then Some(CompletedSuccessful)
    else if value == "completed-request-error" then Some(CompletedRequestError)
    else if value == "completed-response-error" then Some(CompletedResponseError)
    else if value == "completed-warning" then Some(CompletedWarning)
    else None
  }

  /** The seven values are distinct, so a status survives the trip through
      its string value. */
  lemma StatusValueRoundTrip(s: JobStatus)
    ensures StatusFromValue(s.Value()) == Some(s)
  {
  }

  // ------------------------------------------------------------ live job status

  /** `get_next_run_time`: the job's `next_run_time`, or `None` when unset. */
  function GetNextRunTime<A, K>(job: Aps.Job<A, K>): Option<TimestampTZ.DateTime> {
    match job.nextRunTime
    case Unset => None
    case Set(t) => t
  }

  /** `get_job_status`: PENDING before the scheduler has set `next_run_time`,
      ACTIVE when it holds a time, PAUSED when it holds `None`. */
  function GetJobStatus<A, K>(job: Aps.Job<A, K>): (r: JobStatus)
    ensures r == Pending || r == Active || r == Paused
    ensures r == Pending <==> job.nextRunTime.Unset?
    ensures r == Active <==> GetNextRunTime(job).Some?
    ensures r != Active ==> GetNextRunTime(job) == None
  {
    if job.nextRunTime.Set? then
      (if job.nextRunTime.value.Some? then Active else Paused)
    else Pending
  }

  // ------------------------------------------------------------ triggers

  /** `{f.name: str(f) for f in fields if not f.is_default}`. */
  function NonDefaultFields(fields: seq<Aps.CronField>): map<string, string> {
    if fields == [] then map[]
    else
      var f := fields[|fields| - 1];
      var m := NonDefaultFields(fields[..|fields| - 1]);
      if f.isDefault then m else m[f.name := f.text]
  }

  /** The keys are the names of the non-default fields. */
  lemma {:induction false} NonDefaultFieldsKeys(fields: seq<Aps.CronField>)
    ensures NonDefaultFields(fields).Keys == set f | f in fields && !f.isDefault :: f.name
  {
    if fields != [] {
      var init := fields[..|fields| - 1];
      NonDefaultFieldsKeys(init);
      assert fields == init + [fields[|fields| - 1]];
    }
  }

  /** A name maps to the text of the last non-default field with that name:
      later fields overwrite earlier ones. */
  lemma {:induction false} NonDefaultFieldsValues(fields: seq<Aps.CronField>, i: nat)
    requires i < |fields| && !fields[i].isDefault
    requires forall j :: i < j < |fields| && !fields[j].isDefault ==> fields[j].name != fields[i].name
    ensures fields[i].name in NonDefaultFields(fields)
    ensures NonDefaultFields(fields)[fields[i].name] == fields[i].text
  {
    var last := |fields| - 1;
    if i < last {
      var init := fields[..last];
      NonDefaultFieldsValues(init, i);
    }
  }

  /** `parse_trigger`: a date trigger is reported as ONE_TIME with the single
      field `date`, holding the isoformat of its run date; any other trigger as
      CRON with its non-default fields. */
  function ParseTrigger(trigger: Aps.Trigger): (r: Trigger)
    ensures trigger.DateTrigger? ==>
      && r.triggerType == OneTime
      && r.fields.Keys == {"date"}
      && TimestampTZ.Decode(r.fields["date"]) == Ok(trigger.runDate)
    ensures trigger.CronTrigger? ==>
      && r.triggerType == Cron
      && r.fields == NonDefaultFields(trigger.fields)
      && r.fields.Keys == set f | f in trigger.fields && !f.isDefault :: f.name
  {
    match trigger
    case DateTrigger(runDate) =>
      TimestampTZ.RoundTrip(runDate);
      Trigger(OneTime, map["date" := TimestampTZ.Encode(runDate)])
    case CronTrigger(fields) =>
      var m := NonDefaultFields(fields);
      NonDefaultFieldsKeys(fields);
      Trigger(Cron, m)
  }

  /** The last instant a datetime can hold, 9999-12-31T23:59:59.999999, in
      microseconds since 0001-01-01T00:00:00 (day 3652059 is its last day). */
  const MaxInstant: int := 3652059 * 86400 * 1000000 - 1

  /** Points in time during trigger construction: datetimes, as microseconds
      since 0001-01-01T00:00:00 on the clock in use. */
  type Instant = i: int | 0 <= i <= MaxInstant

  const MicrosPerSecond := 1000000

  /** The largest day count a `timedelta` holds. */
  const MaxTimedeltaDays := 999999999

  const TimedeltaOverflow := OverflowError("timedelta days out of range")
  const DateOverflow := OverflowError("date value out of range")

  /** `timedelta(seconds=d)` can be built: its day count, rounded down, is in range. */
  predicate TimedeltaFits(d: int) {
    -MaxTimedeltaDays <= d / 86400 <= MaxTimedeltaDays
  }

  /** `now + timedelta(seconds=d)`: the timedelta must exist and the sum must
      still be a datetime; otherwise `OverflowError`. */
  function AddSeconds(now: Instant, d: int): (r: Result<Instant>)
    ensures r.Ok? <==> TimedeltaFits(d) && now + d * MicrosPerSecond <= MaxInstant && now + d * MicrosPerSecond >= 0
    ensures r.Ok? ==> r.value == now + d * MicrosPerSecond
    ensures r.Err? ==> r.error.OverflowError?
  {
    if !TimedeltaFits(d) then Err(TimedeltaOverflow)
    else if 0 <= now + d * MicrosPerSecond <= MaxInstant then Ok(now + d * MicrosPerSecond)
    else Err(DateOverflow)
  }

  /** Adding no time always succeeds. */
  lemma AddNothing(now: Instant)
    ensures AddSeconds(now, 0) == Ok(now)
  {
  }

  /** A delay of 10^12 seconds leaves the datetime range from any starting point. */
  lemma FarDelayOverflows(now: Instant)
    ensures AddSeconds(now, 1000000000000).Err?
  {
  }

  datatype OneTimeTriggerCreate = OneTimeTriggerCreate(delay: Option<int>, date: Option<Instant>)

  const EitherMessage := "Either delay or date must be provided"
  const OnlyOneMessage := "Only one of delay or date can be provided"

  /** The model validator: exactly one of `delay` and `date` must be given. */
  function CheckDelayOrDate(t: OneTimeTriggerCreate): (r: Result<OneTimeTriggerCreate>)
    ensures r.Ok? <==> (t.delay.Some? <==> t.date.None?)
    ensures r.Ok? ==> r.value == t
    ensures t.delay.None? && t.date.None? ==> r == Err(ValueError(EitherMessage))
    ensures t.delay.Some? && t.date.Some? ==> r == Err(ValueError(OnlyOneMessage))
  {
    if t.delay.None? && t.date.None? then Err(ValueError(EitherMessage))
    else if t.delay.Some? && t.date.Some? then Err(ValueError(OnlyOneMessage))
    else Ok(t)
  }

  /** `run_date`: a truthy (non-zero) delay counts from `now`; otherwise a date
      is returned as it is; otherwise the base `Exception` is raised. */
  function RunDate(t: OneTimeTriggerCreate, now: Instant): Result<Instant> {
    if t.delay.Some? && t.delay.value != 0 then AddSeconds(now, t.delay.value)
    else if t.date.Some? then Ok(t.date.value)
    else Err(PlainException(EitherMessage))
  }

  /** For a trigger the validator accepted: a date is returned as it is, a
      non-zero delay is added to `now`, and the run date fails exactly for a
      zero delay (the base `Exception`) or a delay that leaves the datetime
      range (`OverflowError`). */
  lemma ValidatedRunDate(t: OneTimeTriggerCreate, now: Instant)
    requires CheckDelayOrDate(t).Ok?
    ensures t.date.Some? ==> RunDate(t, now) == Ok(t.date.value)
    ensures t.delay.Some? && t.delay.value != 0 ==>
      RunDate(t, now) == AddSeconds(now, t.delay.value) &&
      (RunDate(t, now).Ok? ==> RunDate(t, now).value == now + t.delay.value * MicrosPerSecond)
    ensures t.delay == Some(0) ==> RunDate(t, now) == Err(PlainException(EitherMessage))
    ensures RunDate(t, now).Err? <==>
      t.delay == Some(0) || (t.delay.Some? && AddSeconds(now, t.delay.value).Err?)
  {
  }

  /** `delay = 0` without a date passes the validator, since 0 is not None,
      and then makes `run_date` raise, since 0 is falsy. */
  lemma ZeroDelayPassesThenRaises(now: Instant)
    ensures CheckDelayOrDate(OneTimeTriggerCreate(Some(0), None)).Ok?
    ensures RunDate(OneTimeTriggerCreate(Some(0), None), now) == Err(PlainException(EitherMessage))
  {
  }

  /** `run_date` as the validator evidently intends it: a present delay, zero
      included, counts from `now`. */
  function RunDateIntended(t: OneTimeTriggerCreate, now: Instant): Result<Instant> {
    if t.delay.Some? then AddSeconds(now, t.delay.value)
    else if t.date.Some? then Ok(t.date.value)
    else Err(PlainException(EitherMessage))
  }

  /** With the intended reading a validated trigger fails only on overflow; a
      zero delay means "now"; on every other trigger it agrees with
      `run_date`. */
  lemma IntendedRunDateDefined(t: OneTimeTriggerCreate, now: Instant)
    requires CheckDelayOrDate(t).Ok?
    ensures RunDateIntended(t, now).Err? ==> RunDateIntended(t, now).error.OverflowError?
    ensures t.delay == Some(0) ==> RunDateIntended(t, now) == Ok(now)
    ensures RunDateIntended(t, now) == RunDate(t, now) || t.delay == Some(0)
  {
    if t.delay == Some(0) {
      AddNothing(now);
    }
  }

  const CronMessage := "Invalid cron expression. You can check https://crontab.guru/ for help"

  /** `validate_cron`: only counts fields; the expression is returned as it is
      when whitespace splitting gives exactly five of them. */
  function ValidateCron(cron: string): (r: Result<string>)
    ensures r.Ok? <==> PySplit.WordStarts(cron, true) == 5
    ensures r.Ok? ==> r.value == cron
    ensures r.Err? ==> r.error == ValueError(CronMessage)
  {
    PySplit.SplitCountsWordStarts(cron);
    if |PySplit.Split(cron)| == 5 then Ok(cron) else Err(ValueError(CronMessage))
  }

  // ------------------------------------------------------------ ScheduledJob

  /** `ScheduledJob.parse_job`: takes the `job_info` keyword argument of the
      scheduler's job and overwrites its `next_run_time` and `status` in place;
      every other field keeps its value. A job without `job_info` raises. */
  method ParseJob<A>(job: Aps.Job<A, ScheduledJob>) returns (r: Result<ScheduledJob>)
    modifies if "job_info" in job.kwargs then {job.kwargs["job_info"]} else {}
    ensures "job_info" !in job.kwargs ==> r == Err(KeyError("job_info"))
    ensures "job_info" in job.kwargs ==>
      var info := job.kwargs["job_info"];
      && r == Ok(info)
      && info.Snapshot() == old(info.Snapshot()).(nextRunTime := GetNextRunTime(job), status := GetJobStatus(job))
  {
    if "job_info" !in job.kwargs {
      return Err(KeyError("job_info"));
    }
    var info := job.kwargs["job_info"];
    info.nextRunTime := GetNextRunTime(job);
    info.status := GetJobStatus(job);
    r := Ok(info);
  }

  /** Validating a stored request dump re-runs the URL validator. */
  function LoadRequest(dump: APIRequest): (r: Result<APIRequest>)
    ensures r.Ok? <==> ValidateUrl(dump.url).Ok?
    ensures r.Ok? ==> r.value == dump
  {
    match ValidateUrl(dump.url)
    case Ok(_) => Ok(dump)
    case Err(e) => Err(ValidationError(e.message))
  }

  /** `ScheduledJob.parse_db_job`: a stored row read back as a job. Both
      timestamp columns are decoded, the status string must be a status value,
      the request must pass validation again; the result is then filled from
      the row's result columns and `next_run_time` stays `None`. */
  function ParseDbJob(row: Models.CompletedJob): (r: Result<JobSnapshot>)
    ensures r.Ok? <==>
      && TimestampTZ.Decode(row.completedAt).Ok?
      && TimestampTZ.Decode(row.createdAt).Ok?
      && StatusFromValue(row.status).Some?
      && ValidateUrl(row.request.url).Ok?
    ensures r.Ok? ==>
      && r.value.id == row.id && r.value.name == row.name
      && r.value.nextRunTime == None
      && r.value.status.Value() == row.status
      && r.value.trigger == row.trigger && r.value.request == row.request
      && r.value.result.Some?
      && TimestampTZ.Decode(row.completedAt) == Ok(r.value.result.value.completedAt)
      && TimestampTZ.Decode(row.createdAt) == Ok(r.value.createdAt)
      && r.value.result.value.errorMessage == row.errorMessage
      && r.value.result.value.response == row.response
  {
    var completedAt :- TimestampTZ.Decode(row.completedAt);
    var createdAt :- TimestampTZ.Decode(row.createdAt);
    var status :- match StatusFromValue(row.status)
                  case Some(s) => Ok(s)
                  case None => Err(ValidationError("'" + row.status + "' is not a valid JobStatus"));
    var request :- LoadRequest(row.request);
    Ok(JobSnapshot(row.id, row.name, createdAt, None, status, row.trigger, request,
                   Some(JobResult(completedAt, row.errorMessage, row.response))))
  }
}
