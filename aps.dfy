/** The objects of the scheduling library as the repository's code sees them:
    a job with its trigger, positional and keyword arguments and its
    `next_run_time` attribute. How the library computes run times is not
    part of this model. */
module Aps {
  import opened Base
  import TimestampTZ

  /** One field of a cron trigger: its name, `str(field)`, and whether it
      still holds the field's default expression. */
  datatype CronField = CronField(name: string, text: string, isDefault: bool)

  datatype Trigger =
    | DateTrigger(runDate: TimestampTZ.DateTime)
    | CronTrigger(fields: seq<CronField>)

  /** The `next_run_time` attribute: not yet set on a job the scheduler has not
      scheduled; once set, a datetime, or `None` while the job is paused. */
  datatype NextRunTime = Unset | Set(value: Option<TimestampTZ.DateTime>)

  datatype Job<A, K> = Job(
    id: string,
    nextRunTime: NextRunTime,
    trigger: Trigger,
    args: seq<A>,
    kwargs: map<string, K>)
}
