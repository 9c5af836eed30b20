# resona-api in Dafny

resona-api is a small HTTP service for scheduling callbacks. A client registers
a job: a request (URL, method, headers, JSON body) plus a trigger, which is a
one-time delay or date, or a five-field cron expression. A background scheduler
fires the job. Each firing performs the request, classifies the outcome, and
archives a completed-job record in a `completed_jobs` table. The archive can be
listed newest first or looked up by job id.

This project models the layer the repository itself contains around the
scheduling library. It covers:

- the request, trigger and status rules of `schemas.py`, and their older
  variant in `pydantic_models.py`;
- the outcome classification and archive write of `run_job`;
- the archive operations of `crud.py`;
- the row shape, composite key and timestamp column of `models.py`.

It proves what these promise: the validators' acceptance conditions, the status
derivation, the run-date choice, the outcome invariants, the archive's key
invariant, the read-back of an archived job, page ordering and length, and the
timestamp encoding's round trip and order.

Modules, one per file:

| module | file | models |
|---|---|---|
| `Base` | base.dfy | `Option`, `Result`, the Python exceptions raised, opaque JSON values |
| `Lexical` | lexical.dfy | the string order of a string-backed column (binary collation) |
| `TimestampTZ` | timestamp_tz.dfy | `datetime` values; `isoformat` (`Encode`) and `fromisoformat` (`Decode`) |
| `PySplit` | py_split.dfy | `str.split()` with no argument |
| `UrlSplit` | url_split.dfy | the scheme and netloc that `urlparse` extracts |
| `Aps` | aps.dfy | the scheduler library's job and trigger objects, as the code reads them |
| `SchemaTypes` | schema_types.dfy | the data classes of `schemas.py`; `ScheduledJob` as a class, because it is updated in place |
| `Models` | models.dfy | the `CompletedJob` row and its key `(id, completed_at)` |
| `Schemas` | schemas.dfy | the functions of `schemas.py` |
| `PydanticModels` | pydantic_models.dfy | the older variant of `pydantic_models.py` |
| `Crud` | crud.dfy | the `completed_jobs` table, as class `Archive` holding its rows, and the queries |
| `Scheduler` | scheduler.dfy | `run_job` |

Inputs such as the clock, the HTTP exchange, and whether the database is
reachable become parameters:

- **Clock.** `now` in `Scheduler.RunJob`. In `RunDate` it is a count of
  microseconds from 0001-01-01T00:00:00, bounded by the last instant a
  datetime can hold.
- **HTTP outcome.** The request either raised, or returned a status code,
  headers and a body that decodes as JSON or raises.
- **Database.** A boolean says whether the database can be reached.

Three behaviours of the code are easy to misread:

- `get_completed_job` applies no ordering and returns the first matching row the
  query yields. It is not necessarily the most recent run. `Crud.GetCompletedJob`
  promises only some row with that id.
- A request that fails, or whose body is not JSON, leaves the placeholder
  response on the job: status code 500, no headers, no body.
- A response counts as ok unless its code is in `400..599`, as
  `requests.Response.ok` decides. A code of 600 or more is ok.

## Model

| member | source | states |
|---|---|---|
| Schemas.ValidateUrl | src/schemas.py:20-26 | a URL is accepted iff its scheme (letters first, lower-cased) is `http` or `https` and a non-empty authority follows `//`; then it is returned unchanged, otherwise `ValueError("Invalid URL: …")` |
| UrlSplit.HttpRuleOnText | src/schemas.py:23-24 | urlparse's scheme in {http, https} with non-empty netloc holds exactly when the cleaned URL starts with `http://` or `https://` (any case) followed by a character that does not end the authority |
| Schemas.StatusFromValue | src/schemas.py:29-36 | a string maps back to a status only if that status has it as its value; no status has a string that maps to nothing |
| Schemas.StatusValueRoundTrip | src/schemas.py:29-36 | the seven values are distinct: mapping a status to its value and back gives the status |
| Schemas.GetJobStatus | src/schemas.py:49-56 | PENDING exactly when the job has no `next_run_time` attribute, ACTIVE exactly when it has a set one, otherwise PAUSED; only these three, and when not ACTIVE the next run time reported is None |
| Schemas.NonDefaultFieldsKeys | src/schemas.py:67 | the cron field map's keys are exactly the names of the non-default fields |
| Schemas.NonDefaultFieldsValues | src/schemas.py:67 | a non-default field not overridden by a later one of the same name maps to its text |
| Schemas.ParseTrigger | src/schemas.py:59-68 | a date trigger becomes ONE_TIME with the single key `date`, whose value decodes back to the run date; any other trigger becomes CRON with the non-default fields' map, whose keys are the non-default field names |
| Schemas.CheckDelayOrDate | src/schemas.py:116-122 | accepted iff exactly one of delay and date is present, unchanged; neither present and both present raise their own messages |
| Schemas.AddSeconds | src/schemas.py:126 | `now + timedelta(seconds=d)` succeeds iff the timedelta's day count is in range and the sum is still a datetime, and then is now plus d seconds; otherwise OverflowError |
| Schemas.FarDelayOverflows | src/schemas.py:126 | a delay of 10^12 seconds overflows from every starting point |
| Schemas.ValidatedRunDate | src/schemas.py:124-129 | for an accepted trigger: a date is returned as is, a non-zero delay is added to now, and run_date fails exactly for delay 0 (the base Exception) or a delay that leaves the datetime range (OverflowError) |
| Schemas.ZeroDelayPassesThenRaises | src/schemas.py:116-129 | delay 0 without a date passes the validator and makes run_date raise |
| Schemas.IntendedRunDateDefined | src/schemas.py:124-129 | with a present delay counting as a delay, an accepted trigger fails only with OverflowError; delay 0 means now; otherwise it agrees with run_date |
| Schemas.ValidateCron | src/schemas.py:138-145 | accepted iff the string has exactly five maximal runs of non-whitespace, returned unchanged, otherwise the crontab.guru ValueError |
| PySplit.Split | src/schemas.py:141 | every token of `split()` is non-empty and holds no whitespace |
| PySplit.SplitCountsWordStarts | src/schemas.py:141 | the number of tokens equals the number of places where non-whitespace follows whitespace or the start |
| PySplit.SplitKeepsNonSpace | src/schemas.py:141 | the tokens, joined, are the string with its whitespace removed |
| Schemas.ParseJob | src/schemas.py:95-100 | takes the `job_info` keyword argument, raising KeyError without one, and overwrites only its next_run_time and status with the derived values |
| Schemas.LoadRequest | src/schemas.py:104 | validating a stored request succeeds iff its URL is valid, and then keeps the request unchanged |
| Schemas.ParseDbJob | src/schemas.py:102-106 | a row reads back iff both timestamp columns decode, the status is a status value and the URL is valid; it then carries every column into the job, the timestamps decoded, the result filled, and next_run_time None |
| PydanticModels.ValidateUrl | src/pydantic_models.py:18-24 | the same http/https-plus-authority rule, with the URL returned unchanged |
| PydanticModels.GetJobStatus | src/pydantic_models.py:43-50 | the three-way derivation, PENDING / ACTIVE / PAUSED |
| PydanticModels.StatusAgreesWithSchemas | src/pydantic_models.py:27-30 | both variants derive the status with the same value for every job |
| PydanticModels.ParseJob | src/pydantic_models.py:61-75 | converts iff the job has two arguments, the second a request, and a cron trigger; id and request come from `job.id` and `job.args[1]`; the trigger type is always CRON and the fields are the non-default fields' map; a date trigger raises AttributeError on `fields` |
| PydanticModels.IntendedParseJobReportsKind | src/pydantic_models.py:67-74 | with an isinstance test, ONE_TIME is reported exactly for date triggers, whose `date` field decodes to the run date; cron jobs convert as before |
| PydanticModels.CheckDelayOrDate | src/pydantic_models.py:82-86 | rejects only when both fields are absent; both present is accepted |
| PydanticModels.ValidatedRunDate | src/pydantic_models.py:88-93 | a non-zero delay wins over a date and is added to now; delay 0 or none with a date gives the date; it fails exactly for delay 0 without a date or a delay that leaves the datetime range |
| PydanticModels.ValidateCron | src/pydantic_models.py:104-109 | accepted iff there are exactly five whitespace-separated tokens, returned unchanged |
| Scheduler.Classify | src/scheduler.py:17-39 | never COMPLETED_WARNING; an error message exactly for COMPLETED_REQUEST_ERROR, which happens exactly when the request raised or the body was not JSON, and then carries the message and keeps the 500 placeholder; otherwise the real code, headers and body, and COMPLETED_SUCCESSFUL exactly for an ok code |
| Scheduler.RunJob | src/scheduler.py:16-53 | sets the job's status and a result with the given time, message and response, and changes nothing else on it; then one archive write: the table gains exactly the job's row, or stays unchanged when the database is down or the key is taken; the key invariant holds throughout |
| Crud.Archive.CreateCompletedJob | src/crud.py:23-40 | no result: ValueError and the table unchanged; a taken key: IntegrityError and unchanged; otherwise exactly the job's row is appended, with the job's fields copied, and the returned row is that row |
| Crud.RecordOfCopies | src/crud.py:26-36 | the row holds id, name, trigger, request, error message and response unchanged, the status's value, and timestamp strings that decode to the job's times |
| Crud.ArchivedJobReadsBack | src/crud.py:26-36 | a job with a result and a valid URL, archived and read back by parse_db_job, is the same job with next_run_time None |
| Crud.RecordKeyIdentifiesRun | src/models.py:28-29 | two archived rows share a key exactly when they are the same job id completed at the same datetime |
| Models.AppendKeepsKeysUnique | src/models.py:28-29 | adding a row whose key is not taken keeps the keys unique |
| Crud.SortDescSortsAndPermutes | src/crud.py:15 | the descending ordering by `completed_at` is sorted newest first and a permutation of the rows |
| Crud.PageRows | src/crud.py:12-18 | the page has max(0, min(limit, n - skip)) rows, newest first, all taken from the table |
| Crud.FirstPageIsNewest | src/crud.py:13-18 | no row left off the first page is newer than a row on it |
| Crud.PagesConcatenate | src/crud.py:15-17 | the `skip` rows the offset drops, followed by the page, are the first `skip + limit` rows of the descending order |
| Crud.SkippedRowsAreNewer | src/crud.py:15-16 | every skipped row is at least as new as every row on the page |
| Crud.DefaultPage | src/crud.py:12 | the default arguments give the 100 newest rows, or all rows when there are fewer |
| Crud.PageChronological | src/crud.py:15 | when all completion times are UTC, every page is in chronological order, newest first |
| Crud.RecordOfUtc | src/scheduler.py:43 | a row archived with a UTC completion time has a canonical UTC column value |
| Crud.ConvertAll | src/crud.py:20 | the list comprehension yields one parsed job per row, in order, or raises what the first failing row raises |
| Crud.GetCompletedJobs | src/crud.py:12-20 | the result is the page's rows parsed one by one, or the first parse error |
| Crud.FindFirst | src/crud.py:7 | None iff no row has the id; otherwise a row of the table with that id |
| Crud.GetCompletedJob | src/crud.py:6-9 | None iff no row has the id; otherwise a row with that id, parsed, or the error parsing it raises |
| Crud.ArchivedJobIsFound | src/crud.py:6-9 | after an archive write, looking up the job's id does not give None |
| TimestampTZ.Decode | src/models.py:21-22 | fromisoformat either gives a datetime or raises ValueError (its text is not modelled, see below) |
| TimestampTZ.RoundTrip | src/models.py:13-22 | the isoformat string of a datetime reads back as that datetime |
| TimestampTZ.EncodeInjective | src/models.py:18-19 | distinct datetimes are stored as distinct strings |
| TimestampTZ.EncodeOrder | src/models.py:14-19 | for datetimes with the same offset, the column's string order is chronological order |
| TimestampTZ.PadOrder | src/models.py:18-19 | zero-padded numbers of one width compare as strings as they compare as numbers |
| TimestampTZ.PadRoundTrip | src/models.py:18-22 | a zero-padded number reads back as the number |
| Lexical.LessTotal | src/crud.py:15 | any two distinct strings are ordered one way or the other |
| Lexical.LessTransitive | src/crud.py:15 | the string order is transitive |
| Lexical.LessAsymmetric | src/crud.py:15 | the string order is asymmetric |

## Left out

- The scheduling library is not modelled: next-run computation, cron semantics,
  the job store and pause/resume. Its job and trigger objects appear only as
  the fields the code reads.
- The HTTP exchange itself is not modelled. It is the `HttpOutcome` parameter,
  and the exceptions it raises are represented by their `str()` text.
- Database sessions, `commit`/`refresh` and pickling are not modelled. The
  archive is the class `Crud.Archive` holding the rows in storage order; a
  commit that fails for an unknown reason is the `databaseUp` parameter.
- The order among rows with equal `completed_at` is left open by the database;
  `Crud.SortDesc` fixes one.
- Crud.GetCompletedJob: promises some row with the id, not a particular one,
  because the query's order is up to the database.
- Negative `skip` or `limit` are not modelled; both are natural numbers.
- `Unicode(191)` is not modelled: the id column's length is not enforced.
- urlparse is modelled only as far as scheme and netloc go. The model covers
  stripping leading control characters and spaces, removing tab, CR and LF,
  the scheme syntax, and the authority up to `/`, `?` or `#`. It does not
  model the check of IPv6 brackets in the netloc, or the `ValueError` that
  urlparse raises for malformed brackets. It also does not model the NFKC check
  of a non-ASCII netloc: a netloc whose NFKC form contains `/`, `?`, `#`, `@`
  or `:` raises `ValueError` (for example `http://\u2100/`, which normalises
  to `a/c`). Both `ValidateUrl` members accept such a URL.
- TimestampTZ.Decode: accepts the forms `isoformat` writes. Any separator
  after the date is allowed, fractions have six digits, and offsets are
  `±HH:MM` or `±HH:MM:SS`. Python's wider `fromisoformat` input (`Z`, the basic
  format, shorter fractions) is not modelled, and neither are sub-second
  offsets.
- TimestampTZ.Decode: the text of its `ValueError` is not modelled. The model
  uses one fixed message. CPython writes `Invalid isoformat string: '<text>'`
  with the input quoted by `repr`, and reports an out-of-range field with the
  datetime constructor's own message, such as `month must be in 1..12`.
- Schemas.ParseDbJob: decodes the timestamps of one row, then validates it,
  then moves to the next row. In the source, `process_result_value` decodes the
  timestamp columns of every fetched row while the query loads them, before
  any row is validated. So when one row has an unknown status and a later row
  a malformed timestamp, the source raises the decode `ValueError` and the
  model the `ValidationError`. Rows written by `create_completed_job` never
  have either defect.
- Schemas.AddSeconds: models the `OverflowError` of `timedelta` and of the
  datetime sum, but not its text. CPython's `timedelta` message includes the
  day count.
- `datetime.now` and time zones are not modelled. The clock is a parameter: a
  UTC datetime in `RunJob`, and a microsecond count within the datetime range
  in `RunDate`. The naive local `now` of the older variant is the same count.
- `create_trigger` (the DateTrigger and CronTrigger constructors) and the
  routers, `app.py` and `main.py` are not part of this model.
- The `print` on a failed archive write is not modelled.
- JSON bodies are opaque values.

## Findings

| source | as written | input that shows it | evidently intended | confidence | as-written member | corrected member |
|---|---|---|---|---|---|---|
| src/schemas.py:124-129 | `run_date` tests the delay for truthiness while the validator tests it against None, so a delay of 0 passes validation and then raises | `OneTimeTriggerCreate(delay=0)` | a delay of 0 runs the job now | not executed | Schemas.ZeroDelayPassesThenRaises | Schemas.IntendedRunDateDefined |
| src/pydantic_models.py:67-73 | `job.trigger is DateTrigger` compares an instance with the class, which is always false; `job.trigger.fields` then raises for a date trigger, which has no fields | a job with a `DateTrigger` and two arguments | `isinstance`, and the date as the only field, as in src/schemas.py:59-68 | not executed | PydanticModels.ParseJob | PydanticModels.IntendedParseJobReportsKind |
