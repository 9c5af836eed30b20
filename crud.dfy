/** crud.py: the archive of completed runs and the queries over it. */
module Crud {
  import opened Base
  import TimestampTZ
  import Lexical
  import opened SchemaTypes
  import Models
  import Schemas

  const ResultRequiredMessage := "Job result is required to create a completed job"

  const DuplicateKeyMessage := "UNIQUE constraint failed: completed_jobs.id, completed_jobs.completed_at"

  /** The row `create_completed_job` builds from a job with a result: the
      timestamps as their column strings, the status as its enum value, the
      result's fields spread over their own columns. */
  function RecordOf(s: JobSnapshot): Models.CompletedJob
    requires s.result.Some?
  {
    var result := s.result.value;
    Models.CompletedJob(s.id, TimestampTZ.Encode(result.completedAt), s.name,
                        TimestampTZ.Encode(s.createdAt), s.status.Value(), result.errorMessage,
                        s.trigger, s.request, result.response)
  }

  /** `row` holds the fields of `s`: the same id, name, trigger, request,
      error message and response, the status's value, and column strings that
      read back as the job's timestamps. */
  predicate Copies(row: Models.CompletedJob, s: JobSnapshot)
    requires s.result.Some?
  {
    && row.id == s.id && row.name == s.name
    && row.trigger == s.trigger && row.request == s.request
    && Schemas.StatusFromValue(row.status) == Some(s.status)
    && TimestampTZ.Decode(row.createdAt) == Ok(s.createdAt)
    && TimestampTZ.Decode(row.completedAt) == Ok(s.result.value.completedAt)
    && row.errorMessage == s.result.value.errorMessage
    && row.response == s.result.value.response
  }

  lemma RecordOfCopies(s: JobSnapshot)
    requires s.result.Some?
    ensures Copies(RecordOf(s), s)
  {
    TimestampTZ.RoundTrip(s.result.value.completedAt);
    TimestampTZ.RoundTrip(s.createdAt);
    Schemas.StatusValueRoundTrip(s.status);
  }

  /** A job that is archived and read back by `parse_db_job` is the same job,
      except that `next_run_time`, which is not stored, comes back empty. */
  lemma ArchivedJobReadsBack(s: JobSnapshot)
    requires s.result.Some? && Schemas.ValidateUrl(s.request.url).Ok?
    ensures Schemas.ParseDbJob(RecordOf(s)) == Ok(s.(nextRunTime := None))
  {
    TimestampTZ.RoundTrip(s.result.value.completedAt);
    TimestampTZ.RoundTrip(s.createdAt);
    Schemas.StatusValueRoundTrip(s.status);
  }

  /** Two runs of the same job collide in the archive exactly when they
      completed at the same instant, written the same way. */
  lemma RecordKeyIdentifiesRun(s: JobSnapshot, s': JobSnapshot)
    requires s.result.Some? && s'.result.Some?
    ensures Models.Key(RecordOf(s)) == Models.Key(RecordOf(s')) <==>
      s.id == s'.id && s.result.value.completedAt == s'.result.value.completedAt
  {
    var a, b := s.result.value.completedAt, s'.result.value.completedAt;
    if TimestampTZ.Encode(a) == TimestampTZ.Encode(b) {
      TimestampTZ.EncodeInjective(a, b);
    }
  }

  /** The `completed_jobs` table, as the sequence of its rows in storage order. */
  class Archive {
    var rows: seq<Models.CompletedJob>

    /** The primary key is enforced by the database. */
    predicate Valid()
      reads this
    {
      Models.KeysUnique(rows)
    }

    constructor ()
      ensures rows == [] && Valid()
    {
      rows := [];
    }

    /** `create_completed_job`: a job without a result is refused; a row whose
        key is already taken makes the commit fail and leaves the table as it
        was; otherwise exactly that row is added. */
    method CreateCompletedJob(job: ScheduledJob) returns (r: Result<Models.CompletedJob>)
      requires Valid()
      modifies this
      ensures Valid()
      ensures job.result.None? ==> r == Err(ValueError(ResultRequiredMessage)) && rows == old(rows)
      ensures job.result.Some? ==>
        var row := RecordOf(job.Snapshot());
        if Models.KeyTaken(old(rows), Models.Key(row)) then
          r == Err(IntegrityError(DuplicateKeyMessage)) && rows == old(rows)
        else
          r == Ok(row) && rows == old(rows) + [row]
    ensures r.Ok? ==> job.result.Some? && Copies(r.value, job.Snapshot())
    {
      if job.result.None? {
        return Err(ValueError(ResultRequiredMessage));
      }
      var row := RecordOf(job.Snapshot());
      if Models.KeyTaken(rows, Models.Key(row)) {
        return Err(IntegrityError(DuplicateKeyMessage));
      }
      Models.AppendKeepsKeysUnique(rows, row);
      RecordOfCopies(job.Snapshot());
      rows := rows + [row];
      r := Ok(row);
    }
  }

  // ------------------------------------------------------------- ordering

  /** Newest first by the `completed_at` column's string order. */
  predicate SortedDesc(rows: seq<Models.CompletedJob>) {
    forall i, j :: 0 <= i < j < |rows| ==> !Lexical.Less(rows[i].completedAt, rows[j].completedAt)
  }

  /** One step of the `ORDER BY completed_at DESC` ordering. */
  function Insert(x: Models.CompletedJob, s: seq<Models.CompletedJob>): seq<Models.CompletedJob> {
    if s == [] then [x]
    else if !Lexical.Less(x.completedAt, s[0].completedAt) then [x] + s
    else [s[0]] + Insert(x, s[1..])
  }

  function SortDesc(rows: seq<Models.CompletedJob>): seq<Models.CompletedJob> {
    if rows == [] then [] else Insert(rows[0], SortDesc(rows[1..]))
  }

  lemma {:induction false} InsertPermutes(x: Models.CompletedJob, s: seq<Models.CompletedJob>)
    ensures multiset(Insert(x, s)) == multiset{x} + multiset(s)
    decreases |s|
  {
    if s != [] && Lexical.Less(x.completedAt, s[0].completedAt) {
      InsertPermutes(x, s[1..]);
      assert s == [s[0]] + s[1..];
    }
  }

  lemma {:induction false} InsertSorted(x: Models.CompletedJob, s: seq<Models.CompletedJob>)
    requires SortedDesc(s)
    ensures SortedDesc(Insert(x, s))
    decreases |s|
  {
    if s == [] {
    } else if !Lexical.Less(x.completedAt, s[0].completedAt) {
      var t := [x] + s;
      forall i, j | 0 <= i < j < |t|
        ensures !Lexical.Less(t[i].completedAt, t[j].completedAt)
      {
        if i == 0 && j > 1 {
          Lexical.NotLessTransitive(x.completedAt, s[0].completedAt, s[j - 1].completedAt);
        }
      }
    } else {
      var rest := Insert(x, s[1..]);
      InsertSorted(x, s[1..]);
      InsertPermutes(x, s[1..]);
      var t := [s[0]] + rest;
      Lexical.LessAsymmetric(x.completedAt, s[0].completedAt);
      forall i, j | 0 <= i < j < |t|
        ensures !Lexical.Less(t[i].completedAt, t[j].completedAt)
      {
        if i == 0 {
          var y := rest[j - 1];
          assert y in multiset(rest);
          if y != x {
            assert y in multiset(s[1..]);
            var k :| 0 <= k < |s[1..]| && s[1..][k] == y;
            assert s[k + 1] == y;
          }
        }
      }
    }
  }

  /** The ordering puts the rows newest first and keeps every row. */
  lemma {:induction false} SortDescSortsAndPermutes(rows: seq<Models.CompletedJob>)
    ensures SortedDesc(SortDesc(rows))
    ensures multiset(SortDesc(rows)) == multiset(rows)
    decreases |rows|
  {
    if rows != [] {
      SortDescSortsAndPermutes(rows[1..]);
      InsertSorted(rows[0], SortDesc(rows[1..]));
      InsertPermutes(rows[0], SortDesc(rows[1..]));
      assert rows == [rows[0]] + rows[1..];
    }
  }

  // ---------------------------------------------------------------- queries

  const DefaultSkip: nat := 0
  const DefaultLimit: nat := 100

  function Min(a: int, b: int): int {
    if a <= b then a else b
  }

  /** The rows of `get_completed_jobs`: newest first, `skip` of them passed
      over, at most `limit` returned. */
  function PageRows(rows: seq<Models.CompletedJob>, skip: nat, limit: nat): (r: seq<Models.CompletedJob>)
    ensures |r| == if skip >= |rows| then 0 else Min(limit, |rows| - skip)
    ensures SortedDesc(r)
    ensures multiset(r) <= multiset(rows)
  {
    SortDescSortsAndPermutes(rows);
    var sorted := SortDesc(rows);
    assert |sorted| == |multiset(sorted)| == |multiset(rows)| == |rows|;
    var lo := Min(skip, |sorted|);
    var hi := Min(lo + limit, |sorted|);
    SliceSorted(sorted, lo, hi);
    SliceSubMultiset(sorted, lo, hi);
    sorted[lo..hi]
  }

  lemma SliceSorted(s: seq<Models.CompletedJob>, lo: nat, hi: nat)
    requires lo <= hi <= |s| && SortedDesc(s)
    ensures SortedDesc(s[lo..hi])
  {
  }

  lemma SliceSubMultiset(s: seq<Models.CompletedJob>, lo: nat, hi: nat)
    requires lo <= hi <= |s|
    ensures multiset(s[lo..hi]) <= multiset(s)
  {
    assert s == s[..lo] + s[lo..hi] + s[hi..];
  }

  /** The first page holds the newest rows: no row left off it is newer than
      a row on it. */
  lemma FirstPageIsNewest(rows: seq<Models.CompletedJob>, limit: nat, x: Models.CompletedJob, y: Models.CompletedJob)
    requires x in PageRows(rows, 0, limit)
    requires y in multiset(rows) - multiset(PageRows(rows, 0, limit))
    ensures !Lexical.Less(x.completedAt, y.completedAt)
  {
    SortDescSortsAndPermutes(rows);
    var sorted := SortDesc(rows);
    var hi := Min(limit, |sorted|);
    var page := sorted[0..hi];
    assert sorted == page + sorted[hi..];
    assert multiset(sorted) == multiset(page) + multiset(sorted[hi..]);
    assert y in multiset(sorted[hi..]);
    var i :| 0 <= i < |page| && page[i] == x;
    var j :| 0 <= j < |sorted[hi..]| && sorted[hi..][j] == y;
    assert sorted[i] == x && sorted[hi + j] == y;
  }

  /** `.offset(skip).limit(limit)` cuts the one descending order: the rows
      skipped followed by the page are the first `skip + limit` rows. */
  lemma PagesConcatenate(rows: seq<Models.CompletedJob>, skip: nat, limit: nat)
    ensures PageRows(rows, 0, skip) + PageRows(rows, skip, limit) == PageRows(rows, 0, skip + limit)
  {
    var sorted := SortDesc(rows);
    SortDescLength(rows);
    PageIsSlice(rows, 0, skip);
    PageIsSlice(rows, skip, limit);
    PageIsSlice(rows, 0, skip + limit);
    var lo := Min(skip, |sorted|);
    var hi := Min(lo + limit, |sorted|);
    assert sorted[0..lo] + sorted[lo..hi] == sorted[0..hi];
  }

  lemma SortDescLength(rows: seq<Models.CompletedJob>)
    ensures |SortDesc(rows)| == |rows|
  {
    SortDescSortsAndPermutes(rows);
    assert |SortDesc(rows)| == |multiset(SortDesc(rows))| == |multiset(rows)| == |rows|;
  }

  lemma PageIsSlice(rows: seq<Models.CompletedJob>, skip: nat, limit: nat)
    ensures |SortDesc(rows)| == |rows|
    ensures PageRows(rows, skip, limit) ==
      SortDesc(rows)[Min(skip, |rows|)..Min(Min(skip, |rows|) + limit, |rows|)]
  {
    SortDescLength(rows);
  }

  /** Every row the offset skips is at least as new as every row on the page. */
  lemma SkippedRowsAreNewer(rows: seq<Models.CompletedJob>, skip: nat, limit: nat, i: nat, j: nat)
    requires i < |PageRows(rows, 0, skip)| && j < |PageRows(rows, skip, limit)|
    ensures !Lexical.Less(PageRows(rows, 0, skip)[i].completedAt, PageRows(rows, skip, limit)[j].completedAt)
  {
    var skipped, page := PageRows(rows, 0, skip), PageRows(rows, skip, limit);
    PagesConcatenate(rows, skip, limit);
    var all := PageRows(rows, 0, skip + limit);
    assert all[i] == skipped[i] && all[|skipped| + j] == page[j];
  }

  /** The defaults of `get_completed_jobs` give the 100 newest rows, or all
      rows when there are fewer. */
  lemma DefaultPage(rows: seq<Models.CompletedJob>)
    ensures PageRows(rows, DefaultSkip, DefaultLimit) == PageRows(rows, 0, 100)
    ensures |PageRows(rows, DefaultSkip, DefaultLimit)| == Min(100, |rows|)
    ensures GetCompletedJobs(rows, DefaultSkip, DefaultLimit) == GetCompletedJobs(rows, 0, 100)
  {
  }

  /** A column value `isoformat` wrote for a UTC datetime. */
  predicate UtcColumn(text: string) {
    var d := TimestampTZ.Decode(text);
    d.Ok? && TimestampTZ.IsUtc(d.value) && TimestampTZ.Encode(d.value) == text
  }

  /** Every row archived with a UTC completion time has a UTC column value. */
  lemma RecordOfUtc(s: JobSnapshot)
    requires s.result.Some? && TimestampTZ.IsUtc(s.result.value.completedAt)
    ensures UtcColumn(RecordOf(s).completedAt)
  {
    TimestampTZ.RoundTrip(s.result.value.completedAt);
  }

  /** Over rows whose completion times are all UTC, every page is in
      chronological order, newest first. */
  lemma PageChronological(rows: seq<Models.CompletedJob>, skip: nat, limit: nat)
    requires forall k :: 0 <= k < |rows| ==> UtcColumn(rows[k].completedAt)
    ensures ChronologicalDesc(PageRows(rows, skip, limit))
  {
    var page := PageRows(rows, skip, limit);
    forall k | 0 <= k < |page|
      ensures UtcColumn(page[k].completedAt)
    {
      InPageUtc(rows, page, k);
    }
    SortedUtcIsChronological(page);
  }

  /** Each decoded completion time is no earlier than the ones after it. */
  predicate ChronologicalDesc(rows: seq<Models.CompletedJob>) {
    forall i, j :: 0 <= i < j < |rows| ==>
      var a := TimestampTZ.Decode(rows[i].completedAt);
      var b := TimestampTZ.Decode(rows[j].completedAt);
      a.Ok? && b.Ok? && !TimestampTZ.Before(a.value, b.value)
  }

  lemma SortedUtcIsChronological(rows: seq<Models.CompletedJob>)
    requires SortedDesc(rows)
    requires forall k :: 0 <= k < |rows| ==> UtcColumn(rows[k].completedAt)
    ensures ChronologicalDesc(rows)
  {
    forall i, j | 0 <= i < j < |rows|
      ensures var a := TimestampTZ.Decode(rows[i].completedAt);
        var b := TimestampTZ.Decode(rows[j].completedAt);
        a.Ok? && b.Ok? && !TimestampTZ.Before(a.value, b.value)
    {
      assert UtcColumn(rows[i].completedAt) && UtcColumn(rows[j].completedAt);
      var a := TimestampTZ.Decode(rows[i].completedAt).value;
      var b := TimestampTZ.Decode(rows[j].completedAt).value;
      TimestampTZ.EncodeOrder(a, b);
    }
  }

  lemma InPageUtc(rows: seq<Models.CompletedJob>, page: seq<Models.CompletedJob>, i: nat)
    requires forall k :: 0 <= k < |rows| ==> UtcColumn(rows[k].completedAt)
    requires multiset(page) <= multiset(rows) && i < |page|
    ensures UtcColumn(page[i].completedAt)
  {
    assert page[i] in multiset(page);
    assert page[i] in rows;
  }

  /** Every element before index `k` converts. */
  predicate ConvertsBefore<T, U>(f: T -> Result<U>, xs: seq<T>, k: nat)
    requires k <= |xs|
  {
    forall m :: 0 <= m < k ==> f(xs[m]).Ok?
  }

  /** `e` is what the first element that does not convert raises. */
  predicate FirstFailure<T, U>(f: T -> Result<U>, xs: seq<T>, e: Exception) {
    exists k :: 0 <= k < |xs| && f(xs[k]) == Err(e) && ConvertsBefore(f, xs, k)
  }

  lemma FirstFailureShifts<T, U>(f: T -> Result<U>, xs: seq<T>, e: Exception)
    requires xs != [] && f(xs[0]).Ok? && FirstFailure(f, xs[1..], e)
    ensures FirstFailure(f, xs, e)
  {
  }

  /** A list comprehension over a converter that may raise: all results, or
      what the first element that fails raises. */
  function ConvertAll<T, U>(f: T -> Result<U>, xs: seq<T>): (r: Result<seq<U>>)
    ensures r.Ok? <==> ConvertsBefore(f, xs, |xs|)
    ensures r.Ok? ==> |r.value| == |xs|
    ensures r.Ok? ==> forall k :: 0 <= k < |xs| ==> f(xs[k]) == Ok(r.value[k])
    ensures r.Err? ==> FirstFailure(f, xs, r.error)
  {
    if xs == [] then Ok([])
    else
      match f(xs[0])
      case Err(e) =>
        assert ConvertsBefore(f, xs, 0);
        Err(e)
      case Ok(y) =>
        var tail := xs[1..];
        var rest := ConvertAll(f, tail);
        if rest.Err? then
          FirstFailureShifts(f, xs, rest.error);
          Err(rest.error)
        else
          assert forall k :: 0 < k < |xs| ==> xs[k] == tail[k - 1];
          Ok([y] + rest.value)
  }

  /** `get_completed_jobs`. */
  function GetCompletedJobs(rows: seq<Models.CompletedJob>, skip: nat, limit: nat): (r: Result<seq<JobSnapshot>>)
    ensures r.Ok? <==> forall k :: 0 <= k < |PageRows(rows, skip, limit)| ==>
      Schemas.ParseDbJob(PageRows(rows, skip, limit)[k]).Ok?
    ensures r.Ok? ==> |r.value| == |PageRows(rows, skip, limit)|
    ensures r.Ok? ==> forall k :: 0 <= k < |r.value| ==>
      Schemas.ParseDbJob(PageRows(rows, skip, limit)[k]) == Ok(r.value[k])
    ensures r.Err? ==> FirstFailure(Schemas.ParseDbJob, PageRows(rows, skip, limit), r.error)
  {
    ConvertAll(Schemas.ParseDbJob, PageRows(rows, skip, limit))
  }

  /** The first row with the given id, in storage order. */
  function FindFirst(rows: seq<Models.CompletedJob>, id: string): (r: Option<Models.CompletedJob>)
    ensures r.None? <==> forall k :: 0 <= k < |rows| ==> rows[k].id != id
    ensures r.Some? ==> r.value in rows && r.value.id == id
  {
    if rows == [] then None
    else if rows[0].id == id then Some(rows[0])
    else FindFirst(rows[1..], id)
  }

  /** `get_completed_job`: `None` when no row has the id, otherwise one of its
      rows read back (which may raise). */
  function GetCompletedJob(rows: seq<Models.CompletedJob>, id: string): (r: Result<Option<JobSnapshot>>)
    ensures (r == Ok(None)) <==> forall k :: 0 <= k < |rows| ==> rows[k].id != id
    ensures r.Ok? && r.value.Some? ==>
      exists k :: 0 <= k < |rows| && rows[k].id == id && Schemas.ParseDbJob(rows[k]) == Ok(r.value.value)
    ensures r.Err? ==>
      exists k :: 0 <= k < |rows| && rows[k].id == id && Schemas.ParseDbJob(rows[k]) == Err(r.error)
  {
    match FindFirst(rows, id)
    case None => Ok(None)
    case Some(row) =>
      match Schemas.ParseDbJob(row)
      case Ok(job) => Ok(Some(job))
      case Err(e) => Err(e)
  }

  /** A job archived by `create_completed_job` is found again by its id. */
  lemma ArchivedJobIsFound(rows: seq<Models.CompletedJob>, s: JobSnapshot)
    requires s.result.Some? && RecordOf(s) in rows
    ensures GetCompletedJob(rows, s.id) != Ok(None)
  {
  }
}
