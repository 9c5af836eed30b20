/** The `completed_jobs` table of models.py: one row per finished run. */
module Models {
  import opened Base
  import SchemaTypes

  /** A row as the table holds it. The two timestamp columns hold the strings
      `TimestampTZ` binds; `trigger`, `request` and `response` hold the
      pickled dumps of the corresponding records. `name` and `error_message`
      are the only nullable columns. */
  datatype CompletedJob = CompletedJob(
    id: string,
    completedAt: string,
    name: Option<string>,
    createdAt: string,
    status: string,
    errorMessage: Option<string>,
    trigger: SchemaTypes.Trigger,
    request: SchemaTypes.APIRequest,
    response: SchemaTypes.APIResponse)

  /** The composite primary key (`id`, `completed_at`). */
  function Key(row: CompletedJob): (string, string) {
    (row.id, row.completedAt)
  }

  predicate KeyTaken(rows: seq<CompletedJob>, key: (string, string)) {
    exists i :: 0 <= i < |rows| && Key(rows[i]) == key
  }

  /** No two rows share a primary key. */
  predicate KeysUnique(rows: seq<CompletedJob>) {
    forall i, j :: 0 <= i < j < |rows| ==> Key(rows[i]) != Key(rows[j])
  }

  lemma AppendKeepsKeysUnique(rows: seq<CompletedJob>, row: CompletedJob)
    requires KeysUnique(rows) && !KeyTaken(rows, Key(row))
    ensures KeysUnique(rows + [row])
  {
  }
}
