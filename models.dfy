/** The `task_entry` table: one row per task, with `name` unique and not
    null, `task` and `schedule` not null, JSON columns for the
    arguments, options and serialized schedule, and the run statistics.
    The integer primary key `id` is not modelled: rows are keyed by
    their unique name. */
module Models {
  import opened Values

  /** A `datetime`, left abstract. */
  type Time = int

  datatype Row = Row(
    name: Value,
    task: Value,
    args: Value,
    kwargs: Value,
    options: Value,
    schedule: Value,
    lastRunAt: Option<Time>,
    totalRunCount: Option<int>)

  /** The NOT NULL columns hold values. */
  predicate RowValid(r: Row) {
    r.name != Null && r.task != Null && r.schedule != Null
  }

  /** A table is its rows keyed by the unique `name` column, each row
      meeting the NOT NULL constraints. */
  predicate TableValid(t: map<Value, Row>) {
    forall k :: k in t ==> t[k].name == k && RowValid(t[k])
  }

  /** A row inserted with only `name` and `task` given: `args` is `[]`,
      `kwargs`, `options` and `schedule` are `{}`, `last_run_at` is the
      insertion time and `total_run_count` is null. */
  function DefaultRow(name: Value, task: Value, now: Time): (r: Row)
    ensures RowValid(r) <==> name != Null && task != Null
    ensures r.name == name && r.task == task
    ensures r.args == EmptyList && r.kwargs == EmptyDict && r.options == EmptyDict && r.schedule == EmptyDict
    ensures r.totalRunCount.None? && r.lastRunAt == Some(now)
  {
    Row(name, task, EmptyList, EmptyDict, EmptyDict, EmptyDict, Some(now), None)
  }

  /** Adding or replacing a valid row under its own name keeps a table
      valid, and the names stay unique because they are the keys. */
  lemma PutKeepsValid(t: map<Value, Row>, r: Row)
    requires TableValid(t) && RowValid(r)
    ensures TableValid(t[r.name := r])
    ensures |t[r.name := r]| == if r.name in t then |t| else |t| + 1
  {
  }
}
