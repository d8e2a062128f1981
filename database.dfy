/** The relational backend: `DatabaseChanges` writes task rows through a
    session and commits each write, and `DatabaseScheduler` reads the
    table into its schedule, merges, writes every entry back and then
    commits, or rolls back when any step raises. The session is modelled
    as the table seen through it (`session`: the committed rows with the
    pending changes applied) beside the table as committed
    (`committed`); a rollback restores the snapshot. */
module Database {
  import opened Values
  import opened Tasks
  import opened Models
  import Codec

  /** `task.get(key, default)` for the JSON columns. */
  function ArgsOf(task: TaskDict): Value { GetOr(task, "args", EmptyList) }
  function KwargsOf(task: TaskDict): Value { GetOr(task, "kwargs", EmptyDict) }
  function OptionsOf(task: TaskDict): Value { GetOr(task, "options", EmptyDict) }

  /** The row `add_task` leaves in the session once every field is set:
      the existing row of that name keeps its run statistics, a new row
      gets the insertion defaults. */
  function UpsertRow(existing: Option<Row>, name: Value, task: TaskDict, schedule: Value, now: Time): (r: Row)
    requires "task" in task
    ensures r.name == name && r.task == task["task"] && r.schedule == schedule
    ensures r.args == ArgsOf(task) && r.kwargs == KwargsOf(task) && r.options == OptionsOf(task)
    ensures existing.Some? ==> r.lastRunAt == existing.value.lastRunAt && r.totalRunCount == existing.value.totalRunCount
    ensures existing.None? ==> r.lastRunAt == Some(now) && r.totalRunCount.None?
  {
    var base := if existing.Some? then existing.value else DefaultRow(name, task["task"], now);
    base.(name := name, task := task["task"], args := ArgsOf(task), kwargs := KwargsOf(task),
          options := OptionsOf(task), schedule := schedule)
  }

  /** Whether the database driver can bind `v` as a query parameter:
      `None`, a bool, an int or a string; a list, a dict or another
      object cannot be bound. */
  predicate Bindable(v: Value) {
    v.Null? || v.Bool? || v.Int? || v.Str?
  }

  function Lookup(t: map<Value, Row>, name: Value): Option<Row> {
    if name in t then Some(t[name]) else None
  }

  /** What `add_task` does to the session, and the exception it raises.
      The fields before `schedule` are assigned first, so when the
      schedule is missing or unsupported, an existing row is left
      changed in the session (though not committed); a new row is
      never added to the session. A name the driver cannot bind makes
      the lookup query raise before any field is assigned. */
  function AddToSession(session: map<Value, Row>, task: TaskDict, now: Time): (r: (Option<Error>, map<Value, Row>))
    ensures r.0.None? <==>
      GetTaskName(task).Ok? && Bindable(GetTaskName(task).value) &&
      "schedule" in task && Codec.Serialize(task["schedule"]).Ok?
    ensures r.0.Some? && GetTaskName(task).Err? ==> r.0 == Some(KeyError) && r.1 == session
    ensures GetTaskName(task).Ok? && !Bindable(GetTaskName(task).value) ==> r.0 == Some(InterfaceError) && r.1 == session
    ensures r.0.Some? && GetTaskName(task).Ok? && Bindable(GetTaskName(task).value) ==>
      r.0 == Some(if "schedule" in task then TypeError else KeyError) &&
      r.1.Keys == session.Keys &&
      forall k :: k in session && k != GetTaskName(task).value ==> r.1[k] == session[k]
    ensures r.0.None? ==>
      var name := GetTaskName(task).value;
      r.1 == session[name := UpsertRow(Lookup(session, name), name, task, Codec.Serialize(task["schedule"]).value, now)]
  {
    match GetTaskName(task)
    case Err(e) => (Some(e), session)
    case Ok(name) =>
      if !Bindable(name) then (Some(InterfaceError), session)
      else
        var partial :=
          if name in session then
            session[name := session[name].(name := name, task := task["task"], args := ArgsOf(task),
                                           kwargs := KwargsOf(task), options := OptionsOf(task))]
          else session;
        if "schedule" !in task then (Some(KeyError), partial)
        else
          match Codec.Serialize(task["schedule"])
          case Err(e) => (Some(e), partial)
          case Ok(s) => (None, session[name := UpsertRow(Lookup(session, name), name, task, s, now)])
  }

  /** Adding a task keeps the session a valid table: the name is never
      null, the task is a string and a serialized schedule is not null. */
  lemma AddKeepsValid(session: map<Value, Row>, task: TaskDict, now: Time)
    requires TableValid(session)
    ensures TableValid(AddToSession(session, task, now).1)
  {
    var r := AddToSession(session, task, now);
    if GetTaskName(task).Ok? {
      var name := GetTaskName(task).value;
      assert name != Null && task["task"].Str?;
      if r.0.None? {
        PutKeepsValid(session, UpsertRow(Lookup(session, name), name, task, Codec.Serialize(task["schedule"]).value, now));
      }
    }
  }

  /** Last write wins in the table: a second add under the same name
      replaces task, args, kwargs, options and schedule, and keeps the
      run statistics of the first. */
  lemma AddTwiceLastWins(session: map<Value, Row>, t1: TaskDict, t2: TaskDict, now1: Time, now2: Time)
    requires AddToSession(session, t1, now1).0.None? && AddToSession(session, t2, now2).0.None?
    requires GetTaskName(t1).value == GetTaskName(t2).value
    ensures var s1 := AddToSession(session, t1, now1).1;
      var s2 := AddToSession(s1, t2, now2);
      var name := GetTaskName(t2).value;
      && s2.0.None?
      && s2.1 == s1[name := s1[name].(task := t2["task"], args := ArgsOf(t2), kwargs := KwargsOf(t2),
                                      options := OptionsOf(t2), schedule := Codec.Serialize(t2["schedule"]).value)]
  {
  }

  class DatabaseChanges {
    /** The table as committed. */
    var committed: map<Value, Row>
    /** The table as seen through the session. */
    var session: map<Value, Row>

    ghost predicate Valid()
      reads this
    {
      TableValid(committed) && TableValid(session)
    }

    constructor (table: map<Value, Row>)
      requires TableValid(table)
      ensures Valid() && committed == table && session == table
    {
      committed := table;
      session := table;
    }

    /** `session.commit()`. A flush that breaks a NOT NULL constraint
        raises IntegrityError and discards the pending changes. */
    method Commit() returns (raised: Option<Error>)
      modifies this
      ensures TableValid(old(session)) ==> raised == None && committed == old(session) && session == old(session)
      ensures !TableValid(old(session)) ==>
        raised == Some(IntegrityError) && committed == old(committed) && session == old(committed)
    {
      if TableValid(session) {
        committed := session;
        raised := None;
      } else {
        session := committed;
        raised := Some(IntegrityError);
      }
    }

    /** `session.rollback()`: back to the committed snapshot. */
    method Rollback()
      modifies this
      ensures committed == old(committed) && session == old(committed)
    {
      session := committed;
    }

    /** Upsert by unique name, then commit. */
    method AddTask(task: TaskDict, now: Time) returns (raised: Option<Error>)
      requires Valid()
      modifies this
      ensures Valid()
      ensures raised == AddToSession(old(session), task, now).0
      ensures raised.None? ==> committed == AddToSession(old(session), task, now).1 && session == committed
      ensures raised.Some? ==> committed == old(committed) && session == AddToSession(old(session), task, now).1
    {
      AddKeepsValid(session, task, now);
      var r := AddToSession(session, task, now);
      session := r.1;
      if r.0.Some? {
        return r.0;
      }
      raised := Commit();
    }

    /** Delete by name, then commit; a name with no row changes nothing,
        and a name the driver cannot bind raises before anything
        changes. */
    method DeleteTask(taskName: Value) returns (raised: Option<Error>)
      requires Valid()
      modifies this
      ensures Valid()
      ensures raised.Some? <==> !Bindable(taskName)
      ensures raised.Some? ==> raised == Some(InterfaceError) && committed == old(committed) && session == old(session)
      ensures raised.None? ==> committed == old(session) - {taskName} && session == committed
      ensures raised.None? && taskName !in old(session) ==> committed == old(session)
    {
      if !Bindable(taskName) {
        return Some(InterfaceError);
      }
      raised := None;
      session := session - {taskName};
      var _ := Commit();
    }

    /** `update_task` is `add_task`. */
    method UpdateTask(task: TaskDict, now: Time) returns (raised: Option<Error>)
      requires Valid()
      modifies this
      ensures Valid()
      ensures raised == AddToSession(old(session), task, now).0
      ensures raised.None? ==> committed == AddToSession(old(session), task, now).1 && session == committed
      ensures raised.Some? ==> committed == old(committed) && session == AddToSession(old(session), task, now).1
    {
      raised := AddTask(task, now);
    }
  }

  /** A `ScheduleEntry` as far as the table sees it. */
  datatype Entry = Entry(
    task: Value,
    args: Value,
    kwargs: Value,
    options: Value,
    schedule: Value,
    lastRunAt: Option<Time>,
    totalRunCount: Option<int>)

  /** The keys of a task definition read from the table. */
  const DefinitionKeys: set<string> := {"name", "task", "args", "kwargs", "options", "schedule"}

  /** A task definition read from one row: `name`, `task`, `args`,
      `kwargs`, `options` and the deserialized `schedule`. */
  function Definition(row: Row, schedule: Value): (d: map<string, Value>)
    ensures d.Keys == DefinitionKeys
    ensures d["name"] == row.name && d["task"] == row.task && d["schedule"] == schedule
    ensures d["args"] == row.args && d["kwargs"] == row.kwargs && d["options"] == row.options
  {
    map["name" := row.name, "task" := row.task, "args" := row.args, "kwargs" := row.kwargs,
        "options" := row.options, "schedule" := schedule]
  }

  /** The row `_write_schedule_to_table` writes for an entry whose
      schedule serializes. */
  function EntryRow(name: Value, e: Entry, schedule: Value): Row {
    Row(name, e.task, e.args, e.kwargs, e.options, schedule, e.lastRunAt, e.totalRunCount)
  }

  predicate Writes(e: Entry) {
    Codec.Serialize(e.schedule).Ok?
  }

  /** The serialized schedule of an entry that `Writes`. */
  function StoredSchedule(e: Entry): Value {
    var s := Codec.Serialize(e.schedule);
    if s.Ok? then s.value else Null
  }

  /** The fields `_write_schedule_to_table` assigns to the existing row
      of `name` before it serializes the schedule; a name with no row is
      left alone. */
  function Refresh(session: map<Value, Row>, name: Value, e: Entry): map<Value, Row> {
    if name in session then
      session[name := session[name].(name := name, task := e.task, args := e.args,
                                     kwargs := e.kwargs, options := e.options)]
    else session
  }

  /** The rows written back for the entries named in `names`. */
  function RowsFor(schedule: map<Value, Entry>, names: set<Value>): map<Value, Row>
    requires names <= schedule.Keys
  {
    map k | k in names :: EntryRow(k, schedule[k], StoredSchedule(schedule[k]))
  }

  /** Writing one more entry over the rows already written. */
  lemma WriteOneMore(base: map<Value, Row>, schedule: map<Value, Entry>, done: set<Value>, k: Value)
    requires done <= schedule.Keys && k in schedule
    ensures (base + RowsFor(schedule, done))[k := EntryRow(k, schedule[k], StoredSchedule(schedule[k]))]
      == base + RowsFor(schedule, done + {k})
  {
    var row := EntryRow(k, schedule[k], StoredSchedule(schedule[k]));
    assert RowsFor(schedule, done + {k}) == RowsFor(schedule, done)[k := row];
  }

  /** Every schedule stored in the rows named in `names` deserializes. */
  predicate ReadableAt(rows: map<Value, Row>, names: set<Value>) {
    forall k :: k in names && k in rows ==> Codec.Deserialize(rows[k].schedule).Ok?
  }

  /** Every schedule stored in the table deserializes. */
  predicate Readable(rows: map<Value, Row>) {
    ReadableAt(rows, rows.Keys)
  }

  /** The definitions read from the rows named in `names`. */
  function DefinitionsOf(rows: map<Value, Row>, names: set<Value>): map<Value, map<string, Value>>
    requires names <= rows.Keys && ReadableAt(rows, names)
  {
    map k | k in names :: Definition(rows[k], Codec.Deserialize(rows[k].schedule).value)
  }

  /** The definitions `_read_schedule_from_table` returns for a table
      whose schedules all deserialize, keyed by row name. */
  function TableDefinitions(rows: map<Value, Row>): (d: map<Value, map<string, Value>>)
    requires Readable(rows)
    ensures d.Keys == rows.Keys
    ensures forall k :: k in d ==>
      && d[k].Keys == DefinitionKeys
      && Codec.Deserialize(rows[k].schedule).Ok?
      && d[k] == Definition(rows[k], Codec.Deserialize(rows[k].schedule).value)
      && d[k]["name"] == rows[k].name && d[k]["task"] == rows[k].task
      && Codec.IsSchedule(d[k]["schedule"])
  {
    DefinitionsOf(rows, rows.Keys)
  }

  /** Reading one more row after the rows already read. */
  lemma ReadOneMore(rows: map<Value, Row>, done: set<Value>, k: Value)
    requires done <= rows.Keys && k in rows && ReadableAt(rows, done)
    requires Codec.Deserialize(rows[k].schedule).Ok?
    ensures ReadableAt(rows, done + {k})
    ensures DefinitionsOf(rows, done)[k := Definition(rows[k], Codec.Deserialize(rows[k].schedule).value)]
      == DefinitionsOf(rows, done + {k})
  {
  }

  /** How a `sync` ended: committed, abandoned and rolled back after the
      exception `cause`, or the commit itself raised. */
  datatype SyncOutcome = Committed | RolledBack(cause: Error) | CommitFailed(error: Error)

  /** What `merge_inplace` leaves behind: it updates the schedule in
      place, so when it raises, the schedule keeps the changes made
      before the exception. */
  datatype Merged = Merged(schedule: map<Value, Entry>, error: Option<Error>)

  /** `merge_inplace`: the schedule merged with the definitions read
      from the table. */
  type Merge = (map<Value, Entry>, map<Value, map<string, Value>>) -> Merged

  class DatabaseScheduler {
    var schedule: map<Value, Entry>
    const changes: DatabaseChanges

    constructor (changes: DatabaseChanges, schedule: map<Value, Entry>)
      ensures this.changes == changes && this.schedule == schedule
    {
      this.changes := changes;
      this.schedule := schedule;
    }

    /** `_read_schedule_from_table`: every row by name, with its schedule
        deserialized; TypeError when some row's schedule does not
        deserialize. */
    method ReadScheduleFromTable() returns (r: Result<map<Value, map<string, Value>>>)
      requires TableValid(changes.session)
      ensures r.Ok? <==> Readable(changes.session)
      ensures r.Err? ==> r.error == TypeError
      ensures r.Ok? ==> r.value == TableDefinitions(changes.session)
    {
      var rows := changes.session;
      var todo := rows.Keys;
      var acc: map<Value, map<string, Value>> := map[];
      while todo != {}
        invariant todo <= rows.Keys
        invariant ReadableAt(rows, rows.Keys - todo)
        invariant acc == DefinitionsOf(rows, rows.Keys - todo)
        decreases todo
      {
        var k :| k in todo;
        var row := rows[k];
        var s := Codec.Deserialize(row.schedule);
        if s.Err? {
          return Err(s.error);
        }
        ghost var doneBefore := rows.Keys - todo;
        ReadOneMore(rows, doneBefore, k);
        acc := acc[row.name := Definition(row, s.value)];
        todo := todo - {k};
        assert rows.Keys - todo == doneBefore + {k};
      }
      assert rows.Keys - todo == rows.Keys;
      return Ok(acc);
    }

    /** `_write_schedule_to_table`: every entry is written to the row of
        its name. When some schedule does not serialize, TypeError is
        raised partway, after the rows before it were written and the
        failing row, if it existed, got its other fields. */
    method WriteScheduleToTable() returns (raised: Option<Error>)
      modifies changes
      ensures changes.committed == old(changes.committed)
      ensures raised.None? <==> forall k :: k in schedule ==> Writes(schedule[k])
      ensures raised.Some? ==> raised == Some(TypeError)
      ensures raised.None? ==> changes.session == old(changes.session) + RowsFor(schedule, schedule.Keys)
      ensures raised.Some? ==>
        exists done, k :: done <= schedule.Keys && k in schedule.Keys - done && !Writes(schedule[k]) &&
          changes.session == Refresh(old(changes.session) + RowsFor(schedule, done), k, schedule[k])
    {
      var todo := schedule.Keys;
      while todo != {}
        invariant todo <= schedule.Keys
        invariant changes.committed == old(changes.committed)
        invariant forall k :: k in schedule.Keys - todo ==> Writes(schedule[k])
        invariant changes.session == old(changes.session) + RowsFor(schedule, schedule.Keys - todo)
        decreases todo
      {
        var k :| k in todo;
        var e := schedule[k];
        var s := Codec.Serialize(e.schedule);
        if s.Err? {
          ghost var done := schedule.Keys - todo;
          changes.session := Refresh(changes.session, k, e);
          assert k in schedule.Keys - done && !Writes(schedule[k]);
          return Some(s.error);
        }
        ghost var doneBefore := schedule.Keys - todo;
        WriteOneMore(old(changes.session), schedule, doneBefore, k);
        changes.session := changes.session[k := EntryRow(k, e, s.value)];
        todo := todo - {k};
        assert schedule.Keys - todo == doneBefore + {k};
      }
      assert schedule.Keys - todo == schedule.Keys;
      raised := None;
    }

    /** `sync`: read the table, merge it into the schedule, write every
        entry back and commit; on any exception in these steps roll back
        the session to the committed snapshot. Either every write of the
        cycle is committed or none is. The rollback does not restore the
        schedule: what the merge changed before it raised stays. */
    method Sync(merge: Merge) returns (outcome: SyncOutcome)
      requires changes.Valid()
      modifies this, changes
      ensures changes.Valid()
      ensures outcome.Committed? ==> changes.committed == changes.session
      ensures !outcome.Committed? ==> changes.committed == old(changes.committed) && changes.session == old(changes.committed)
      ensures !Readable(old(changes.session)) ==> outcome == RolledBack(TypeError) && schedule == old(schedule)
      ensures Readable(old(changes.session)) ==>
        var m := merge(old(schedule), TableDefinitions(old(changes.session)));
        && schedule == m.schedule
        && (m.error.Some? ==> outcome == RolledBack(m.error.value))
        && (m.error.None? && !(forall k :: k in m.schedule ==> Writes(m.schedule[k])) ==> outcome == RolledBack(TypeError))
        && (m.error.None? && (forall k :: k in m.schedule ==> Writes(m.schedule[k])) ==>
              var written := old(changes.session) + RowsFor(m.schedule, m.schedule.Keys);
              if TableValid(written) then outcome == Committed && changes.committed == written
              else outcome == CommitFailed(IntegrityError))
    {
      var data := ReadScheduleFromTable();
      if data.Err? {
        changes.Rollback();
        return RolledBack(data.error);
      }
      var merged := merge(schedule, data.value);
      schedule := merged.schedule;
      if merged.error.Some? {
        changes.Rollback();
        return RolledBack(merged.error.value);
      }
      var raised := WriteScheduleToTable();
      if raised.Some? {
        changes.Rollback();
        return RolledBack(raised.value);
      }
      var failed := changes.Commit();
      if failed.Some? {
        return CommitFailed(failed.value);
      }
      outcome := Committed;
    }
  }
}
