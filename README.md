# celery-scheduler, modelled in Dafny

celery-scheduler lets a running celery beat pick up changes to its
schedule (added, updated and deleted periodic tasks) without a restart.
Callers record each change in a change log. On every `sync` the
scheduler drains the log and replays the changes onto its entries. There
are three backends for the change log:

- a line-oriented change file (`FileChanges`);
- a shelf (`ShelveChanges`, and the older `Changes` of the
  `celery_schedule` package, which is the same code);
- a relational table of task rows (`DatabaseChanges`). Its scheduler
  reads the table, merges it into the schedule, writes every entry back
  and commits, or rolls back.

The model follows the source's own shapes:

- The change logs and the schedulers are classes whose methods update
  their state (`contents`, `shelf`, `committed`/`session`, `store`,
  `schedule`).
- The loops of the source are `while` loops proved against reference
  functions:
  - the retry loop against `FirstOpening`;
  - the replay against `Apply`;
  - the file read against `DecodeFile`;
  - the table read and write against `TableDefinitions` and `RowsFor`.
- The schedule codec, the change-file line format and `_get_task_name`
  are functions.

Python values are one datatype `Value`. Exceptions are an `Error` value,
returned where the source raises.

What is proved, in short:

- The schedule codec round-trips every supported schedule. Re-serializing
  what it reads gives the stored value in canonical form.
- The change file round-trips. Reading back what `add_task`/`delete_task`
  appended gives exactly those operations, in order, provided each name
  and pickle is free of commas and newlines, no pickle ends in a
  whitespace byte, and `loads` inverts `dumps`. Without the first condition the
  format breaks: `delete_task("a,b")` reads back as a four-field item.
  The scheduler cannot unpack it, so `sync` raises ValueError. The file
  was already truncated, so every change recorded after it is lost.
- `_try_open` makes at most ten attempts and succeeds exactly at the
  first attempt that opens.
- The replay follows the rules below. Every replay ends in the state the
  rules give: it either finishes or stops at the first item that raises.
  - The last write on a name wins.
  - A name no operation mentions keeps its entry.
  - Replaying only adds never raises, as long as every name can be
    hashed and `_maybe_entry` builds each entry. An add whose entry it
    cannot build raises what it raised and stops the replay there. A
    name that cannot be hashed (a list or a dict) raises TypeError.
  - A delete of an absent name raises KeyError and stops the replay
    there.
- The relational backend:
  - Adds keep the table's NOT NULL and unique-name constraints.
  - A second add under a name replaces that row's definition and keeps
    its run statistics.
  - A database `sync` commits every write of the cycle or none.
  - The outcome of a database `sync` is fixed by what is stored, the
    merge and the schedule: which step failed, or whether the commit
    succeeds.

Behaviour of the code worth knowing:

- **File drain.** The file drain opens the file once. It has no retry
  and does not degrade to "no changes". A failed open or a line that
  does not decode raises out of the drain, and the file is left as it
  was.
- **Deleting an absent name.** Deleting a name that is not scheduled
  raises KeyError from `sync`, as `del` does. It is not a no-op. Every
  change before it stays applied and no change after it is applied.
- **Shelve `add_task`.** It does `setdefault('operations', [])` before it
  checks the task name. A rejected task therefore still leaves the empty
  list behind.
- **Database `add_task`.** It assigns `name`, `task`, `args`, `kwargs`
  and `options` onto the existing row before it serializes the schedule.
  A missing or unsupported schedule raises after the session's row was
  changed (though not committed).
- **Database `sync`.** The commit runs in the `else` branch of the
  `try`, so an exception from the commit itself escapes `sync`. It is
  not rolled back or logged. The model reports it as `CommitFailed`.
- **Database `sync` and `merge_inplace`.** `merge_inplace` updates the
  schedule in place. When it raises, the rollback restores only the
  session, so the schedule keeps whatever the merge had changed.

## Model

| member | source | states |
|---|---|---|
| Codec.Serialize | celery_scheduler/database_scheduler.py:21-44 | succeeds exactly for numbers, crontabs and solar schedules (a `schedule` wrapper through its `run_every`), else TypeError; a number is stored as itself; a crontab as a map with exactly its five field keys; a solar as a map with exactly `event`, `latitude`, `longtitude` |
| Codec.Deserialize | celery_scheduler/database_scheduler.py:47-64 | succeeds exactly for numbers and maps, else TypeError; a number reads as itself; a map reads as a solar schedule iff it has `event` (whose value it keeps), otherwise as a crontab; the result is always a supported schedule |
| Codec.RoundTrip | celery_scheduler/database_scheduler.py:21-64 | deserializing what was serialized gives back the schedule (a wrapper gives back its `run_every`) |
| Codec.CrontabDefaults | celery_scheduler/database_scheduler.py:57-63 | a stored map without `event` reads as a crontab whose absent fields are `*` and whose present fields are the stored ones |
| Codec.SolarReadsWrittenKeys | celery_scheduler/database_scheduler.py:38-56 | both directions use the same three keys, the misspelled `longtitude` included, so a solar schedule round-trips |
| Codec.Canonical | celery_scheduler/database_scheduler.py:29-43 | the canonical stored form: a number as is; a map cut to the keys of the kind it reads as, keeping the values of the keys it had |
| Codec.ReserializeIsCanonical | celery_scheduler/database_scheduler.py:47-64 | the other round trip: serializing what was read from a number or map gives its canonical form |
| Codec.SerializedIsCanonical | celery_scheduler/database_scheduler.py:21-44 | what `Serialize` writes is already canonical, so it survives read and write unchanged |
| Values.FalsyValues | celery_scheduler/scheduler.py:25 | of the modelled values, the ones the `or` of `_get_task_name` treats as false are exactly `None`, `False`, `0` and the empty string, list and dict |
| Tasks.GetTaskName | celery_scheduler/scheduler.py:23-28 | KeyError exactly when `task` is missing or not a string (whatever the name); otherwise the truthy `name`, or else `task`; never null |
| Tasks.TaskNameFallback | celery_schedule/scheduler.py:41-46 | a missing, null or empty name falls back to the target; a non-empty name is used |
| Tasks.NonStringTargetRejected | celery_scheduler/database_scheduler.py:80-85 | a target that is not a string is a KeyError |
| Retry.FirstOpening | celery_scheduler/scheduler.py:36-48 | the attempt found is within the limit and opens |
| Retry.FirstOpeningIsFirst | celery_scheduler/scheduler.py:36-48 | the attempt found is within the limit, opens, and every earlier attempt failed; none is found exactly when all attempts within the limit fail |
| Retry.TryOpen | celery_schedule/scheduler.py:27-39 | between 1 and 10 attempts; true exactly when some attempt within ten opens, stopping at the first one; false only after all ten failed |
| Utf8.Encode | celery_scheduler/scheduler.py:76 | `str.encode()` takes between one and four bytes per character |
| Utf8.Decode | celery_scheduler/scheduler.py:94 | `bytes.decode()` gives at most one character per byte, or UnicodeDecodeError |
| Utf8.EncodeChar | celery_scheduler/scheduler.py:76 | each character takes one to four bytes |
| Utf8.DecodeFirst | celery_scheduler/scheduler.py:94 | an accepted leading sequence decodes to one character and a length that fits the input |
| Utf8.EncodeOfDecodeFirst | celery_scheduler/scheduler.py:94 | the decoder is strict: an accepted leading sequence is exactly the UTF-8 encoding of the character returned, so overlong forms, surrogates and code points past U+10FFFF are rejected |
| Utf8.EncodeDecode | celery_scheduler/scheduler.py:94 | the other round trip: encoding what `bytes.decode()` accepted gives the bytes back |
| Utf8.DecodeFirstEncodeChar | celery_scheduler/scheduler.py:94 | the bytes of one character, followed by anything, decode to that character and its length |
| Utf8.DecodeEncode | celery_scheduler/scheduler.py:98 | decoding the UTF-8 encoding of a name gives the name back |
| LineRecords.LineLength | celery_scheduler/scheduler.py:90 | a line is at least one byte and never longer than what is left |
| LineRecords.LinesJoin | celery_scheduler/scheduler.py:90 | iterating over the file (`Lines`) yields non-empty lines that, joined, are the whole file |
| LineRecords.StripLeftDropsSpace | celery_scheduler/scheduler.py:91 | the left strip drops only leading whitespace and stops at the first other byte |
| LineRecords.StripRightDropsSpace | celery_scheduler/scheduler.py:91 | the right strip drops only trailing whitespace and stops at the last other byte |
| LineRecords.StripTrims | celery_scheduler/scheduler.py:91 | `strip()` leaves no whitespace at either end, keeps a line with none there unchanged, and is idempotent |
| LineRecords.Split | celery_scheduler/scheduler.py:91 | splitting on commas always gives at least one field |
| LineRecords.LinesOfRecord | celery_scheduler/scheduler.py:90 | a record with one newline at its end is the next line the file yields |
| LineRecords.SplitAtComma | celery_scheduler/scheduler.py:91 | a comma-free prefix ending in a comma is the first field |
| LineRecords.StripRecord | celery_scheduler/scheduler.py:91 | stripping a record removes only its newline |
| LineRecords.FieldsOfRecord | celery_scheduler/scheduler.py:91 | a record with plain name and payload splits into exactly kind, name and payload |
| LineRecords.DecodeLineCases | celery_scheduler/scheduler.py:91-101 | a line reads as nothing exactly when its first field is neither `add` nor `delete`; an add or delete comes only from exactly three fields and carries the decoded name; a four-or-more-field item keeps its field count; a line of either kind with fewer than three fields raises |
| LineRecords.DecodeLine | celery_scheduler/scheduler.py:91-101 | one line of the loop; characterised by `DecodeLineCases` |
| LineRecords.DecodeFile | celery_scheduler/scheduler.py:90-102 | the whole read loop; characterised by `DecodeEmpty`, `SkipsOtherLine`, `DecodeFileOfRecord` and `DecodeEncodeAll` |
| LineRecords.EncodeOp | celery_scheduler/scheduler.py:76-82 | the record of an operation; characterised by `EncodeOpCases`, `RecordShape` and `DecodeRecord` |
| LineRecords.EncodeOpCases | celery_scheduler/scheduler.py:76-82 | only an add or delete of a string name has a record, and every record ends in a newline |
| LineRecords.SkipsOtherLine | celery_scheduler/scheduler.py:92-101 | a whole line of any other kind is skipped: the file reads as the lines after it |
| LineRecords.DecodeRecord | celery_scheduler/scheduler.py:90-102 | the record of a safe operation reads back as that operation |
| LineRecords.DecodeFileOfRecord | celery_scheduler/scheduler.py:90-102 | a whole record in front of the rest of the file reads as its item followed by what the rest reads as |
| LineRecords.DecodeEncodeAll | celery_scheduler/scheduler.py:73-106 | reading a change file gives exactly the safe operations written to it, in order |
| LineRecords.EncodeAllAppend | celery_scheduler/scheduler.py:76 | appending an operation appends its record and leaves earlier records untouched |
| LineRecords.DecodeEmpty | celery_scheduler/scheduler.py:86-106 | an empty change file reads as no operations |
| LineRecords.CommaInNameSplitsRecord | celery_scheduler/scheduler.py:80-99 | `delete_task("a,b")` writes `delete,a,b,null`, which reads back as a four-field item, while the safe records after it read back as themselves |
| LineRecords.DecodeCommaLine | celery_scheduler/scheduler.py:91-99 | the line `delete,a,b,null` decodes to an item of four fields |
| Sync.Apply | celery_scheduler/scheduler.py:153-160 | the reference replay; characterised by `ApplyOne`, `ApplyConcat`, `ApplyUntouched`, `ApplyAddsOnlyAdded`, `LastWriteWins` and the raising lemmas below |
| Sync.ApplyAddsOnlyAdded | celery_scheduler/scheduler.py:153-160 | the reference replay `Apply`, finished or not, never adds a name that no add of the list names |
| Sync.ApplyOperations | celery_scheduler/scheduler.py:153-160 | the loop ends in exactly the entries and exception the reference replay `Apply` gives |
| Sync.LastOn | celery_scheduler/scheduler.py:153-160 | the operation found names the name, occurs in the list, and no later operation names it; none only when no operation names it |
| Sync.ApplyConcat | celery_scheduler/scheduler.py:153-160 | replaying two lists one after the other is replaying their concatenation, unless the first raised |
| Sync.ApplyUntouched | celery_scheduler/scheduler.py:155-160 | an entry no operation names keeps its presence and value, even when the replay raises |
| Sync.LastWriteWins | celery_scheduler/scheduler.py:155-160 | after a replay that did not raise, a name's entry is decided by its last operation alone: an add installs that entry, a delete removes it, none keeps the old one |
| Sync.UnhashableNameRaises | celery_scheduler/scheduler.py:155-160 | a list or dict name raises TypeError (for an add once its entry was built), leaves the entries as they were and applies nothing after it |
| Sync.DeleteAbsentRaises | celery_scheduler/scheduler.py:159-160 | deleting a hashable name that is not scheduled raises KeyError, leaves the entries as they were and applies nothing after it |
| Sync.MakeEntryRaises | celery_scheduler/scheduler.py:155-158 | an add whose entry `_maybe_entry` cannot build raises that exception, leaves the entries as they were and applies nothing after it |
| Sync.AddsNeverRaise | celery_scheduler/scheduler.py:155-158 | a replay of adds of hashable names whose entries `_maybe_entry` builds never raises, and its keys are the old ones plus every added name |
| FileBackend.ReadOperations | celery_scheduler/scheduler.py:88-102 | the read loop gives exactly what the reference reading of the file gives |
| FileBackend.AddRaises | celery_scheduler/scheduler.py:73-76 | an add raises nothing exactly when the file opens, the task name is valid and is a string |
| FileBackend.FileChanges.AddTask | celery_scheduler/scheduler.py:73-78 | either raises and leaves the file as it was, or appends exactly one `add` record and adds the operation to the ghost `log` |
| FileBackend.DeleteRaises | celery_scheduler/scheduler.py:80-82 | a delete raises nothing exactly when the file opens and the name is a string |
| FileBackend.FileChanges.DeleteTask | celery_scheduler/scheduler.py:80-84 | either raises (IOError for a failed open, AttributeError for a name that is not a string) and leaves the file as it was, or appends exactly one `delete` record and adds the delete to the ghost `log` |
| FileBackend.FileChanges.UpdateTask | celery_scheduler/scheduler.py:56-57 | behaves as `AddTask` |
| FileBackend.FileChanges.GetAndClearOperations | celery_scheduler/scheduler.py:86-106 | returns the reading of the whole file and empties it, or raises and leaves it as it was; with safe records, returns exactly the operations written since the last drain, in order |
| ShelveBackend.SetDefault | celery_scheduler/scheduler.py:119 | creates the empty list under `operations` only when it is absent; every other key is kept |
| ShelveBackend.AddRaises | celery_scheduler/scheduler.py:117-120 | an add raises nothing exactly when the shelf opens and the task name is valid; once it opens the only error is KeyError |
| ShelveBackend.ShelveChanges.AddTask | celery_scheduler/scheduler.py:117-123 | a failed open changes nothing; a rejected task leaves only the `setdefault`; otherwise one `add` is appended to the end of the list and nothing else changes |
| ShelveBackend.ShelveChanges.DeleteTask | celery_schedule/scheduler.py:56-61 | a failed open changes nothing; otherwise one `delete` is appended to the end of the list |
| ShelveBackend.ShelveChanges.UpdateTask | celery_schedule/scheduler.py:63-64 | behaves as `AddTask` |
| ShelveBackend.ShelveChanges.GetAndClearOperations | celery_scheduler/scheduler.py:132-138 | no operations and nothing changed when all ten attempts to open fail; otherwise the whole list in order, and the shelf is cleared |
| Schedulers.FileScheduler.Sync | celery_scheduler/scheduler.py:150-165 | without a store it does nothing and leaves the file alone; a drain that raises changes nothing, recorded log included; otherwise the store becomes the replay of the drained operations and the file and its log are empty |
| Schedulers.ShelveScheduler.Sync | celery_schedule/scheduler.py:83-94 | without a store or without an open shelf nothing changes; otherwise the store becomes the replay of the pending operations and the shelf is cleared |
| Models.DefaultRow | celery_scheduler/models.py:15-20 | a new row has `[]`, `{}`, `{}`, `{}` as defaults, the insertion time as `last_run_at` and no run count; it meets NOT NULL exactly when name and task are given |
| Models.PutKeepsValid | celery_scheduler/models.py:13-18 | putting a valid row under its name keeps the table valid; the row count grows only for a new name |
| Database.UpsertRow | celery_scheduler/database_scheduler.py:89-96 | the row gets the task's fields and defaults; an existing row keeps its run statistics, a new one gets the insertion defaults |
| Database.AddToSession | celery_scheduler/database_scheduler.py:87-96 | succeeds exactly when the name is valid and bindable and the schedule is present and serializes; then upserts the row; a missing name or a list or dict name (InterfaceError from the lookup query) changes nothing; a bad schedule raises KeyError or TypeError after changing only the existing row of that name |
| Database.AddKeepsValid | celery_scheduler/database_scheduler.py:87-96 | every outcome of an add keeps the session's NOT NULL and unique-name constraints |
| Database.AddTwiceLastWins | celery_scheduler/database_scheduler.py:89-96 | a second add under the same name replaces task, args, kwargs, options and schedule and keeps the first row's run statistics |
| Database.DatabaseChanges.Commit | celery_scheduler/database_scheduler.py:97 | a valid session is committed; an invalid one raises IntegrityError and is discarded |
| Database.DatabaseChanges.Rollback | celery_scheduler/database_scheduler.py:167 | the session returns to the committed table |
| Database.DatabaseChanges.AddTask | celery_scheduler/database_scheduler.py:87-98 | raises exactly what `AddToSession` raises (including InterfaceError for a list or dict name); commits the upsert when it succeeds; when it raises, nothing is committed and the session keeps the partial update |
| Database.DatabaseChanges.DeleteTask | celery_scheduler/database_scheduler.py:100-103 | raises InterfaceError, changing nothing, exactly when the name cannot be bound; otherwise commits the table without the named row; an absent name changes nothing |
| Database.DatabaseChanges.UpdateTask | celery_scheduler/database_scheduler.py:105-106 | behaves as `AddTask` |
| Database.Definition | celery_scheduler/database_scheduler.py:128-135 | a definition read from a row has exactly the six keys, with the row's name, task, args, kwargs and options and the given schedule |
| Database.TableDefinitions | celery_scheduler/database_scheduler.py:124-137 | one definition per row, keyed by name: the row's own definition with its stored schedule deserialized, which is a supported schedule |
| Database.DatabaseScheduler.ReadScheduleFromTable | celery_scheduler/database_scheduler.py:124-137 | succeeds exactly when every stored schedule deserializes, with exactly the table's definitions; otherwise TypeError |
| Database.DatabaseScheduler.WriteScheduleToTable | celery_scheduler/database_scheduler.py:139-151 | succeeds exactly when every entry's schedule serializes, and then the session holds one row per entry over the old rows; nothing is committed; otherwise TypeError, with the session holding the rows written before the failing entry plus that entry's existing row with its fields reassigned |
| Database.DatabaseScheduler.Sync | celery_scheduler/database_scheduler.py:160-171 | a read failure rolls back and keeps the schedule; after a read the schedule is what the merge left, also when the merge raised, and a merge failure rolls back the session only; a write failure rolls back; otherwise the commit either stores the merged schedule's rows over the old table or raises IntegrityError; either all writes of a cycle are committed or none |
| Scenarios.ShelveNightly | celery_scheduler/scheduler.py:117-161 | after adding `nightly` and syncing, it is scheduled with its definition; after deleting and syncing, it is gone; an idle sync changes nothing |
| Scenarios.ShelveRejectsNonStringTarget | celery_scheduler/scheduler.py:117-121 | a task whose target is not a string raises KeyError and records nothing |
| Scenarios.FileDrainTwice | celery_scheduler/scheduler.py:80-106 | a drain right after a drain returns nothing; the first returns the delete that was written |
| Scenarios.FileCommaNameLosesLaterChanges | celery_scheduler/scheduler.py:80-160 | after `delete_task("a,b")` and `delete_task("x")`, a sync raises ValueError, `x` stays scheduled and the change file is empty |
| Scenarios.CrontabFiveMinutes | celery_scheduler/database_scheduler.py:29-36 | a crontab with `*/5` minutes is stored and read back unchanged |

## Left out

- Floats and `timedelta`: the codec's `total_seconds()` branch is not modelled. Numbers are integers (and booleans, which Python counts as numbers).
- celery's own schedule classes are not modelled. Their validation of crontab fields and solar events is left out: `Deserialize` builds a crontab or solar value from any stored fields.
- Locking: `fcntl.flock`, concurrent writers and the crash windows between a read and a truncate are not modelled. Each call runs alone.
- The 10 ms sleep between open attempts is left out, and so is logging.
- Opening a file or shelf is an oracle (`openOk`, `outcomes`), not a file system. `_close` is not modelled. A drain that raises in the file backend also leaves the file locked in the source; the model does not capture that.
- `pickle.dumps`/`pickle.loads` are abstract functions that the file backend is given. The round trip requires `loads(dumps(v)) == v` and records free of commas, newlines and a trailing whitespace byte. The actual pickle byte format is not modelled.
- LineRecords.DecodeEncodeAll: holds only for records that are safe for the line format (see above). The unsafe case is shown by LineRecords.CommaInNameSplitsRecord rather than characterised in general.
- FileBackend.FileChanges.GetAndClearOperations: returns exactly the logged operations only when the pickle law holds and every record is safe. Otherwise it states only that the result is the reading of the file.
- `_maybe_entry` is a function parameter of the schedulers that returns the entry or the exception it raises; what celery's `ScheduleEntry` accepts is not modelled. `merge_inplace` is a function parameter of the database `sync`. celery's `PersistentScheduler` internals (`install_default_entries`, `update_from_dict`, `_store.sync()`) are not modelled.
- `DatabaseScheduler.setup_schedule` (database_scheduler.py:153-158) is not modelled: creating the table at start-up, installing the default entries and merging the configured and stored schedules before the first write-back.
- The `id` primary key, the SQLAlchemy engine and the database URI are not modelled. Rows are keyed by their unique name.
- Database.DatabaseChanges.Commit: a flush error is modelled only as a NOT NULL violation, which discards the pending changes. SQLAlchemy leaves the session needing a rollback instead. Autoflush before queries is not modelled.
- `DatabaseScheduler.__init__`, `close` and `info` (argument handling, closing the session, a display string) are left out. So are `DatabaseChanges._create_table` and the `Scheduler.__init__` of the change-log schedulers.
- In the source, each write of `_write_schedule_to_table` merges its row into the session. The model applies the row to the session directly.
- Database.AddToSession: the `String` name column's coercion is not modelled: the database stores an int name as text, so `Int(5)` and `Str("5")` are one row there and two rows here. A bool or int name is taken to be bindable, and a list, dict or other object is not; Database.DatabaseChanges.DeleteTask, AddTask and UpdateTask inherit both simplifications.
- Sync.Apply: names are compared as Dafny values. Python equality that makes distinct values one key (`1 == True`) is not modelled, so `Int(1)` and `Bool(true)` are two names here and one in the source. Every modelled value other than a list or a dict is taken to be hashable.
- Values.FalsyValues: `Other` stands for a truthy object. Python objects that are false but not modelled (an empty tuple, set or bytes, or an object whose `__bool__` or `__len__` says so) are left out; for such a `name`, `_get_task_name` falls back to `task` where the model keeps the name.
- Database.DatabaseScheduler.Sync: a written table that breaks NOT NULL ends in `CommitFailed(IntegrityError)` only because autoflush is not modelled. In the source, the query at database_scheduler.py:142 flushes the rows merged so far, so a bad row that is not the last one written raises inside the `try` and the cycle is rolled back and logged instead. Either way nothing of the cycle is committed. The order in which entries are written is not modelled either (the schedule is a map).
- FileBackend.FileChanges.AddTask: `pickle.dumps` is taken to succeed on every task. In the source, a task that does not pickle raises at scheduler.py:76 before anything is written. The same holds for the shelf, whose write-back pickles the list at `_close()` (scheduler.py:122); ShelveBackend.ShelveChanges.AddTask appends the operation regardless.
- FileBackend.FileChanges.DeleteTask: names are Dafny strings, which hold only Unicode scalar values. A name with a lone surrogate, for which `.encode()` raises UnicodeEncodeError (scheduler.py:76 and :82), cannot be expressed.
