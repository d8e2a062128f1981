/** `ShelveChanges` (and the older `Changes` of celery_schedule, which is
    the same code): the change log is the list stored under the key
    `operations` of a shelf. Writes open the shelf once (`openOk` says
    whether that succeeds; a failed open raises), `setdefault` the list,
    append one `(kind, name, task)` triple and close. The drain opens
    with `_try_open`, whose attempts are the oracle `outcomes`; after
    ten failures it reports no operations and leaves the shelf alone. */
module ShelveBackend {
  import opened Values
  import opened Tasks
  import Retry

  /** The list the shelf holds under `operations`, `[]` when it is absent. */
  function OperationsOf(shelf: map<string, seq<Op>>): seq<Op> {
    if "operations" in shelf then shelf["operations"] else []
  }

  /** `shelf.setdefault('operations', [])`. */
  function SetDefault(shelf: map<string, seq<Op>>): (r: map<string, seq<Op>>)
    ensures "operations" in r && OperationsOf(r) == OperationsOf(shelf)
    ensures forall k :: k in shelf ==> k in r && r[k] == shelf[k]
    ensures r.Keys == shelf.Keys + {"operations"}
  {
    if "operations" in shelf then shelf else shelf["operations" := []]
  }

  /** The exception `add_task` raises, if any: the open, then the name. */
  function AddRaises(task: TaskDict, openOk: bool): (raised: Option<Error>)
    ensures raised.None? <==> openOk && GetTaskName(task).Ok?
    ensures openOk && raised.Some? ==> raised == Some(KeyError)
  {
    if !openOk then Some(IOError)
    else if GetTaskName(task).Err? then Some(GetTaskName(task).error)
    else None
  }

  class ShelveChanges {
    /** The shelf, key by key. */
    var shelf: map<string, seq<Op>>

    constructor ()
      ensures shelf == map[]
    {
      shelf := map[];
    }

    /** The pending operations. */
    function Operations(): seq<Op>
      reads this
    {
      OperationsOf(shelf)
    }

    /** Appends one `('add', name, task)` to the end of the list, creating
        the list if it is absent. A task without a string `task` raises
        KeyError after the list was created. */
    method AddTask(task: TaskDict, openOk: bool) returns (raised: Option<Error>)
      modifies this
      ensures raised == AddRaises(task, openOk)
      ensures !openOk ==> shelf == old(shelf)
      ensures openOk && raised.Some? ==> shelf == SetDefault(old(shelf))
      ensures raised.None? ==>
        && Operations() == old(Operations()) + [Add(GetTaskName(task).value, Dict(task))]
        && shelf == old(shelf)["operations" := Operations()]
    {
      if !openOk {
        return Some(IOError);
      }
      shelf := SetDefault(shelf);
      var name := GetTaskName(task);
      if name.Err? {
        return Some(name.error);
      }
      shelf := shelf["operations" := shelf["operations"] + [Add(name.value, Dict(task))]];
      raised := None;
    }

    /** Appends one `('delete', name, None)`, creating the list if absent. */
    method DeleteTask(taskName: Value, openOk: bool) returns (raised: Option<Error>)
      modifies this
      ensures raised == (if openOk then None else Some(IOError))
      ensures !openOk ==> shelf == old(shelf)
      ensures openOk ==>
        && Operations() == old(Operations()) + [Delete(taskName)]
        && shelf == old(shelf)["operations" := Operations()]
    {
      if !openOk {
        return Some(IOError);
      }
      shelf := SetDefault(shelf);
      shelf := shelf["operations" := shelf["operations"] + [Delete(taskName)]];
      raised := None;
    }

    /** `update_task` is `add_task`. */
    method UpdateTask(task: TaskDict, openOk: bool) returns (raised: Option<Error>)
      modifies this
      ensures raised == AddRaises(task, openOk)
      ensures !openOk ==> shelf == old(shelf)
      ensures openOk && raised.Some? ==> shelf == SetDefault(old(shelf))
      ensures raised.None? ==>
        && Operations() == old(Operations()) + [Add(GetTaskName(task).value, Dict(task))]
        && shelf == old(shelf)["operations" := Operations()]
    {
      raised := AddTask(task, openOk);
    }

    /** `[]` and no change when every attempt to open fails; otherwise
        the whole list, in order, and the shelf is cleared. */
    method GetAndClearOperations(outcomes: seq<bool>) returns (ops: seq<Op>)
      modifies this
      ensures Retry.FirstOpening(outcomes, 0).None? ==> ops == [] && shelf == old(shelf)
      ensures Retry.FirstOpening(outcomes, 0).Some? ==> ops == old(Operations()) && shelf == map[]
    {
      var ok, _ := Retry.TryOpen(outcomes);
      if !ok {
        return [];
      }
      ops := Operations();
      shelf := map[];
    }
  }
}
