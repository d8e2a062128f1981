/** `FileChanges`: the change log kept in an append-only file. Each
    write opens the file (append mode, exclusive non-blocking lock),
    appends one record and closes it; the drain opens it, reads every
    line, truncates it and closes it. Opening is a single attempt here
    (`_open`, not `_try_open`): `openOk` says whether it succeeds, and
    when it does not, the call raises. `pickle.dumps` and
    `pickle.loads` are the constants `dumps` and `loads`. */
module FileBackend {
  import opened Values
  import opened Tasks
  import opened LineRecords
  import Utf8

  /** Prefix the operations read so far to the result of reading the rest. */
  function Prepend(ops: seq<Op>, r: Result<seq<Op>>): Result<seq<Op>> {
    match r
    case Ok(rest) => Ok(ops + rest)
    case Err(e) => Err(e)
  }

  /** The loop of `get_and_clear_operations`: read the lines of the file
      in order, keep the add and delete records, stop at the first line
      that raises. */
  method ReadOperations(buf: seq<byte>, loads: seq<byte> -> Result<Value>) returns (r: Result<seq<Op>>)
    ensures r == DecodeFile(buf, loads)
  {
    var lines := Lines(buf);
    var ops: seq<Op> := [];
    var i := 0;
    assert lines[0..] == lines;
    assert DecodeAll(lines, loads).Ok? ==> [] + DecodeAll(lines, loads).value == DecodeAll(lines, loads).value;
    while i < |lines|
      invariant 0 <= i <= |lines|
      invariant DecodeAll(lines, loads) == Prepend(ops, DecodeAll(lines[i..], loads))
    {
      assert lines[i..][0] == lines[i] && lines[i..][1..] == lines[i + 1..];
      var d := DecodeLine(lines[i], loads);
      if d.Err? {
        return Err(d.error);
      }
      var found := if d.value.Some? then [d.value.value] else [];
      ghost var more := DecodeAll(lines[i + 1..], loads);
      assert more.Ok? ==> ops + (found + more.value) == (ops + found) + more.value;
      ops := ops + found;
      i := i + 1;
    }
    assert lines[i..] == [] && ops + [] == ops;
    return Ok(ops);
  }

  /** The exception `add_task` (and `update_task`) raises, if any: the
      lock, then the task name, then `.encode()` of a name that is not a
      string. */
  function AddRaises(task: TaskDict, openOk: bool): (raised: Option<Error>)
    ensures raised.None? <==> openOk && GetTaskName(task).Ok? && GetTaskName(task).value.Str?
  {
    if !openOk then Some(IOError)
    else match GetTaskName(task)
      case Err(e) => Some(e)
      case Ok(name) => if name.Str? then None else Some(AttributeError)
  }

  /** The exception `delete_task` raises, if any: the lock, then
      `.encode()` of a name that is not a string. */
  function DeleteRaises(taskName: Value, openOk: bool): (raised: Option<Error>)
    ensures raised.None? <==> openOk && taskName.Str?
  {
    if !openOk then Some(IOError)
    else if taskName.Str? then None
    else Some(AttributeError)
  }

  class FileChanges {
    /** The bytes of the change file. */
    var contents: seq<byte>
    /** The operations the file holds, in the order they were written. */
    ghost var log: seq<Op>
    const dumps: Value -> seq<byte>
    const loads: seq<byte> -> Result<Value>

    /** The file is the concatenation of the records written since the
        last drain. */
    ghost predicate Valid()
      reads this
    {
      && (forall i :: 0 <= i < |log| ==> Writable(log[i]))
      && contents == EncodeAll(log, dumps)
    }

    constructor (dumps: Value -> seq<byte>, loads: seq<byte> -> Result<Value>)
      ensures Valid() && contents == [] && log == []
      ensures this.dumps == dumps && this.loads == loads
    {
      this.dumps := dumps;
      this.loads := loads;
      contents := [];
      log := [];
    }

    /** Appends exactly one record `add,<name>,<pickle>\n`; the records
        already in the file are untouched. */
    method AddTask(task: TaskDict, openOk: bool) returns (raised: Option<Error>)
      requires Valid()
      modifies this
      ensures Valid()
      ensures raised == AddRaises(task, openOk)
      ensures raised.Some? ==> contents == old(contents) && log == old(log)
      ensures raised.None? ==>
        var name := GetTaskName(task).value;
        && log == old(log) + [Add(name, Dict(task))]
        && contents == old(contents) + Record(AddKind, Utf8.Encode(name.s), dumps(Dict(task)))
    {
      if !openOk {
        return Some(IOError);
      }
      var name := GetTaskName(task);
      if name.Err? {
        return Some(name.error);
      }
      if !name.value.Str? {
        return Some(AttributeError);
      }
      var op := Add(name.value, Dict(task));
      EncodeAllAppend(log, op, dumps);
      contents := contents + Record(AddKind, Utf8.Encode(name.value.s), dumps(Dict(task)));
      log := log + [op];
      raised := None;
    }

    /** Appends exactly one record `delete,<name>,null\n`. */
    method DeleteTask(taskName: Value, openOk: bool) returns (raised: Option<Error>)
      requires Valid()
      modifies this
      ensures Valid()
      ensures raised == DeleteRaises(taskName, openOk)
      ensures raised.Some? ==> contents == old(contents) && log == old(log)
      ensures raised.None? ==>
        && log == old(log) + [Delete(taskName)]
        && contents == old(contents) + Record(DeleteKind, Utf8.Encode(taskName.s), NullPayload)
    {
      if !openOk {
        return Some(IOError);
      }
      if !taskName.Str? {
        return Some(AttributeError);
      }
      var op := Delete(taskName);
      EncodeAllAppend(log, op, dumps);
      contents := contents + Record(DeleteKind, Utf8.Encode(taskName.s), NullPayload);
      log := log + [op];
      raised := None;
    }

    /** `update_task` is `add_task`. */
    method UpdateTask(task: TaskDict, openOk: bool) returns (raised: Option<Error>)
      requires Valid()
      modifies this
      ensures Valid()
      ensures raised == AddRaises(task, openOk)
      ensures raised.Some? ==> contents == old(contents) && log == old(log)
      ensures raised.None? ==>
        var name := GetTaskName(task).value;
        && log == old(log) + [Add(name, Dict(task))]
        && contents == old(contents) + Record(AddKind, Utf8.Encode(name.s), dumps(Dict(task)))
    {
      raised := AddTask(task, openOk);
    }

    /** Reads every record, then truncates the file. A read that raises
        leaves the file as it was. When every written operation is safe
        for the line format, the drain returns exactly the operations
        written since the last drain, in order. */
    method GetAndClearOperations(openOk: bool) returns (r: Result<seq<Op>>)
      requires Valid()
      modifies this
      ensures Valid()
      ensures r == (if openOk then DecodeFile(old(contents), loads) else Err(IOError))
      ensures r.Ok? ==> contents == [] && log == []
      ensures r.Err? ==> contents == old(contents) && log == old(log)
      ensures openOk && PickleLaw(dumps, loads) && (forall i :: 0 <= i < |old(log)| ==> RecordSafe(old(log)[i], dumps))
        ==> r == Ok(old(log))
    {
      if !openOk {
        return Err(IOError);
      }
      if PickleLaw(dumps, loads) && (forall i :: 0 <= i < |log| ==> RecordSafe(log[i], dumps)) {
        DecodeEncodeAll(log, dumps, loads);
      }
      r := ReadOperations(contents, loads);
      if r.Ok? {
        contents := [];
        log := [];
      }
    }
  }
}
