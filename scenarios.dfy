/** End-to-end runs of the modelled classes: a caller adds a task, the
    scheduler syncs, the caller deletes it, the scheduler syncs again. */
module Scenarios {
  import opened Values
  import opened Tasks
  import opened Sync
  import Codec
  import FileBackend
  import ShelveBackend
  import Schedulers
  import LineRecords
  import Retry

  /** The entry the scheduler keeps for a drained add: here the task
      definition itself, which is always accepted. */
  function KeepTask(name: Value, task: Value): Result<Value> { Ok(task) }

  const Nightly: TaskDict := map["name" := Str("nightly"), "task" := Str("job.run"), "schedule" := Int(3600)]

  /** Add `nightly` through the shelf, sync: the schedule has `nightly`
      with target `job.run`. Delete it, sync: it is gone. A third sync
      with nothing recorded changes nothing. */
  method ShelveNightly() returns (afterAdd: map<Value, Value>, afterDelete: map<Value, Value>, afterIdle: map<Value, Value>)
    ensures Str("nightly") in afterAdd && afterAdd[Str("nightly")] == Dict(Nightly)
    ensures Str("nightly") !in afterDelete
    ensures afterIdle == afterDelete
  {
    var changes := new ShelveBackend.ShelveChanges();
    var scheduler := new Schedulers.ShelveScheduler(changes, KeepTask, Some(map[]));
    var nightly := Str("nightly");
    assert GetTaskName(Nightly) == Ok(nightly);
    var raised := changes.AddTask(Nightly, true);
    assert changes.Operations() == [Add(nightly, Dict(Nightly))];
    assert Retry.FirstOpening([true], 0) == Some(0);
    assert Apply(map[], [Add(nightly, Dict(Nightly))], KeepTask) == Applied(map[nightly := Dict(Nightly)], None);
    raised := scheduler.Sync([true]);
    afterAdd := scheduler.store.value;
    raised := changes.DeleteTask(nightly, true);
    assert changes.Operations() == [Delete(nightly)];
    assert Retry.FirstOpening([false, false, true], 0) == Some(2);
    assert Apply(afterAdd, [Delete(nightly)], KeepTask) == Applied(afterAdd - {nightly}, None);
    raised := scheduler.Sync([false, false, true]);
    afterDelete := scheduler.store.value;
    assert changes.Operations() == [];
    raised := scheduler.Sync([true]);
    afterIdle := scheduler.store.value;
  }

  /** A target that is not a string is rejected and nothing is recorded. */
  method ShelveRejectsNonStringTarget() returns (raised: Option<Error>, pending: seq<Op>)
    ensures raised == Some(KeyError) && pending == []
  {
    var changes := new ShelveBackend.ShelveChanges();
    raised := changes.AddTask(map["task" := Int(123)], true);
    pending := changes.Operations();
  }

  /** Two drains of the change file with no write between them: the
      second returns nothing. */
  method FileDrainTwice(dumps: Value -> seq<byte>, loads: seq<byte> -> Result<Value>, name: string)
    returns (first: Result<seq<Op>>, second: Result<seq<Op>>)
    ensures first.Ok? ==> second == Ok([])
    ensures LineRecords.PickleLaw(dumps, loads) && LineRecords.PlainField(LineRecords.Utf8.Encode(name)) ==>
      first == Ok([Delete(Str(name))])
  {
    var changes := new FileBackend.FileChanges(dumps, loads);
    var raised := changes.DeleteTask(Str(name), true);
    assert changes.log == [Delete(Str(name))];
    assert LineRecords.PlainField(LineRecords.Utf8.Encode(name)) ==> LineRecords.RecordSafe(changes.log[0], dumps);
    first := changes.GetAndClearOperations(true);
    second := changes.GetAndClearOperations(true);
  }

  /** A delete of a name with a comma in it, then a delete of `x`, then
      a sync: the first item fails to unpack, so `x` stays scheduled,
      and the change file was already emptied, so the delete of `x` is
      lost for good. */
  method FileCommaNameLosesLaterChanges(dumps: Value -> seq<byte>, loads: seq<byte> -> Result<Value>)
    returns (raised: Option<Error>, store: Option<map<Value, Value>>, pending: seq<byte>)
    ensures LineRecords.PickleLaw(dumps, loads) ==>
      raised == Some(ValueError) && store == Some(map[Str("x") := Null]) && pending == []
  {
    var changes := new FileBackend.FileChanges(dumps, loads);
    var scheduler := new Schedulers.FileScheduler(changes, KeepTask, Some(map[Str("x") := Null]));
    var r := changes.DeleteTask(Str("a,b"), true);
    r := changes.DeleteTask(Str("x"), true);
    if LineRecords.PickleLaw(dumps, loads) {
      assert changes.log == [Delete(Str("a,b"))] + [Delete(Str("x"))];
      assert LineRecords.Utf8.Encode("x") == [120];
      LineRecords.CommaInNameSplitsRecord([Delete(Str("x"))], dumps, loads);
      assert ([Malformed(4)] + [Delete(Str("x"))])[0] == Malformed(4);
    }
    raised := scheduler.Sync(true);
    store := scheduler.store;
    pending := changes.contents;
  }

  // A crontab whose minute field is "every fifth minute" reads back with
  // all five fields unchanged.
  lemma CrontabFiveMinutes()
    ensures var c := Crontab(Str("*/5"), Str("*"), Str("*"), Str("*"), Str("*"));
      Codec.Deserialize(Codec.Serialize(c).value) == Ok(c)
  {
    Codec.RoundTrip(Crontab(Str("*/5"), Str("*"), Str("*"), Str("*"), Str("*")));
  }
}
