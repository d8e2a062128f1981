/** `Scheduler.sync` for the two change-log backends of celery_scheduler
    (`FileScheduler`, `ShelveScheduler`) and for `FileScheduler` of
    celery_schedule, which is the shelve variant. `store` is the
    persistent scheduler's `_store`: `None` before the shelf is opened,
    otherwise its `entries` map. Flushing the shelf (`_store.sync()`) is
    not modelled. */
module Schedulers {
  import opened Values
  import opened Tasks
  import opened Sync
  import FileBackend
  import ShelveBackend
  import LineRecords
  import Retry

  class FileScheduler<E> {
    var store: Option<map<Value, E>>
    const changes: FileBackend.FileChanges
    /** `_maybe_entry`. */
    const maybeEntry: (Value, Value) -> Result<E>

    constructor (changes: FileBackend.FileChanges, maybeEntry: (Value, Value) -> Result<E>, store: Option<map<Value, E>>)
      ensures this.changes == changes && this.maybeEntry == maybeEntry && this.store == store
    {
      this.changes := changes;
      this.maybeEntry := maybeEntry;
      this.store := store;
    }

    /** Without a store nothing happens and the change file is not read.
        Otherwise the file is drained (a drain that raises propagates and
        changes nothing) and its operations are replayed in order onto
        the entries. */
    method Sync(openOk: bool) returns (raised: Option<Error>)
      requires changes.Valid()
      modifies this, changes
      ensures changes.Valid()
      ensures old(store).None? ==>
        raised == None && store == None && changes.contents == old(changes.contents) && changes.log == old(changes.log)
      ensures old(store).Some? ==>
        var drained := if openOk then LineRecords.DecodeFile(old(changes.contents), changes.loads) else Err(IOError);
        match drained
        case Err(e) =>
          raised == Some(e) && store == old(store) && changes.contents == old(changes.contents) &&
          changes.log == old(changes.log)
        case Ok(ops) =>
          var applied := Apply(old(store).value, ops, maybeEntry);
          raised == applied.error && store == Some(applied.entries) && changes.contents == [] && changes.log == []
    {
      if store.None? {
        return None;
      }
      var drained := changes.GetAndClearOperations(openOk);
      if drained.Err? {
        return Some(drained.error);
      }
      var entries, error := ApplyOperations(store.value, drained.value, maybeEntry);
      store := Some(entries);
      raised := error;
    }
  }

  class ShelveScheduler<E> {
    var store: Option<map<Value, E>>
    const changes: ShelveBackend.ShelveChanges
    /** `_maybe_entry`. */
    const maybeEntry: (Value, Value) -> Result<E>

    constructor (changes: ShelveBackend.ShelveChanges, maybeEntry: (Value, Value) -> Result<E>, store: Option<map<Value, E>>)
      ensures this.changes == changes && this.maybeEntry == maybeEntry && this.store == store
    {
      this.changes := changes;
      this.maybeEntry := maybeEntry;
      this.store := store;
    }

    /** Without a store nothing happens and the shelf is not touched.
        Otherwise the shelf is drained (nothing, when it cannot be
        opened) and the operations are replayed in order. */
    method Sync(outcomes: seq<bool>) returns (raised: Option<Error>)
      modifies this, changes
      ensures old(store).None? ==> raised == None && store == None && changes.shelf == old(changes.shelf)
      ensures old(store).Some? && Retry.FirstOpening(outcomes, 0).None? ==>
        raised == None && store == old(store) && changes.shelf == old(changes.shelf)
      ensures old(store).Some? && Retry.FirstOpening(outcomes, 0).Some? ==>
        var applied := Apply(old(store).value, old(changes.Operations()), maybeEntry);
        raised == applied.error && store == Some(applied.entries) && changes.shelf == map[]
    {
      if store.None? {
        return None;
      }
      var ops := changes.GetAndClearOperations(outcomes);
      var entries, error := ApplyOperations(store.value, ops, maybeEntry);
      store := Some(entries);
      raised := error;
    }
  }
}
