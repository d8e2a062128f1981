/** Replaying drained operations onto the scheduler's `entries` map, as
    `Scheduler.sync` does: an add installs (or replaces)
    `_maybe_entry(name, task)` under the name, a delete removes the name
    and raises KeyError when it is absent, and an item that is not a
    triple fails to unpack (ValueError). Operations before the failing
    one stay applied; the rest are not applied. `_maybe_entry` is a
    parameter `mk`; it returns the exception it raises, if it raises
    (building a celery `ScheduleEntry` from a definition can fail), and
    then the add installs nothing and the replay stops. A name that
    cannot be hashed (a list or a dict, which `_get_task_name` lets
    through as a truthy `name`) raises TypeError, for an add once its
    entry was built and for a delete before the lookup. */
module Sync {
  import opened Values
  import opened Tasks

  /** The entries after a replay and the exception it stopped with. */
  datatype Applied<E> = Applied(entries: map<Value, E>, error: Option<Error>)

  /** The reference meaning of a replay. */
  function Apply<E>(entries: map<Value, E>, ops: seq<Op>, mk: (Value, Value) -> Result<E>): Applied<E>
    decreases |ops|
  {
    if ops == [] then
      Applied(entries, None)
    else
      match ops[0]
      case Malformed(_) => Applied(entries, Some(ValueError))
      case Add(n, t) =>
        var e := mk(n, t);
        if e.Err? then Applied(entries, Some(e.error))
        else if !Hashable(n) then Applied(entries, Some(TypeError))
        else Apply(entries[n := e.value], ops[1..], mk)
      case Delete(n) =>
        if !Hashable(n) then Applied(entries, Some(TypeError))
        else if n in entries then Apply(entries - {n}, ops[1..], mk)
        else Applied(entries, Some(KeyError))
  }

  /** The loop of `Scheduler.sync`: replays `ops` in order onto
      `entries`. */
  method ApplyOperations<E>(entries: map<Value, E>, ops: seq<Op>, mk: (Value, Value) -> Result<E>)
    returns (result: map<Value, E>, error: Option<Error>)
    ensures Applied(result, error) == Apply(entries, ops, mk)
  {
    result := entries;
    var i := 0;
    while i < |ops|
      invariant 0 <= i <= |ops|
      invariant Apply(entries, ops, mk) == Apply(result, ops[i..], mk)
    {
      assert ops[i..][0] == ops[i] && ops[i..][1..] == ops[i + 1..];
      var op := ops[i];
      if op.Malformed? {
        return result, Some(ValueError);
      } else if op.Add? {
        var e := mk(op.name, op.task);
        if e.Err? {
          return result, Some(e.error);
        }
        if !Hashable(op.name) {
          return result, Some(TypeError);
        }
        result := result[op.name := e.value];
      } else {
        if !Hashable(op.name) {
          return result, Some(TypeError);
        }
        if op.name !in result {
          return result, Some(KeyError);
        }
        result := result - {op.name};
      }
      i := i + 1;
    }
    assert ops[i..] == [];
    error := None;
  }

  /** Whether an operation names `k`. */
  predicate Names(op: Op, k: Value) {
    (op.Add? || op.Delete?) && op.name == k
  }

  /** The last operation of `ops` that names `k`, if any: it names `k`,
      and no operation after it does. */
  function LastOn(ops: seq<Op>, k: Value): (r: Option<Op>)
    ensures r.Some? ==> Names(r.value, k)
    ensures r.Some? ==>
      exists i :: 0 <= i < |ops| && ops[i] == r.value && forall j :: i < j < |ops| ==> !Names(ops[j], k)
    ensures r.None? ==> forall i :: 0 <= i < |ops| ==> !Names(ops[i], k)
  {
    if ops == [] then None
    else if Names(ops[|ops| - 1], k) then Some(ops[|ops| - 1])
    else
      var front := ops[..|ops| - 1];
      var r := LastOn(front, k);
      assert forall i :: 0 <= i < |front| ==> front[i] == ops[i];
      r
  }

  /** Replaying a concatenation is replaying its parts one after the
      other, unless the first part already raised. */
  lemma {:induction false} ApplyConcat<E>(entries: map<Value, E>, a: seq<Op>, b: seq<Op>, mk: (Value, Value) -> Result<E>)
    ensures Apply(entries, a + b, mk) ==
      var first := Apply(entries, a, mk);
      if first.error.None? then Apply(first.entries, b, mk) else first
    decreases |a|
  {
    if a == [] {
      assert a + b == b;
    } else {
      assert (a + b)[0] == a[0] && (a + b)[1..] == a[1..] + b;
      match a[0]
      case Malformed(_) =>
      case Add(n, t) =>
        if mk(n, t).Ok? && Hashable(n) {
          ApplyConcat(entries[n := mk(n, t).value], a[1..], b, mk);
        }
      case Delete(n) =>
        if Hashable(n) && n in entries {
          ApplyConcat(entries - {n}, a[1..], b, mk);
        }
    }
  }

  /** A replay, finished or not, adds no name that no add of `ops`
      names. */
  lemma {:induction false} ApplyAddsOnlyAdded<E>(entries: map<Value, E>, ops: seq<Op>, mk: (Value, Value) -> Result<E>)
    ensures forall k :: k in Apply(entries, ops, mk).entries ==>
      k in entries || exists i :: 0 <= i < |ops| && ops[i].Add? && ops[i].name == k
    decreases |ops|
  {
    if ops != [] && ops[0].Add? && mk(ops[0].name, ops[0].task).Ok? && Hashable(ops[0].name) {
      var n := ops[0].name;
      ApplyAddsOnlyAdded(entries[n := mk(n, ops[0].task).value], ops[1..], mk);
      assert forall i :: 0 <= i < |ops[1..]| ==> ops[1..][i] == ops[i + 1];
    } else if ops != [] && ops[0].Delete? && Hashable(ops[0].name) && ops[0].name in entries {
      ApplyAddsOnlyAdded(entries - {ops[0].name}, ops[1..], mk);
      assert forall i :: 0 <= i < |ops[1..]| ==> ops[1..][i] == ops[i + 1];
    }
  }

  /** A name that no operation mentions keeps its entry, or its
      absence, whether the replay finished or raised. */
  lemma {:induction false} ApplyUntouched<E>(entries: map<Value, E>, ops: seq<Op>, mk: (Value, Value) -> Result<E>, k: Value)
    requires forall i :: 0 <= i < |ops| ==> !Names(ops[i], k)
    ensures var r := Apply(entries, ops, mk).entries;
      (k in r <==> k in entries) && (k in entries ==> r[k] == entries[k])
    decreases |ops|
  {
    if ops != [] {
      assert !Names(ops[0], k);
      assert forall i :: 0 <= i < |ops[1..]| ==> ops[1..][i] == ops[i + 1];
      match ops[0]
      case Malformed(_) =>
      case Add(n, t) =>
        if mk(n, t).Ok? && Hashable(n) {
          ApplyUntouched(entries[n := mk(n, t).value], ops[1..], mk, k);
        }
      case Delete(n) =>
        if Hashable(n) && n in entries {
          ApplyUntouched(entries - {n}, ops[1..], mk, k);
        }
    }
  }

  /** Replaying one operation. */
  lemma ApplyOne<E>(entries: map<Value, E>, op: Op, mk: (Value, Value) -> Result<E>)
    ensures op.Malformed? ==> Apply(entries, [op], mk) == Applied(entries, Some(ValueError))
    ensures op.Add? && mk(op.name, op.task).Err? ==> Apply(entries, [op], mk) == Applied(entries, Some(mk(op.name, op.task).error))
    ensures op.Add? && mk(op.name, op.task).Ok? && !Hashable(op.name) ==> Apply(entries, [op], mk) == Applied(entries, Some(TypeError))
    ensures op.Add? && mk(op.name, op.task).Ok? && Hashable(op.name) ==>
      Apply(entries, [op], mk) == Applied(entries[op.name := mk(op.name, op.task).value], None)
    ensures op.Delete? && !Hashable(op.name) ==> Apply(entries, [op], mk) == Applied(entries, Some(TypeError))
    ensures op.Delete? && Hashable(op.name) && op.name in entries ==> Apply(entries, [op], mk) == Applied(entries - {op.name}, None)
    ensures op.Delete? && Hashable(op.name) && op.name !in entries ==> Apply(entries, [op], mk) == Applied(entries, Some(KeyError))
  {
    assert [op][1..] == [];
  }

  /** Last write wins: after a replay that did not raise, a name's entry
      is decided by the last operation on it alone: an add leaves the
      entry `mk(name, task)` built, a delete leaves nothing, and no
      operation leaves the old entry. */
  lemma {:induction false} LastWriteWins<E>(entries: map<Value, E>, ops: seq<Op>, mk: (Value, Value) -> Result<E>, k: Value)
    requires Apply(entries, ops, mk).error.None?
    ensures var r := Apply(entries, ops, mk).entries;
      match LastOn(ops, k)
      case None => (k in r <==> k in entries) && (k in entries ==> r[k] == entries[k])
      case Some(op) => if op.Add? then k in r && mk(k, op.task).Ok? && r[k] == mk(k, op.task).value else k !in r
    decreases |ops|
  {
    if ops == [] {
    } else {
      var front, last := ops[..|ops| - 1], ops[|ops| - 1];
      assert ops == front + [last];
      ApplyConcat(entries, front, [last], mk);
      var mid := Apply(entries, front, mk);
      assert mid.error.None?;
      var r := Apply(entries, ops, mk).entries;
      assert Apply(entries, ops, mk) == Apply(mid.entries, [last], mk);
      if !Names(last, k) {
        LastWriteWins(entries, front, mk, k);
        assert LastOn(ops, k) == LastOn(front, k);
        assert (k in r <==> k in mid.entries) && (k in mid.entries ==> r[k] == mid.entries[k]);
      } else {
        ApplyOne(mid.entries, last, mk);
        assert LastOn(ops, k) == Some(last);
      }
    }
  }

  /** A delete of a name that is not scheduled raises KeyError and leaves
      the entries as they were; nothing after it is applied. */
  lemma DeleteAbsentRaises<E>(entries: map<Value, E>, n: Value, rest: seq<Op>, mk: (Value, Value) -> Result<E>)
    requires Hashable(n) && n !in entries
    ensures Apply(entries, [Delete(n)] + rest, mk) == Applied(entries, Some(KeyError))
  {
    assert ([Delete(n)] + rest)[0] == Delete(n);
  }

  /** A name that cannot be hashed raises TypeError: for a delete
      always, for an add once its entry was built. The entries are left
      as they were and nothing after it is applied. */
  lemma UnhashableNameRaises<E>(entries: map<Value, E>, op: Op, rest: seq<Op>, mk: (Value, Value) -> Result<E>)
    requires (op.Add? || op.Delete?) && !Hashable(op.name)
    requires op.Add? ==> mk(op.name, op.task).Ok?
    ensures Apply(entries, [op] + rest, mk) == Applied(entries, Some(TypeError))
  {
    assert ([op] + rest)[0] == op;
  }

  /** An add whose entry cannot be built raises what `_maybe_entry`
      raised and leaves the entries as they were; nothing after it is
      applied. */
  lemma MakeEntryRaises<E>(entries: map<Value, E>, n: Value, t: Value, rest: seq<Op>, mk: (Value, Value) -> Result<E>)
    requires mk(n, t).Err?
    ensures Apply(entries, [Add(n, t)] + rest, mk) == Applied(entries, Some(mk(n, t).error))
  {
    assert ([Add(n, t)] + rest)[0] == Add(n, t);
  }

  /** Replaying only adds of hashable names whose entries can all be
      built never raises: every add is installed. */
  lemma {:induction false} AddsNeverRaise<E>(entries: map<Value, E>, ops: seq<Op>, mk: (Value, Value) -> Result<E>)
    requires forall i :: 0 <= i < |ops| ==> ops[i].Add? && mk(ops[i].name, ops[i].task).Ok? && Hashable(ops[i].name)
    ensures Apply(entries, ops, mk).error.None?
    ensures Apply(entries, ops, mk).entries.Keys == entries.Keys + set i | 0 <= i < |ops| :: ops[i].name
    decreases |ops|
  {
    if ops != [] {
      var n, t := ops[0].name, ops[0].task;
      assert forall i :: 0 <= i < |ops[1..]| ==> ops[1..][i] == ops[i + 1];
      AddsNeverRaise(entries[n := mk(n, t).value], ops[1..], mk);
      var tail := set i | 0 <= i < |ops[1..]| :: ops[1..][i].name;
      var all := set i | 0 <= i < |ops| :: ops[i].name;
      assert all == {n} + tail by {
        forall x | x in all ensures x in {n} + tail {
          var i :| 0 <= i < |ops| && ops[i].name == x;
          if i > 0 { assert ops[1..][i - 1].name == x; }
        }
        forall x | x in tail ensures x in all {
          var i :| 0 <= i < |ops[1..]| && ops[1..][i].name == x;
          assert ops[i + 1].name == x;
        }
      }
    }
  }
}
