/** Task dictionaries, the name a task is filed under, and the change-log
    operations that every backend records and the scheduler replays. */
module Tasks {
  import opened Values

  /** A task definition as callers pass it: a dictionary with at least
      `task` (the target) and optionally `name`, `args`, `kwargs`,
      `options` and `schedule`. */
  type TaskDict = map<string, Value>

  /** `_get_task_name`: the truthy `name`, otherwise `task`; a missing
      `task` or one that is not a string is a KeyError, even when a
      name is given. */
  function GetTaskName(task: TaskDict): (r: Result<Value>)
    ensures r.Err? <==> "task" !in task || !task["task"].Str?
    ensures r.Err? ==> r.error == KeyError
    ensures r.Ok? && "name" in task && Truthy(task["name"]) ==> r.value == task["name"]
    ensures r.Ok? && !("name" in task && Truthy(task["name"])) ==> r.value == task["task"]
    ensures r.Ok? ==> r.value != Null
  {
    if "task" !in task || !task["task"].Str? then
      Err(KeyError)
    else if "name" in task && Truthy(task["name"]) then
      Ok(task["name"])
    else
      Ok(task["task"])
  }

  /** The name is always one of the task's own two fields, and a task
      without a usable name falls back to its target. */
  lemma TaskNameFallback(target: string)
    ensures GetTaskName(map["task" := Str(target)]) == Ok(Str(target))
    ensures GetTaskName(map["task" := Str(target), "name" := Null]) == Ok(Str(target))
    ensures GetTaskName(map["task" := Str(target), "name" := Str("")]) == Ok(Str(target))
    ensures forall n :: n != "" ==> GetTaskName(map["task" := Str(target), "name" := Str(n)]) == Ok(Str(n))
  {
  }

  /** A target that is not a string is rejected whatever the name. */
  lemma NonStringTargetRejected(task: TaskDict)
    requires "task" in task && !task["task"].Str?
    ensures GetTaskName(task) == Err(KeyError)
  {
  }

  /** One recorded change. `Malformed` is what a change-file line with
      more than three fields decodes to: a list that the scheduler
      cannot unpack into (operation, name, task). */
  datatype Op =
    | Add(name: Value, task: Value)
    | Delete(name: Value)
    | Malformed(arity: nat)
}
