/** The task registry of `src/Task.ts`: a module-level insertion-ordered map from
    task name to task, written only by the registration function `Task`. */
module Task {
  import opened Optional
  import opened Op
  import opened OrderedMap

  /** `ITask`: a name, an optional description and the ordered operations. */
  datatype Task = Task(name: string, desc: Option<string>, ops: seq<Op>)

  /** The key under which a task is registered. */
  function TaskName(t: Task): string {
    t.name
  }

  /** The `Tasks` map. There is no deletion: it only grows or overwrites. */
  class Registry {
    var tasks: OMap<Task>

    /** Each task is stored under its own name. */
    ghost predicate Valid()
      reads this
    {
      KeyedBy(tasks, TaskName)
    }

    /** `new Map()` */
    constructor ()
      ensures Valid() && tasks == Empty()
    {
      tasks := Empty();
    }

    /** `Task(name, desc, ops)`: stores `{name, desc, ops}` under `name`, with no
        validation of the operation list (an empty one is accepted). */
    method Define(name: string, desc: Option<string>, ops: seq<Op>)
      requires Valid()
      modifies this
      ensures Valid()
      ensures tasks == old(tasks).Set(name, Task(name, desc, ops))
      ensures tasks.Get(name) == Some(Task(name, desc, ops))
      ensures forall n :: n != name ==> tasks.Get(n) == old(tasks).Get(n)
      ensures forall n :: old(tasks).Has(n) ==> tasks.Has(n)
      ensures old(tasks).Has(name) ==>
        tasks.Size() == old(tasks).Size() && Position(tasks.keys, name) == Position(old(tasks).keys, name)
      ensures !old(tasks).Has(name) ==>
        tasks.Size() == old(tasks).Size() + 1 && Position(tasks.keys, name) == old(tasks).Size()
    {
      var t := Task(name, desc, ops);
      SetKeyedBy(tasks, t, TaskName);
      SetGet(tasks, name, t);
      SetOrder(tasks, name, t);
      forall n | tasks.Has(n)
        ensures tasks.Set(name, t).Has(n)
      {
        SetKeepsKeys(tasks, name, t, n);
      }
      tasks := tasks.Set(name, t);
    }
  }
}
