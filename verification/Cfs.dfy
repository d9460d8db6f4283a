/**
  The scheduler and its tasks as objects with mutable fields, proved against the state
  machine of CfsSpec.
 */
module Cfs {
  import opened Common
  import opened CfsSpec

  class CFSTask {
    var initVruntime: int
    var delta: nat
    var nice: int
    var id: int

    constructor ()
      ensures AsFields() == FRESH
    {
      initVruntime, delta, nice, id := 0, 0, 0, 0;
    }

    function AsFields(): Fields
      reads this
    {
      Fields(initVruntime, delta, nice, id)
    }

    method GetVruntime() returns (v: int)
      requires NiceOk(nice)
      ensures v == Vruntime(AsFields())
    {
      if nice == 0 {
        v := initVruntime + delta;
      } else {
        v := initVruntime + delta * 1024 / Weight(nice);
      }
    }

    method SetPriority(prio: int)
      requires NiceOk(nice) && NiceOk(prio)
      modifies this
      ensures AsFields() == Reprioritized(old(AsFields()), prio)
    {
      var current := GetVruntime();
      initVruntime := current;
      delta := 0;
      nice := prio;
    }
  }

  class CFScheduler {
    var readyQueue: map<Key, CFSTask>
    var minVruntime: Option<int>
    var idPool: int
    ghost var known: set<CFSTask>
    ghost var owner: map<int, CFSTask>

    constructor ()
      ensures View() == Init()
    {
      readyQueue, minVruntime, idPool := map[], None, 0;
      known, owner := {}, map[];
    }

    /** The abstract state: the fields of all known tasks, and the queue. */
    ghost function View(): State<CFSTask>
      reads this, known
    {
      State(map t | t in known :: t.AsFields(), owner, readyQueue, minVruntime, idPool)
    }

    /** The abstract state once `t` is known. */
    ghost function Knowing(t: CFSTask): State<CFSTask>
      reads this, known, t
    {
      View().(tasks := View().tasks[t := t.AsFields()])
    }

    /** first_key_value of the ordered map. */
    method FirstKey() returns (k: Option<Key>)
      ensures k.None? <==> readyQueue == map[]
      ensures k.Some? ==> IsFirst(readyQueue.Keys, k.value)
      ensures (if k.Some? then Some(k.value.vruntime) else None) == FirstVruntime(readyQueue)
    {
      if readyQueue == map[] {
        return None;
      }
      assert readyQueue.Keys != {} by { var k :| k in readyQueue; }
      HasFirst(readyQueue.Keys);
      var first :| first in readyQueue && forall j | j in readyQueue :: Before(first, j);
      return Some(first);
    }

    method UpdateMinVruntime()
      modifies this`minVruntime
      ensures minVruntime == FirstVruntime(readyQueue)
    {
      var first := FirstKey();
      minVruntime := if first.Some? then Some(first.value.vruntime) else None;
    }

    /** The new fields of an added task, which is known from here on. */
    method Enrol(task: CFSTask, vruntime: int, taskid: int)
      modifies this`known, task
      ensures known == old(known) + {task}
      ensures task.AsFields() == old(task.AsFields()).(initVruntime := vruntime, id := taskid)
      ensures View().tasks == old(Knowing(task)).tasks[task := old(task.AsFields()).(initVruntime := vruntime, id := taskid)]
    {
      task.initVruntime := vruntime;
      task.id := taskid;
      known := known + {task};
    }

    method AddTask(task: CFSTask)
      modifies this, task
      ensures known == old(known) + {task}
      ensures View() == CfsSpec.AddTask(old(Knowing(task)), task)
      ensures task.initVruntime == old(if minVruntime.Some? then minVruntime.value else 0) && task.id == old(idPool)
      ensures task.delta == old(task.delta) && task.nice == old(task.nice) && LeastKey(readyQueue, minVruntime)
    {
      if minVruntime.None? {
        minVruntime := Some(0);
      }
      var vruntime := minVruntime.value;
      var taskid := idPool;
      idPool := idPool + 1;
      Enrol(task, vruntime, taskid);
      ghost var was, tasks := old(Knowing(task)), View().tasks;
      assert tasks == was.tasks[task := was.tasks[task].(initVruntime := vruntime, id := taskid)];
      Enqueue(Key(vruntime, taskid), task);
      FirstIsLeast(readyQueue);
    }

    /** Puts the owner of a fresh id on the queue, and looks for the least key again. */
    method Enqueue(k: Key, task: CFSTask)
      modifies this`readyQueue, this`owner, this`minVruntime
      ensures var queue := old(readyQueue)[k := task];
              View() == State(old(View()).tasks, old(owner)[k.id := task], queue, FirstVruntime(queue), idPool)
    {
      readyQueue := readyQueue[k := task];
      owner := owner[k.id := task];
      UpdateMinVruntime();
    }

    /** Any task may be handed to the scheduler, added or not; from then on it is known. */
    ghost method Meet(task: CFSTask)
      modifies this`known
      ensures known == old(known) + {task} && View() == old(Knowing(task))
    {
      known := known + {task};
    }

    method RemoveTask(task: CFSTask) returns (r: Option<CFSTask>)
      requires NiceOk(task.nice)
      modifies this
      ensures known == old(known) + {task}
      ensures View() == CfsSpec.RemoveTask(old(Knowing(task)), task).0
      ensures r == CfsSpec.RemoveTask(old(Knowing(task)), task).1
    {
      Meet(task);
      var v := task.GetVruntime();
      var k := Key(v, task.id);
      if k in readyQueue {
        r := Some(readyQueue[k]);
        readyQueue := readyQueue - {k};
        UpdateMinVruntime();
      } else {
        r := None;
      }
    }

    method PickNextTask() returns (r: Option<CFSTask>)
      modifies this
      ensures known == old(known)
      ensures View() == CfsSpec.PickNextTask(old(View())).0 && r == CfsSpec.PickNextTask(old(View())).1
    {
      var first := FirstKey();
      if first.None? {
        return None;
      }
      FirstUnique(readyQueue.Keys, first.value);
      r := Some(readyQueue[first.value]);
      readyQueue := readyQueue - {first.value};
    }

    method PutPrevTask(prev: CFSTask)
      requires NiceOk(prev.nice)
      modifies this, prev
      ensures known == old(known) + {prev}
      ensures View() == CfsSpec.PutPrevTask(old(Knowing(prev)), prev)
    {
      Meet(prev);
      var taskid := idPool;
      idPool := idPool + 1;
      prev.id := taskid;
      var v := prev.GetVruntime();
      readyQueue := readyQueue[Key(v, taskid) := prev];
      owner := owner[taskid := prev];
    }

    /** Reports whether the running task has passed the recorded minimum. */
    method TaskTick(current: CFSTask) returns (resched: bool)
      requires NiceOk(current.nice)
      modifies this`known, current
      ensures known == old(known) + {current} && NiceOk(current.nice)
      ensures current.delta == old(current.delta) + 1
      ensures View() == CfsSpec.TaskTick(old(Knowing(current)), current)
      ensures resched <==> minVruntime.None? || Vruntime(current.AsFields()) > minVruntime.value
    {
      Meet(current);
      current.delta := current.delta + 1;
      var v := current.GetVruntime();
      resched := minVruntime.None? || v > minVruntime.value;
    }

    method SetPriority(task: CFSTask, prio: int) returns (ok: bool)
      requires NiceOk(task.nice)
      modifies this`known, task
      ensures known == old(known) + {task}
      ensures ok <==> -20 <= prio <= 19
      ensures ok ==> task.nice == prio && task.delta == 0 && task.id == old(task.id)
      ensures ok ==> task.initVruntime == old(Vruntime(task.AsFields()))
      ensures !ok ==> task.AsFields() == old(task.AsFields())
      ensures View() == CfsSpec.SetPriority(old(Knowing(task)), task, prio)
    {
      Meet(task);
      if -20 <= prio <= 19 {
        task.SetPriority(prio);
        ok := true;
      } else {
        ok := false;
      }
    }
  }

  /** A task that was never added, handed to remove_task, takes out the one that was. */
  method RemoveUnadded() returns (added: CFSTask, other: CFSTask, r: Option<CFSTask>)
    ensures added != other && r == Some(added)
  {
    var scheduler := new CFScheduler();
    added := new CFSTask();
    other := new CFSTask();
    scheduler.AddTask(added);
    r := scheduler.RemoveTask(other);
  }

  lemma FirstUnique(keys: set<Key>, k: Key)
    requires IsFirst(keys, k)
    ensures First(keys) == k
  {
  }
}
