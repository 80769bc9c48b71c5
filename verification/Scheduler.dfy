/**
 The round-robin scheduler. Tasks form a linked list with the newest at its head; nothing is
 ever taken out of it. Sched numbers tasks in order of creation, so walking the list means
 counting down. The class RoundRobin holds the linked list and is proved against Sched.
 */
module Scheduler {
  import opened Machine

  datatype TaskState = Ready | Running | Blocked | Terminated

  /** `states[i]` is the state of the i-th task created; `current` is such an i, or -1 for none. */
  datatype Sched = Sched(states: seq<TaskState>, current: int) {
    predicate WellFormed() {
      -1 <= current < |states|
    }
  }

  const EMPTY := Sched([], -1)

  /** The first ready task met when walking the list through tasks hi - 1 down to lo, or -1. */
  function FirstReady(states: seq<TaskState>, lo: nat, hi: nat): (r: int)
    requires lo <= hi <= |states|
    ensures r == -1 <==> forall i :: lo <= i < hi ==> !states[i].Ready?
    ensures r != -1 ==> lo <= r < hi && states[r].Ready? && forall i :: r < i < hi ==> !states[i].Ready?
  {
    if lo == hi then -1 else if states[hi - 1].Ready? then hi - 1 else FirstReady(states, lo, hi - 1)
  }

  lemma FoundReady(states: seq<TaskState>, lo: nat, hi: nat, r: int)
    requires lo <= r < hi <= |states|
    requires states[r].Ready? && forall i :: r < i < hi ==> !states[i].Ready?
    ensures FirstReady(states, lo, hi) == r
  {
  }

  function Create(s: Sched): Sched {
    s.(states := s.states + [Ready])
  }

  function Terminate(s: Sched, task: nat): Sched
    requires task < |s.states|
  {
    s.(states := s.states[task := Terminated])
  }

  /** The task scheduler_next returns: behind the cursor first, then from the head up to the cursor. */
  function Candidate(s: Sched): (r: int)
    requires s.WellFormed()
    ensures -1 <= r < |s.states|
    ensures s.current != -1 ==> r == s.current || (r != -1 && s.states[r].Ready?)
  {
    if s.current == -1 then |s.states| - 1
    else
      var later := FirstReady(s.states, 0, s.current);
      var wrapped := FirstReady(s.states, s.current + 1, |s.states|);
      if later != -1 then later else if wrapped != -1 then wrapped else s.current
  }

  /** scheduler_next sets the cursor to the head when it was unset, and changes nothing else. */
  function Next(s: Sched): Sched
    requires s.WellFormed()
  {
    if s.current == -1 then s.(current := Candidate(s)) else s
  }

  function Switch(s: Sched): (t: Sched)
    requires s.WellFormed()
    ensures t.WellFormed()
  {
    if s.current == -1 || Candidate(s) == s.current then s
    else
      var resting := if s.states[s.current].Running? then s.states[s.current := Ready] else s.states;
      Sched(resting[Candidate(s) := Running], Candidate(s))
  }

  /** How many of the tasks are not terminated. */
  function LiveCount(states: seq<TaskState>): nat {
    if states == [] then 0
    else LiveCount(states[..|states| - 1]) + (if states[|states| - 1].Terminated? then 0 else 1)
  }

  /** The 32-bit id that the i-th task created gets. */
  function TaskId(i: nat): uint32 {
    (i + 1) % TWO_32
  }

  lemma NextTaskId(i: nat)
    ensures Add32(TaskId(i), 1) == TaskId(i + 1)
  {
  }

  lemma CountOneMore(n: nat)
    ensures Add32(n % TWO_32, 1) == (n + 1) % TWO_32
  {
  }

  class Task {
    const id: uint32
    const next: Task?
    var state: TaskState

    constructor (id: uint32, next: Task?)
      ensures this.id == id && this.next == next && state == Ready
    {
      this.id, this.next, this.state := id, next, Ready;
    }
  }

  class RoundRobin {
    var taskList: Task?
    var currentTask: Task?
    var nextTaskId: uint32
    ghost var created: seq<Task>

    ghost predicate Valid()
      reads this
    {
      && (forall i, j :: 0 <= i < j < |created| ==> created[i] != created[j])
      && (forall i {:trigger created[i].next} :: 0 <= i < |created| ==>
            created[i].next == if i == 0 then null else created[i - 1])
      && (forall i {:trigger created[i].id} :: 0 <= i < |created| ==> created[i].id == TaskId(i))
      && taskList == (if created == [] then null else created[|created| - 1])
      && nextTaskId == TaskId(|created|)
      && (currentTask != null ==> currentTask in created)
    }

    /** The order of creation of a listed task. */
    ghost function Number(t: Task?): (i: int)
      requires t != null ==> t in created
      reads this
      ensures if t == null then i == -1 else 0 <= i < |created| && created[i] == t
    {
      if t == null then -1 else var i :| 0 <= i < |created| && created[i] == t; i
    }

    ghost function State(): (s: Sched)
      requires Valid()
      reads this, created
      ensures s.WellFormed()
    {
      Sched(seq(|created|, i requires 0 <= i < |created| reads this, created => created[i].state),
            Number(currentTask))
    }

    constructor ()
      ensures Valid() && State() == EMPTY
    {
      taskList, currentTask, nextTaskId, created := null, null, 1, [];
    }

    method Init()
      modifies this
      ensures Valid() && State() == EMPTY
    {
      taskList, currentTask, nextTaskId, created := null, null, 1, [];
    }

    /** Ids fall strictly along the list, so walking it ends: no task is met twice. */
    lemma IdsFall(task: Task)
      requires Valid() && task in created && |created| < TWO_32
      ensures task.next != null ==> task.next in created && task.next.id < task.id
    {
    }

    /** `room` says whether the allocator found room for the task. */
    method TaskCreate(room: bool) returns (task: Task?)
      requires Valid()
      modifies this
      ensures Valid()
      ensures room <==> task != null
      ensures task == null ==> State() == old(State()) && created == old(created)
      ensures task != null ==>
        fresh(task) && created == old(created) + [task] && State() == Create(old(State()))
    {
      if !room {
        return null;
      }
      NextTaskId(|created|);
      task := new Task(nextTaskId, taskList);
      nextTaskId := Add32(nextTaskId, 1);
      created := created + [task];
      taskList := task;
    }

    method TaskTerminate(task: Task?)
      requires Valid()
      requires task != null ==> task in created
      modifies created
      ensures Valid()
      ensures State() == if task == null then old(State()) else Terminate(old(State()), old(Number(task)))
    {
      if task == null {
        return;
      }
      task.state := Terminated;
    }

    /** One pass of the search: the first ready task from `start` on, stopping before `stop` or at the end. */
    method FindReady(start: Task?, stop: Task?, ghost lo: nat, ghost hi: nat) returns (found: Task?)
      requires Valid() && lo <= hi <= |created|
      requires start == if hi == 0 then null else created[hi - 1]
      requires stop == if lo == 0 then null else created[lo - 1]
      ensures found != null ==> found in created
      ensures Number(found) == FirstReady(State().states, lo, hi)
    {
      hide FirstReady, TaskId;
      ghost var k, states := hi, State().states;
      found := start;
      while found != null && found != stop
        invariant lo <= k <= hi
        invariant found == if k == 0 then null else created[k - 1]
        invariant forall m :: k <= m < hi ==> !states[m].Ready?
        decreases k
      {
        assert found.state == states[k - 1];
        if found.state == Ready {
          FoundReady(states, lo, hi, k - 1);
          return found;
        }
        found, k := found.next, k - 1;
      }
      return null;
    }

    method SchedulerNext() returns (task: Task?)
      requires Valid()
      modifies this`currentTask
      ensures Valid() && State() == Next(old(State()))
      ensures task != null ==> task in created
      ensures Number(task) == Candidate(old(State()))
      ensures if old(currentTask) == null then task == taskList && currentTask == taskList
              else currentTask == old(currentTask)
    {
      hide FirstReady, TaskId;
      if currentTask == null {
        currentTask := taskList;
        return currentTask;
      }
      ghost var i := Number(currentTask);
      task := FindReady(currentTask.next, null, 0, i);
      if task == null {
        task := FindReady(taskList, currentTask, i + 1, |created|);
        if task == null {
          task := currentTask;
        }
      }
    }

    method SchedulerSwitch()
      requires Valid()
      modifies this`currentTask, created
      ensures Valid() && State() == Switch(old(State()))
    {
      hide Candidate, TaskId, FirstReady;
      if currentTask == null {
        return;
      }
      ghost var s := State();
      var nextTask := SchedulerNext();
      ghost var c, n := s.current, Candidate(s);
      assert created[c] == currentTask && created[n] == nextTask;
      if nextTask == currentTask {
        return;
      }
      if currentTask.state == Running {
        currentTask.state := Ready;
      }
      nextTask.state := Running;
      currentTask := nextTask;
      assert Number(currentTask) == n;
      assert State().states == Switch(s).states;
    }

    method GetTaskCount() returns (count: uint32)
      requires Valid()
      ensures count == LiveCount(State().states) % TWO_32
    {
      count := 0;
      var task := taskList;
      ghost var k, n, states := |created|, 0, State().states;
      assert states[..k] == states;
      while task != null
        invariant 0 <= k <= |created|
        invariant task == if k == 0 then null else created[k - 1]
        invariant 0 <= n && count == n % TWO_32 && n + LiveCount(states[..k]) == LiveCount(states)
        decreases k
      {
        assert states[..k][..k - 1] == states[..k - 1];
        assert task.state == states[k - 1];
        if task.state != Terminated {
          CountOneMore(n);
          count, n := Add32(count, 1), n + 1;
        }
        task, k := task.next, k - 1;
      }
    }
  }
}
