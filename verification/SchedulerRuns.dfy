/**
 Runs of the scheduler: safety at every point, bounded waiting, what starts the rotation, and exact rotation.
 */
module SchedulerRuns {
  import opened Machine
  import opened Scheduler

  /** CreateOp(false) is a task_create for which no memory was found; TerminateOp names the i-th task created. */
  datatype Op = CreateOp(room: bool) | TerminateOp(task: nat) | NextOp | SwitchOp

  function Step(s: Sched, op: Op): (t: Sched)
    requires s.WellFormed() && (op.TerminateOp? ==> op.task < |s.states|)
    ensures t.WellFormed() && |s.states| <= |t.states|
  {
    match op
    case CreateOp(room) => if room then Create(s) else s
    case TerminateOp(task) => Terminate(s, task)
    case NextOp => Next(s)
    case SwitchOp => Switch(s)
  }

  /** How many tasks a run creates; task_terminate may only name tasks created before. */
  function CreatedIn(ops: seq<Op>): nat {
    if ops == [] then 0
    else CreatedIn(ops[..|ops| - 1]) + (if ops[|ops| - 1] == CreateOp(true) then 1 else 0)
  }

  predicate RunFrom(n: nat, ops: seq<Op>) {
    forall i :: 0 <= i < |ops| && ops[i].TerminateOp? ==> ops[i].task < n + CreatedIn(ops[..i])
  }

  lemma RunFromPrefix(n: nat, ops: seq<Op>, j: nat)
    requires RunFrom(n, ops) && j <= |ops|
    ensures RunFrom(n, ops[..j])
  {
    forall i | 0 <= i < j
      ensures ops[..j][..i] == ops[..i]
    {
    }
  }

  ghost function Run(s: Sched, ops: seq<Op>): (t: Sched)
    requires s.WellFormed() && RunFrom(|s.states|, ops)
    ensures t.WellFormed() && |t.states| == |s.states| + CreatedIn(ops)
  {
    if ops == [] then s
    else
      RunFromPrefix(|s.states|, ops, |ops| - 1);
      Step(Run(s, ops[..|ops| - 1]), ops[|ops| - 1])
  }

  // ----- safety

  /** At most one task is running, and it is the current one. */
  ghost predicate Safe(s: Sched) {
    s.WellFormed() && forall i :: 0 <= i < |s.states| && s.states[i].Running? ==> i == s.current
  }

  lemma {:induction false} RunSafe(s: Sched, ops: seq<Op>)
    requires Safe(s) && RunFrom(|s.states|, ops)
    ensures Safe(Run(s, ops))
  {
    if ops != [] {
      RunFromPrefix(|s.states|, ops, |ops| - 1);
      RunSafe(s, ops[..|ops| - 1]);
    }
  }

  /** A terminated task stays terminated. */
  lemma {:induction false} TerminatedForever(s: Sched, ops: seq<Op>, task: nat)
    requires s.WellFormed() && RunFrom(|s.states|, ops)
    requires task < |s.states| && s.states[task].Terminated?
    ensures Run(s, ops).states[task].Terminated?
  {
    if ops != [] {
      RunFromPrefix(|s.states|, ops, |ops| - 1);
      TerminatedForever(s, ops[..|ops| - 1], task);
    }
  }

  /** A switch moves the cursor iff it is set and some other task is ready, and then to a ready task. */
  lemma SwitchMovesIff(s: Sched)
    requires s.WellFormed()
    ensures Switch(s).current != s.current <==>
            s.current != -1 && exists i :: 0 <= i < |s.states| && i != s.current && s.states[i].Ready?
    ensures Switch(s).current != s.current ==>
            s.states[Switch(s).current].Ready? && Switch(s).states[Switch(s).current].Running?
  {
  }

  ghost function TerminatedIn(ops: seq<Op>): set<nat> {
    if ops == [] then {}
    else TerminatedIn(ops[..|ops| - 1]) + (if ops[|ops| - 1].TerminateOp? then {ops[|ops| - 1].task} else {})
  }

  lemma {:induction false} TerminatedStates(ops: seq<Op>)
    requires RunFrom(0, ops)
    ensures forall i :: 0 <= i < CreatedIn(ops) ==> (Run(EMPTY, ops).states[i].Terminated? <==> i in TerminatedIn(ops))
    ensures forall i :: i in TerminatedIn(ops) ==> i < CreatedIn(ops)
  {
    if ops != [] {
      RunFromPrefix(0, ops, |ops| - 1);
      TerminatedStates(ops[..|ops| - 1]);
    }
  }

  ghost function TerminatedBelow(states: seq<TaskState>): set<nat> {
    set i: nat | i < |states| && states[i].Terminated?
  }

  lemma NoneTerminated()
    ensures TerminatedBelow([]) == {}
  {
  }

  lemma OneMoreTerminated(states: seq<TaskState>)
    requires states != []
    ensures var n := |states| - 1;
            |TerminatedBelow(states)| == |TerminatedBelow(states[..n])| + (if states[n].Terminated? then 1 else 0)
  {
    var n: nat := |states| - 1;
    var before := TerminatedBelow(states[..n]);
    assert n !in before;
    assert TerminatedBelow(states) == before + (if states[n].Terminated? then {n} else {});
  }

  lemma {:induction false} LiveCountIs(states: seq<TaskState>)
    ensures LiveCount(states) == |states| - |TerminatedBelow(states)|
  {
    hide TerminatedBelow;
    if states == [] {
      NoneTerminated();
    } else {
      var n: nat := |states| - 1;
      LiveCountIs(states[..n]);
      OneMoreTerminated(states);
    }
  }

  /** From scheduler_init, get_task_count is the tasks created minus the distinct tasks terminated. */
  lemma TaskCountOverRuns(ops: seq<Op>)
    requires RunFrom(0, ops)
    ensures LiveCount(Run(EMPTY, ops).states) == CreatedIn(ops) - |TerminatedIn(ops)|
  {
    TerminatedStates(ops);
    LiveCountIs(Run(EMPTY, ops).states);
    assert TerminatedBelow(Run(EMPTY, ops).states) == TerminatedIn(ops);
  }

  /** Ids fall strictly from the head of the list to its end iff fewer than 2^32 tasks were created. */
  lemma IdsDecreaseIff(n: nat)
    ensures (forall i, j :: 0 <= i < j < n ==> TaskId(i) < TaskId(j)) <==> n < TWO_32
  {
    if n >= TWO_32 {
      assert TaskId(0) == 1 && TaskId(TWO_32 - 1) == 0;
    }
  }

  // ----- bounded waiting

  /** A ready task that is not current, while the cursor is set. */
  ghost predicate Waits(s: Sched, task: nat) {
    s.WellFormed() && s.current != -1 && task < |s.states| && task != s.current && s.states[task].Ready?
  }

  /** How many places the cursor is from the task, walking the list and wrapping at its end. */
  ghost function Distance(s: Sched, task: nat): int
    requires Waits(s, task)
  {
    if task < s.current then s.current - task else s.current + |s.states| - task
  }

  /** A switch reaches the task or comes closer to it; a task ahead of the cursor stays ahead. */
  lemma SwitchApproaches(s: Sched, task: nat)
    requires Waits(s, task)
    ensures var t := Switch(s);
            t.current == task ||
            (Waits(t, task) && Distance(t, task) < Distance(s, task) && (task < s.current ==> task < t.current))
  {
  }

  ghost function Switches(ops: seq<Op>): nat {
    if ops == [] then 0
    else Switches(ops[..|ops| - 1]) + (if ops[|ops| - 1].SwitchOp? then 1 else 0)
  }

  /** The task is current after the first j operations. */
  ghost predicate CurrentAfter(s: Sched, ops: seq<Op>, task: nat, j: nat)
    requires s.WellFormed() && RunFrom(|s.states|, ops) && j <= |ops|
  {
    RunFromPrefix(|s.states|, ops, j);
    Run(s, ops[..j]).current == task
  }

  /** The task became current after at most N - 1 switches, N being the length of the list at that point. */
  ghost predicate PickedInTime(s: Sched, ops: seq<Op>, task: nat)
    requires s.WellFormed() && RunFrom(|s.states|, ops)
  {
    exists j :: 0 <= j <= |ops| && CurrentAfter(s, ops, task, j) &&
                Switches(ops[..j]) <= |s.states| + CreatedIn(ops[..j]) - 1
  }

  /** The task became current after at most `bound` switches. */
  ghost predicate PickedWithin(s: Sched, ops: seq<Op>, task: nat, bound: nat)
    requires s.WellFormed() && RunFrom(|s.states|, ops)
  {
    exists j :: 0 <= j <= |ops| && CurrentAfter(s, ops, task, j) && Switches(ops[..j]) <= bound
  }

  lemma PickedEarlier(s: Sched, ops: seq<Op>, task: nat, n: nat)
    requires s.WellFormed() && RunFrom(|s.states|, ops) && n <= |ops|
    ensures RunFrom(|s.states|, ops[..n])
    ensures PickedInTime(s, ops[..n], task) ==> PickedInTime(s, ops, task)
    ensures forall bound: nat :: PickedWithin(s, ops[..n], task, bound) ==> PickedWithin(s, ops, task, bound)
  {
    RunFromPrefix(|s.states|, ops, n);
    forall j | 0 <= j <= n
      ensures ops[..n][..j] == ops[..j]
      ensures CurrentAfter(s, ops[..n], task, j) == CurrentAfter(s, ops, task, j)
    {
    }
  }

  /** While the task waits, switches made plus distance left stay below the length of the list. */
  lemma {:induction false} WaitingBudget(s: Sched, ops: seq<Op>, task: nat)
    requires Waits(s, task) && RunFrom(|s.states|, ops) && TerminateOp(task) !in ops
    ensures PickedInTime(s, ops, task) ||
            (Waits(Run(s, ops), task) &&
             Switches(ops) + Distance(Run(s, ops), task) <= |s.states| + CreatedIn(ops) - 1)
  {
    if ops != [] {
      var n := |ops| - 1;
      PickedEarlier(s, ops, task, n);
      WaitingBudget(s, ops[..n], task);
      if !PickedInTime(s, ops[..n], task) && ops[n].SwitchOp? {
        SwitchApproaches(Run(s, ops[..n]), task);
        assert ops[..n + 1] == ops;
        if Switch(Run(s, ops[..n])).current == task {
          assert CurrentAfter(s, ops, task, n + 1);
        }
      }
    }
  }

  lemma {:induction false} AheadBudget(s: Sched, ops: seq<Op>, task: nat)
    requires Waits(s, task) && RunFrom(|s.states|, ops) && TerminateOp(task) !in ops
    requires task < s.current
    ensures PickedWithin(s, ops, task, s.current - task) ||
            (Waits(Run(s, ops), task) && task < Run(s, ops).current &&
             Switches(ops) + Distance(Run(s, ops), task) <= s.current - task)
  {
    if ops != [] {
      var n := |ops| - 1;
      PickedEarlier(s, ops, task, n);
      AheadBudget(s, ops[..n], task);
      if !PickedWithin(s, ops[..n], task, s.current - task) && ops[n].SwitchOp? {
        SwitchApproaches(Run(s, ops[..n]), task);
        assert ops[..n + 1] == ops;
        if Switch(Run(s, ops[..n])).current == task {
          assert CurrentAfter(s, ops, task, n + 1);
        }
      }
    }
  }

  /** A task ahead of the cursor is not delayed by any task created after it began to wait. */
  lemma NewTasksDoNotDelay(s: Sched, ops: seq<Op>, task: nat)
    requires Waits(s, task) && RunFrom(|s.states|, ops) && TerminateOp(task) !in ops
    requires task < s.current && Switches(ops) >= s.current - task
    ensures PickedWithin(s, ops, task, s.current - task)
  {
    AheadBudget(s, ops, task);
  }

  // ----- waiting behind the cursor

  /** While the task stays behind the cursor, switches made plus the cursor stay below where the cursor began. */
  lemma {:induction false} WrapBudget(s: Sched, ops: seq<Op>, task: nat)
    requires Waits(s, task) && RunFrom(|s.states|, ops) && TerminateOp(task) !in ops
    ensures PickedInTime(s, ops, task) ||
            (Waits(Run(s, ops), task) &&
             (task < Run(s, ops).current || Switches(ops) + Run(s, ops).current <= s.current))
  {
    if ops != [] {
      var n := |ops| - 1;
      PickedEarlier(s, ops, task, n);
      WrapBudget(s, ops[..n], task);
      WaitingBudget(s, ops, task);
      if !PickedInTime(s, ops, task) && ops[n].SwitchOp? {
        SwitchApproaches(Run(s, ops[..n]), task);
      }
    }
  }

  lemma {:induction false} CountsAppend(a: seq<Op>, b: seq<Op>)
    ensures CreatedIn(a + b) == CreatedIn(a) + CreatedIn(b)
    ensures Switches(a + b) == Switches(a) + Switches(b)
  {
    if b == [] {
      assert a + b == a;
    } else {
      var n := |b| - 1;
      assert (a + b)[..|a + b| - 1] == a + b[..n];
      CountsAppend(a, b[..n]);
    }
  }

  lemma RunFromParts(n: nat, a: seq<Op>, b: seq<Op>)
    requires RunFrom(n, a + b)
    ensures RunFrom(n, a) && RunFrom(n + CreatedIn(a), b)
  {
    RunFromPrefix(n, a + b, |a|);
    assert (a + b)[..|a|] == a;
    forall i | 0 <= i < |b| && b[i].TerminateOp?
      ensures b[i].task < n + CreatedIn(a) + CreatedIn(b[..i])
    {
      assert (a + b)[|a| + i] == b[i] && (a + b)[..|a| + i] == a + b[..i];
      CountsAppend(a, b[..i]);
    }
  }

  lemma {:induction false} RunAppend(s: Sched, a: seq<Op>, b: seq<Op>)
    requires s.WellFormed() && RunFrom(|s.states|, a + b)
    ensures RunFrom(|s.states|, a) && RunFrom(|Run(s, a).states|, b)
    ensures Run(s, a + b) == Run(Run(s, a), b)
    decreases |b|
  {
    hide Step, RunFrom, CreatedIn;
    RunFromParts(|s.states|, a, b);
    if b == [] {
      assert a + b == a;
    } else {
      var n := |b| - 1;
      assert (a + b)[..|a + b| - 1] == a + b[..n];
      RunFromPrefix(|s.states|, a + b, |a + b| - 1);
      RunAppend(s, a, b[..n]);
    }
  }

  /** A task that is current after some prefix was picked in time at the first such prefix. */
  lemma PickedAtAll(s: Sched, ops: seq<Op>, task: nat, j: nat)
    requires Waits(s, task) && RunFrom(|s.states|, ops) && TerminateOp(task) !in ops
    requires j <= |ops| && CurrentAfter(s, ops, task, j)
    ensures PickedInTime(s, ops, task)
  {
    PickedEarlier(s, ops, task, j);
    WaitingBudget(s, ops[..j], task);
  }

  lemma CurrentInPart(s: Sched, a: seq<Op>, b: seq<Op>, task: nat, k: nat)
    requires s.WellFormed() && RunFrom(|s.states|, a + b) && RunFrom(|s.states|, a)
    requires RunFrom(|Run(s, a).states|, b) && k <= |b| && CurrentAfter(Run(s, a), b, task, k)
    ensures CurrentAfter(s, a + b, task, |a| + k)
  {
    assert (a + b)[..|a| + k] == a + b[..k];
    RunFromPrefix(|s.states|, a + b, |a| + k);
    RunFromPrefix(|Run(s, a).states|, b, k);
    RunAppend(s, a, b[..k]);
  }

  /** With the task ahead of the cursor again after a, what b creates does not delay it. */
  lemma AheadAfter(s: Sched, a: seq<Op>, b: seq<Op>, task: nat) returns (k: nat)
    requires s.WellFormed() && RunFrom(|s.states|, a + b) && RunFrom(|s.states|, a) && TerminateOp(task) !in a + b
    requires Waits(Run(s, a), task) && task < Run(s, a).current
    requires Switches(b) >= |s.states| + CreatedIn(a) - 1 - task
    ensures k <= |b| && CurrentAfter(s, a + b, task, |a| + k)
  {
    hide Switch;
    RunAppend(s, a, b);
    NewTasksDoNotDelay(Run(s, a), b, task);
    k :| 0 <= k <= |b| && CurrentAfter(Run(s, a), b, task, k);
    CurrentInPart(s, a, b, task, k);
  }

  /**
   In any run that does not terminate the task, however creations interleave: once more switches are made than
   the cursor had places ahead of it, as many more as the list then has behind the task suffice to pick it.
   It is picked after at most N - 1 switches in all, N being the length of the list when it is picked.
   */
  lemma BoundedWaiting(s: Sched, ops: seq<Op>, task: nat, j: nat)
    requires Waits(s, task) && RunFrom(|s.states|, ops) && TerminateOp(task) !in ops
    requires j <= |ops| && Switches(ops[..j]) > s.current
    requires Switches(ops) - Switches(ops[..j]) >= |s.states| + CreatedIn(ops[..j]) - 1 - task
    ensures PickedInTime(s, ops, task)
  {
    hide Switch, PickedInTime, CurrentAfter, RunFrom, Run, Switches, CreatedIn;
    var a, b := ops[..j], ops[j..];
    assert a + b == ops;
    CountsAppend(a, b);
    PickedEarlier(s, ops, task, j);
    WrapBudget(s, a, task);
    if !PickedInTime(s, a, task) {
      var k := AheadAfter(s, a, b, task);
      PickedAtAll(s, ops, task, j + k);
    }
  }

  /** The same when the switches of the whole run outnumber all the tasks there are by its end. */
  lemma PickedByCount(s: Sched, ops: seq<Op>, task: nat)
    requires Waits(s, task) && RunFrom(|s.states|, ops) && TerminateOp(task) !in ops
    requires Switches(ops) >= |s.states| + CreatedIn(ops) - 1
    ensures PickedInTime(s, ops, task)
  {
    WaitingBudget(s, ops, task);
  }

  // ----- endless runs

  /** The first n operations of an endless run. */
  ghost function Prefix(run: nat -> Op, n: nat): (ops: seq<Op>)
    ensures |ops| == n
  {
    seq(n, i requires 0 <= i => run(i))
  }

  ghost predicate SwitchesAfter(run: nat -> Op, n: nat) {
    exists m: nat :: m >= n && run(m) == SwitchOp
  }

  /** The scheduler is called again and again. */
  ghost predicate SwitchesForever(run: nat -> Op) {
    forall n: nat :: SwitchesAfter(run, n)
  }

  lemma PrefixGrows(run: nat -> Op, n: nat, m: nat)
    requires n <= m
    ensures Prefix(run, m)[..n] == Prefix(run, n)
  {
  }

  lemma {:induction false} SwitchesGrow(run: nat -> Op, n: nat, m: nat)
    requires n <= m
    ensures Switches(Prefix(run, n)) <= Switches(Prefix(run, m))
  {
    if n < m {
      PrefixGrows(run, m - 1, m);
      SwitchesGrow(run, n, m - 1);
    }
  }

  /** An endless run that keeps switching has prefixes with any number of switches. */
  lemma {:induction false} ManySwitches(run: nat -> Op, k: nat) returns (n: nat)
    requires SwitchesForever(run)
    ensures Switches(Prefix(run, n)) >= k
  {
    n := 0;
    if k > 0 {
      n := ManySwitches(run, k - 1);
      assert SwitchesAfter(run, n);
      var m: nat :| m >= n && run(m) == SwitchOp;
      SwitchesGrow(run, n, m);
      PrefixGrows(run, m, m + 1);
      n := m + 1;
    }
  }

  /**
   No starvation: in every endless run that keeps switching and does not terminate the task, whatever it creates
   and terminates otherwise, the task is picked, within N - 1 switches for the length N of the list at that point.
   */
  lemma EveryTaskIsPicked(s: Sched, run: nat -> Op, task: nat)
    requires Waits(s, task) && SwitchesForever(run)
    requires forall n: nat :: RunFrom(|s.states|, Prefix(run, n))
    requires forall n: nat :: run(n) != TerminateOp(task)
    ensures exists n: nat :: PickedInTime(s, Prefix(run, n), task)
  {
    var j := ManySwitches(run, s.current + 1);
    var n := ManySwitches(run, Switches(Prefix(run, j)) + |s.states| + CreatedIn(Prefix(run, j)));
    if n < j {
      SwitchesGrow(run, n, j);
    } else {
      PrefixGrows(run, j, n);
      forall i | 0 <= i < n ensures Prefix(run, n)[i] != TerminateOp(task) {
        assert Prefix(run, n)[i] == run(i);
      }
      BoundedWaiting(s, Prefix(run, n), task, j);
    }
  }

  // ----- from scheduler_init on

  /** scheduler_next is called by itself while the list has a task. */
  ghost predicate Starts(ops: seq<Op>, j: nat) {
    j < |ops| && ops[j].NextOp? && CreatedIn(ops[..j]) > 0
  }

  /** The cursor gets set iff scheduler_next is called by itself at some point after a task was created. */
  lemma {:induction false} CursorSetIff(ops: seq<Op>)
    requires RunFrom(0, ops)
    ensures Run(EMPTY, ops).current != -1 <==> exists j: nat :: Starts(ops, j)
  {
    if ops != [] {
      var n := |ops| - 1;
      RunFromPrefix(0, ops, n);
      CursorSetIff(ops[..n]);
      forall j: nat | j < n
        ensures Starts(ops, j) <==> Starts(ops[..n], j)
      {
        assert ops[..n][..j] == ops[..j];
      }
      assert Starts(ops, n) <==> ops[n].NextOp? && CreatedIn(ops[..n]) > 0;
    }
  }

  /** The first such call makes the newest task current, the head of the list. */
  lemma FirstPickIsNewest(ops: seq<Op>, j: nat)
    requires RunFrom(0, ops) && Starts(ops, j) && forall k: nat | k < j :: !Starts(ops, k)
    ensures RunFrom(0, ops[..j + 1])
    ensures Run(EMPTY, ops[..j + 1]).current == CreatedIn(ops[..j]) - 1
  {
    RunFromPrefix(0, ops, j);
    RunFromPrefix(0, ops, j + 1);
    var before := ops[..j];
    assert ops[..j + 1][..j] == before;
    assert Run(EMPTY, before).current == -1 by {
      CursorSetIff(before);
      forall k: nat | k < j
        ensures !Starts(before, k)
      {
        assert before[..k] == ops[..k] && !Starts(ops, k);
      }
    }
    assert Run(EMPTY, ops[..j + 1]) == Next(Run(EMPTY, before));
  }

  /**
   scheduler_next changes no task. With the cursor set it changes nothing at all, and returns the task that a switch
   would make current.
   */
  lemma NextPeeks(s: Sched)
    requires s.WellFormed()
    ensures Next(s).states == s.states
    ensures s.current != -1 ==> Next(s) == s && Candidate(s) == Switch(s).current
  {
  }

  /** A task that nobody terminates is ready, or it is running and current. */
  lemma {:induction false} ReadyOrCurrent(ops: seq<Op>, task: nat)
    requires RunFrom(0, ops) && TerminateOp(task) !in ops && task < CreatedIn(ops)
    ensures var s := Run(EMPTY, ops);
            s.states[task].Ready? || (s.states[task].Running? && s.current == task)
  {
    var n := |ops| - 1;
    RunFromPrefix(0, ops, n);
    if task < CreatedIn(ops[..n]) {
      ReadyOrCurrent(ops[..n], task);
    }
  }

  /** The endless run that is left after n operations. */
  function After(run: nat -> Op, n: nat): nat -> Op {
    (i: nat) => run(n + i)
  }

  lemma PrefixAppend(run: nat -> Op, n: nat, m: nat)
    ensures Prefix(run, n + m) == Prefix(run, n) + Prefix(After(run, n), m)
  {
  }

  lemma StillSwitches(run: nat -> Op, n: nat)
    requires SwitchesForever(run)
    ensures SwitchesForever(After(run, n))
  {
    forall k: nat
      ensures SwitchesAfter(After(run, n), k)
    {
      assert SwitchesAfter(run, n + k);
      var m: nat :| m >= n + k && run(m) == SwitchOp;
      assert After(run, n)(m - n) == SwitchOp;
    }
  }

  lemma {:induction false} CreatedGrow(run: nat -> Op, n: nat, m: nat)
    requires n <= m
    ensures CreatedIn(Prefix(run, n)) <= CreatedIn(Prefix(run, m))
  {
    if n < m {
      PrefixGrows(run, m - 1, m);
      CreatedGrow(run, n, m - 1);
    }
  }

  lemma StartedLater(run: nat -> Op, n: nat, m: nat, j: nat)
    requires n <= m && Starts(Prefix(run, n), j)
    ensures Starts(Prefix(run, m), j)
  {
    PrefixGrows(run, j, n);
    PrefixGrows(run, j, m);
  }

  /** The task is current at some point of the run from scheduler_init. */
  ghost predicate EverCurrent(run: nat -> Op, task: nat)
    requires forall n: nat :: RunFrom(0, Prefix(run, n))
  {
    exists n: nat :: Run(EMPTY, Prefix(run, n)).current == task
  }

  lemma PickedAt(run: nat -> Op, task: nat, n: nat, m: nat, j: nat)
    requires forall k: nat :: RunFrom(0, Prefix(run, k))
    requires var s := Run(EMPTY, Prefix(run, n));
             RunFrom(|s.states|, Prefix(After(run, n), m)) && j <= m &&
             CurrentAfter(s, Prefix(After(run, n), m), task, j)
    ensures EverCurrent(run, task)
  {
    PrefixGrows(After(run, n), j, m);
    PrefixAppend(run, n, j);
    RunAppend(EMPTY, Prefix(run, n), Prefix(After(run, n), j));
    assert Run(EMPTY, Prefix(run, n + j)).current == task;
  }

  /** In a run from scheduler_init a waiting task is picked. */
  lemma PickedFromStart(run: nat -> Op, task: nat, n: nat)
    requires SwitchesForever(run) && (forall k: nat :: RunFrom(0, Prefix(run, k)))
    requires forall k: nat :: run(k) != TerminateOp(task)
    requires Waits(Run(EMPTY, Prefix(run, n)), task)
    ensures EverCurrent(run, task)
  {
    hide Waits, Prefix;
    var s, rest := Run(EMPTY, Prefix(run, n)), After(run, n);
    StillSwitches(run, n);
    forall m: nat
      ensures RunFrom(|s.states|, Prefix(rest, m))
    {
      PrefixAppend(run, n, m);
      RunAppend(EMPTY, Prefix(run, n), Prefix(rest, m));
    }
    EveryTaskIsPicked(s, rest, task);
    var m: nat :| PickedInTime(s, Prefix(rest, m), task);
    var j :| 0 <= j <= |Prefix(rest, m)| && CurrentAfter(s, Prefix(rest, m), task, j);
    PickedAt(run, task, n, m, j);
  }

  /**
   In every endless run from scheduler_init that keeps switching: a task that is created at some point and never
   terminated is picked iff scheduler_next is once called by itself after a task was created. Switches alone, which
   is all that scheduler_yield makes, never start the rotation.
   */
  lemma PickedIffStarted(run: nat -> Op, task: nat, born: nat)
    requires SwitchesForever(run) && (forall k: nat :: RunFrom(0, Prefix(run, k)))
    requires task < CreatedIn(Prefix(run, born)) && forall k: nat :: run(k) != TerminateOp(task)
    ensures EverCurrent(run, task) <==> exists n: nat, j: nat :: Starts(Prefix(run, n), j)
  {
    if n: nat :| Run(EMPTY, Prefix(run, n)).current == task {
      CursorSetIff(Prefix(run, n));
    } else if n: nat, j: nat :| Starts(Prefix(run, n), j) {
      var k := if n < born then born else n;
      StartedLater(run, n, k, j);
      CursorSetIff(Prefix(run, k));
      CreatedGrow(run, born, k);
      ReadyOrCurrent(Prefix(run, k), task);
      PickedFromStart(run, task, k);
    }
  }

  // ----- exact rotation

  /** Every task can run, and a running one is current. */
  ghost predicate AllRunnable(s: Sched) {
    forall i :: 0 <= i < |s.states| ==> s.states[i].Ready? || (i == s.current && s.states[i].Running?)
  }

  ghost function SwitchTimes(s: Sched, k: nat): (t: Sched)
    requires s.WellFormed()
    ensures t.WellFormed()
  {
    if k == 0 then s else Switch(SwitchTimes(s, k - 1))
  }

  /** The place k steps before c on a circle of n places. */
  ghost function Back(c: int, k: nat, n: nat): (r: nat)
    requires n > 0
    ensures r < n
  {
    (c - k) % n
  }

  lemma RotateOne(s: Sched)
    requires s.WellFormed() && s.current != -1 && AllRunnable(s)
    ensures AllRunnable(Switch(s)) && |Switch(s).states| == |s.states|
    ensures Switch(s).current == if s.current > 0 then s.current - 1 else |s.states| - 1
  {
  }

  lemma MultipleGrows(d: int, n: nat)
    ensures d >= 1 ==> d * n >= n
    ensures d <= -1 ==> d * n + n <= 0
  {
  }

  lemma ModIs(a: int, n: nat, q: int, r: nat)
    requires r < n && a == q * n + r
    ensures a % n == r
  {
    var d := a / n - q;
    assert d * n == r - a % n;
    MultipleGrows(d, n);
  }

  lemma BackIs(c: int, k: nat, n: nat, q: int, r: nat)
    requires r < n && c - k == q * n + r
    ensures Back(c, k, n) == r
  {
    ModIs(c - k, n, q, r);
  }

  lemma BackStep(c: int, k: nat, n: nat)
    requires n > 0 && k > 0
    ensures Back(c, k, n) == if Back(c, k - 1, n) > 0 then Back(c, k - 1, n) - 1 else n - 1
  {
    var a, r := c - (k - 1), Back(c, k - 1, n);
    var q := a / n;
    if r > 0 {
      BackIs(c, k, n, q, r - 1);
    } else {
      assert q * n - 1 == (q - 1) * n + (n - 1);
      BackIs(c, k, n, q - 1, n - 1);
    }
  }

  /** With every task runnable, k switches move the cursor exactly k places round the list. */
  lemma {:induction false} Rotation(s: Sched, k: nat)
    requires s.WellFormed() && s.current != -1 && AllRunnable(s)
    ensures AllRunnable(SwitchTimes(s, k)) && |SwitchTimes(s, k).states| == |s.states|
    ensures SwitchTimes(s, k).current == Back(s.current, k, |s.states|)
  {
    hide Switch, AllRunnable, Back;
    if k == 0 {
      BackIs(s.current, k, |s.states|, 0, s.current);
    } else {
      Rotation(s, k - 1);
      RotateOne(SwitchTimes(s, k - 1));
      BackStep(s.current, k, |s.states|);
    }
  }

  /** The bound is met: the task just behind the cursor waits for all N - 1 switches. */
  lemma WaitingBoundIsTight(s: Sched, task: nat, k: nat)
    requires s.WellFormed() && s.current != -1 && AllRunnable(s) && task == s.current + 1 < |s.states|
    ensures k < |s.states| - 1 ==> SwitchTimes(s, k).current != task
    ensures SwitchTimes(s, |s.states| - 1).current == task
  {
    hide SwitchTimes, AllRunnable, Back;
    var c, n := s.current, |s.states|;
    Rotation(s, k);
    Rotation(s, n - 1);
    BackIs(c, n - 1, n, -1, task);
    if k <= c {
      BackIs(c, k, n, 0, c - k);
    } else if k < n - 1 {
      BackIs(c, k, n, -1, c - k + n);
    }
  }
}
