/**
 What a listed backup says about the run before it: which call made it, when, and whether it was executed.
 */
module BackupHistory {
  import opened Machine
  import opened Backup
  import opened BackupRetention
  import opened BackupRuns

  /** backup_execute succeeds iff the id is listed, completes exactly the backup with that id and changes no other. */
  lemma ExecuteOutcome(s: Store, id: uint32)
    requires UniqueIds(s.backups)
    ensures var (t, r) := Execute(s, id);
            && (if exists b :: b in s.backups && b.id == id then r == 0 else r == -1 && t == s)
            && t.nextId == s.nextId && |t.backups| == |s.backups|
            && forall i {:trigger t.backups[i]} :: 0 <= i < |s.backups| ==>
                 t.backups[i] == if s.backups[i].id != id then s.backups[i]
                                 else s.backups[i].(status := Completed, size := 524288000, fileCount := 1000)
  {
    if i :| 0 <= i < |s.backups| && s.backups[i].id == id {
      assert s.backups[i] in s.backups && IndexOf(s.backups, id) == i;
    }
  }

  /** backup_create returns 0 iff the table is full, and deleting the id it returns takes the backup back. */
  lemma CreateThenDelete(s: Store, kind: BackupType, now: uint64)
    requires IdOrder(s) && 1 <= s.nextId
    ensures var (t, id) := Create(s, kind, now);
            && (id == 0 <==> |s.backups| >= MAX_BACKUPS)
            && Delete(t.backups, id) == s.backups
  {
    var (t, id) := Create(s, kind, now);
    if |s.backups| < MAX_BACKUPS {
      assert t.backups[|s.backups|].id == id;
      assert IndexOf(t.backups, id) == |s.backups|;
    }
  }

  // ----- whole runs

  /** Call j of the run gave out this id. */
  ghost predicate Gives(config: Config, ops: seq<Op>, j: nat, id: uint32) {
    j < |ops| && Run(config, ops[..j]).nextId == id && Run(config, ops[..j + 1]).nextId != id
  }

  ghost predicate ExecutedAfter(ops: seq<Op>, j: nat, id: uint32) {
    exists k :: j < k < |ops| && ops[k].call == ExecuteCall(id)
  }

  /** The backup is the one that call j made, with what was done to it since. */
  ghost predicate Records(config: Config, ops: seq<Op>, j: nat, b: Backup) {
    && Gives(config, ops, j, b.id) && b.timestamp == ops[j].now
    && (ops[j].call == CreateCall(b.kind) || (ops[j].call.CheckCall? && b.kind == config.defaultType))
    && if ops[j].call.CheckCall? || ExecutedAfter(ops, j, b.id) then
         b.status == Completed && b.size == 524288000 && b.fileCount == 1000
       else b.status == Pending && b.size == 0 && b.fileCount == 0
  }

  lemma GivesLater(config: Config, ops: seq<Op>, j: nat, id: uint32)
    requires ops != [] && Gives(config, ops[..|ops| - 1], j, id)
    ensures Gives(config, ops, j, id)
  {
    var n := |ops| - 1;
    assert ops[..n][..j] == ops[..j] && ops[..n][..j + 1] == ops[..j + 1];
  }

  lemma ExecutedLater(ops: seq<Op>, j: nat, id: uint32)
    requires ops != [] && j < |ops| - 1
    ensures ExecutedAfter(ops, j, id) <==>
            ExecutedAfter(ops[..|ops| - 1], j, id) || ops[|ops| - 1].call == ExecuteCall(id)
  {
    var n := |ops| - 1;
    if k :| j < k < |ops| && ops[k].call == ExecuteCall(id) {
      assert k < n ==> ops[..n][k].call == ExecuteCall(id);
    }
    if k :| j < k < n && ops[..n][k].call == ExecuteCall(id) {
      assert ops[k].call == ExecuteCall(id);
    }
  }

  /** A backup that the last call left alone, or completed. */
  lemma RecordsLater(config: Config, ops: seq<Op>, j: nat, before: Backup, b: Backup)
    requires ops != [] && Records(config, ops[..|ops| - 1], j, before)
    requires if ops[|ops| - 1].call == ExecuteCall(before.id) then
               b == before.(status := Completed, size := 524288000, fileCount := 1000)
             else b == before
    ensures Records(config, ops, j, b)
  {
    hide Run, ExecutedAfter;
    GivesLater(config, ops, j, b.id);
    ExecutedLater(ops, j, b.id);
  }

  lemma NewRecord(config: Config, ops: seq<Op>, b: Backup)
    requires ops != []
    requires var op := ops[|ops| - 1];
             && Run(config, ops).nextId != b.id && b.id == Run(config, ops[..|ops| - 1]).nextId && b.timestamp == op.now
             && ((op.call == CreateCall(b.kind) && b.status == Pending && b.size == 0 && b.fileCount == 0) ||
                 (op.call.CheckCall? && b.kind == config.defaultType &&
                  b.status == Completed && b.size == 524288000 && b.fileCount == 1000))
    ensures Records(config, ops, |ops| - 1, b)
  {
    hide Run;
    assert ops[..|ops|] == ops;
  }

  /** Where a listed backup was before the last call, unless that call made it. */
  lemma Earlier(s: Store, config: Config, op: Op, i: nat) returns (k: nat)
    requires Ordered(s, op.now) && 1 <= s.nextId < TWO_32 - 1
    requires i < |Step(s, config, op).backups|
    ensures k < |s.backups| ==>
              var before, b := s.backups[k], Step(s, config, op).backups[i];
              if op.call == ExecuteCall(before.id) then
                b == before.(status := Completed, size := 524288000, fileCount := 1000)
              else b == before
    ensures k >= |s.backups| ==>
              var b := Step(s, config, op).backups[i];
              && Step(s, config, op).nextId != s.nextId && b.id == s.nextId && b.timestamp == op.now
              && ((op.call == CreateCall(b.kind) && b.status == Pending && b.size == 0 && b.fileCount == 0) ||
                  (op.call.CheckCall? && b.kind == config.defaultType &&
                   b.status == Completed && b.size == 524288000 && b.fileCount == 1000))
  {
    hide Due, Cleanup, Delete, Execute, ScheduleCheck;
    k := i;
    match op.call {
      case CreateCall(_) =>
      case CheckCall => ScheduleCheckOutcome(s, config, op.now);
      case ExecuteCall(id) => ExecuteOutcome(s, id);
      case DeleteCall(id) =>
        var at := DeleteThins(s.backups, id);
        k := at[i];
      case CleanupCall =>
        var at := CleanupThins(s.backups, config, op.now);
        k := at[i];
    }
  }

  /**
   In every run with an orderly clock, each listed backup carries the id, the time and the type of the call that made
   it, and is completed iff the scheduled check made it or it was executed later; otherwise it is pending and empty.
   */
  lemma {:induction false} ListedBackup(config: Config, ops: seq<Op>, i: nat) returns (j: nat)
    requires ClockOrder(ops) && |ops| < TWO_32 - 1 && i < |Run(config, ops).backups|
    ensures Records(config, ops, j, Run(config, ops).backups[i])
  {
    hide Step, Records, Ordered;
    var n := |ops| - 1;
    var s := Run(config, ops[..n]);
    RunOrdered(config, ops[..n], ops[n].now);
    var k := Earlier(s, config, ops[n], i);
    if k < |s.backups| {
      j := ListedBackup(config, ops[..n], k);
      RecordsLater(config, ops, j, s.backups[k], Run(config, ops).backups[i]);
    } else {
      j := n;
      NewRecord(config, ops, Run(config, ops).backups[i]);
    }
  }
}
