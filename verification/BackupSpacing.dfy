/**
 When the backups that the scheduled check makes are more than the schedule interval apart.
 */
module BackupSpacing {
  import opened Machine
  import opened Backup
  import opened BackupRetention
  import opened BackupRuns

  /** The clock never goes back, nobody deletes by hand, and no id wraps. */
  ghost predicate Orderly(ops: seq<Op>) {
    ClockOrder(ops) && |ops| < TWO_32 - 1 && forall i :: 0 <= i < |ops| ==> !ops[i].call.DeleteCall?
  }

  predicate MakesBackup(s: Store, config: Config, now: uint64) {
    Due(s.backups, config, now) && |s.backups| < MAX_BACKUPS
  }

  /** The times at which the scheduled check made a backup. */
  function Scheduled(config: Config, ops: seq<Op>): seq<uint64> {
    if ops == [] then []
    else
      var n := |ops| - 1;
      Scheduled(config, ops[..n]) +
      (if ops[n].call.CheckCall? && MakesBackup(Run(config, ops[..n]), config, ops[n].now) then [ops[n].now] else [])
  }

  ghost predicate Spaced(times: seq<uint64>, gap: uint32) {
    forall i, j :: 0 <= i < j < |times| ==> times[j] - times[i] > gap
  }

  /** A backup at least as young as t is in the table, or t is long ago. */
  ghost predicate Covered(s: Store, t: uint64, now: uint64, gap: uint32) {
    (exists i :: 0 <= i < |s.backups| && s.backups[i].timestamp >= t) || now - t > gap
  }

  lemma KeptAt(bs: seq<Backup>, m: nat, i: nat)
    requires m < |bs| && i < |bs|
    ensures |DeleteAt(bs, m)| == |bs| - 1
    ensures i < m ==> DeleteAt(bs, m)[i] == bs[i]
    ensures i > m ==> DeleteAt(bs, m)[i - 1] == bs[i]
  {
  }

  lemma EvictStep(bs: seq<Backup>, limit: uint32)
    requires UniqueIds(bs)
    ensures if |bs| <= limit then Evict(bs, limit) == bs
            else UniqueIds(DeleteAt(bs, Oldest(bs))) && Evict(bs, limit) == Evict(DeleteAt(bs, Oldest(bs)), limit)
  {
    hide Oldest, Delete, DeleteAt;
    if |bs| > limit {
      DeleteUnique(bs, Oldest(bs));
    }
  }

  /** Eviction keeps one backup at least as young as any it had, unless it keeps none. */
  lemma {:induction false} EvictKeepsYoung(bs: seq<Backup>, limit: uint32, i: nat) returns (k: nat)
    requires UniqueIds(bs) && limit >= 1 && i < |bs|
    ensures k < |Evict(bs, limit)| && Evict(bs, limit)[k].timestamp >= bs[i].timestamp
    decreases |bs|
  {
    hide *;
    EvictStep(bs, limit);
    if |bs| <= limit {
      k := i;
    } else {
      var m := Oldest(bs);
      KeptAt(bs, m, i);
      if i < m {
        k := EvictKeepsYoung(DeleteAt(bs, m), limit, i);
      } else if i > m {
        k := EvictKeepsYoung(DeleteAt(bs, m), limit, i - 1);
      } else {
        KeptAt(bs, m, if m == 0 then 1 else 0);
        k := EvictKeepsYoung(DeleteAt(bs, m), limit, 0);
      }
    }
  }

  lemma CleanupCovers(s: Store, config: Config, t: uint64, now: uint64)
    requires Ordered(s, now) && Covered(s, t, now, config.scheduleInterval)
    requires config.Retention() >= config.scheduleInterval && config.maxBackups >= 1
    ensures Covered(s.(backups := Cleanup(s.backups, config, now)), t, now, config.scheduleInterval)
  {
    if now - t <= config.scheduleInterval {
      var i :| 0 <= i < |s.backups| && s.backups[i].timestamp >= t;
      assert s.backups[i] in s.backups;
      var kept := Unexpired(s.backups, now, config.Retention());
      DropExpiredFilters(s.backups, now, config.Retention());
      UnexpiredElements(s.backups, now, config.Retention());
      ExpiredIs(s.backups[i], now, config.Retention());
      var j :| 0 <= j < |kept| && kept[j] == s.backups[i];
      var k := EvictKeepsYoung(kept, config.maxBackups, j);
      assert Cleanup(s.backups, config, now)[k].timestamp >= t;
    }
  }

  lemma ExecuteCovers(s: Store, id: uint32, t: uint64, now: uint64, gap: uint32)
    requires Covered(s, t, now, gap)
    ensures Covered(Execute(s, id).0, t, now, gap)
  {
    if i :| 0 <= i < |s.backups| && s.backups[i].timestamp >= t {
      assert Execute(s, id).0.backups[i].timestamp >= t;
    }
  }

  lemma CreateCovers(s: Store, kind: BackupType, t: uint64, now: uint64, gap: uint32)
    requires Covered(s, t, now, gap)
    ensures Covered(Create(s, kind, now).0, t, now, gap)
  {
    if i :| 0 <= i < |s.backups| && s.backups[i].timestamp >= t {
      assert Create(s, kind, now).0.backups[i].timestamp >= t;
    }
  }

  lemma StepCovers(s: Store, config: Config, t: uint64, op: Op)
    requires Ordered(s, op.now) && Covered(s, t, op.now, config.scheduleInterval) && !op.call.DeleteCall?
    requires config.Retention() >= config.scheduleInterval && config.maxBackups >= 1
    ensures Covered(Step(s, config, op), t, op.now, config.scheduleInterval)
  {
    hide Covered, Cleanup, Create, Execute, Due;
    match op.call {
      case CreateCall(kind) => CreateCovers(s, kind, t, op.now, config.scheduleInterval);
      case ExecuteCall(id) => ExecuteCovers(s, id, t, op.now, config.scheduleInterval);
      case CleanupCall => CleanupCovers(s, config, t, op.now);
      case CheckCall =>
        CreateCovers(s, config.defaultType, t, op.now, config.scheduleInterval);
        var (u, id) := Create(s, config.defaultType, op.now);
        ExecuteCovers(u, id, t, op.now, config.scheduleInterval);
    }
  }

  /** A check that makes a backup leaves it in the table, stamped with the clock. */
  lemma CheckLeavesBackup(s: Store, config: Config, now: uint64)
    requires Ordered(s, now) && MakesBackup(s, config, now) && 1 <= s.nextId < TWO_32 - 1
    ensures Covered(ScheduleCheck(s, config, now), now, now, config.scheduleInterval)
  {
    var (t, id) := Create(s, config.defaultType, now);
    assert t.backups[|s.backups|].timestamp == now;
    ExecuteCovers(t, id, now, now, config.scheduleInterval);
  }

  /** A check that makes a backup comes more than the interval after any covered time. */
  lemma DueIsLate(s: Store, config: Config, t: uint64, now: uint64)
    requires Ordered(s, now) && MakesBackup(s, config, now) && Covered(s, t, now, config.scheduleInterval)
    ensures now - t > config.scheduleInterval
  {
  }

  /** The invariant of a run: its scheduled times are spaced, and the last one is covered. */
  ghost predicate SpacedSoFar(s: Store, times: seq<uint64>, now: uint64, gap: uint32) {
    && Spaced(times, gap)
    && (forall i :: 0 <= i < |times| ==> times[i] <= now)
    && (times != [] ==> Covered(s, times[|times| - 1], now, gap))
  }

  lemma SpacedLater(s: Store, times: seq<uint64>, now: uint64, later: uint64, gap: uint32)
    requires SpacedSoFar(s, times, now, gap) && now <= later
    ensures SpacedSoFar(s, times, later, gap)
  {
  }

  lemma StepSpaced(s: Store, config: Config, times: seq<uint64>, op: Op)
    requires Ordered(s, op.now) && 1 <= s.nextId < TWO_32 - 1
    requires SpacedSoFar(s, times, op.now, config.scheduleInterval) && !op.call.DeleteCall?
    requires config.Retention() >= config.scheduleInterval && config.maxBackups >= 1
    ensures var times' := if op.call.CheckCall? && MakesBackup(s, config, op.now) then times + [op.now] else times;
            SpacedSoFar(Step(s, config, op), times', op.now, config.scheduleInterval)
  {
    hide Covered, Ordered, Cleanup, Create, Execute, Due, ScheduleCheck, MakesBackup;
    if op.call.CheckCall? && MakesBackup(s, config, op.now) {
      CheckLeavesBackup(s, config, op.now);
      if times != [] {
        DueIsLate(s, config, times[|times| - 1], op.now);
      }
    } else if times != [] {
      StepCovers(s, config, times[|times| - 1], op);
    }
  }

  lemma NothingScheduled(config: Config, now: uint64)
    ensures SpacedSoFar(EMPTY, [], now, config.scheduleInterval)
  {
  }

  lemma {:induction false} SpacingHolds(config: Config, ops: seq<Op>, now: uint64)
    requires Orderly(ops) && (ops != [] ==> ops[|ops| - 1].now <= now)
    requires config.Retention() >= config.scheduleInterval && config.maxBackups >= 1
    ensures SpacedSoFar(Run(config, ops), Scheduled(config, ops), now, config.scheduleInterval)
  {
    hide SpacedSoFar, Ordered, Step, MakesBackup;
    if ops == [] {
      NothingScheduled(config, now);
    } else {
      var n := |ops| - 1;
      var s, op, times := Run(config, ops[..n]), ops[n], Scheduled(config, ops[..n]);
      SpacingHolds(config, ops[..n], op.now);
      RunOrdered(config, ops[..n], op.now);
      StepSpaced(s, config, times, op);
      assert times + [] == times;
      SpacedLater(Run(config, ops), Scheduled(config, ops), op.now, now, config.scheduleInterval);
    }
  }

  /** The default configuration spaces them by more than a day. */
  lemma DefaultSpacing(ops: seq<Op>)
    requires Orderly(ops)
    ensures Spaced(Scheduled(DEFAULT_CONFIG, ops), SECONDS_PER_DAY)
  {
    SpacingHolds(DEFAULT_CONFIG, ops, if ops == [] then 0 else ops[|ops| - 1].now);
  }

  /** A run that breaks the spacing when backups do not outlive the interval. */
  ghost function EarlyRun(config: Config): seq<Op> {
    var t := if config.maxBackups == 0 then 0 else config.Retention() + 1;
    [Op(0, CheckCall), Op(t, CleanupCall), Op(t, CheckCall)]
  }

  ghost function FirstBackup(config: Config): Backup {
    Done(Backup(1, config.defaultType, Pending, 0, 0, 0))
  }

  lemma FirstCheck(config: Config)
    requires config.enabled
    ensures ScheduleCheck(EMPTY, config, 0) == Store([FirstBackup(config)], 2)
  {
  }

  lemma CleanupEmpties(b: Backup, config: Config, now: uint64)
    requires Expired(b, now, config.Retention()) || config.maxBackups == 0
    ensures Cleanup([b], config, now) == []
  {
    assert IndexOf([b], b.id) == 0;
    if Expired(b, now, config.Retention()) {
      assert Delete([b], b.id) == [];
      assert DropExpired([b], 0, now, config.Retention()) == [];
    } else {
      assert DropExpired([b], 0, now, config.Retention()) == [b];
      assert Oldest([b]) == 0 && Delete([b], b.id) == [];
      assert Evict([b], 0) == Evict([], 0) == [];
    }
  }

  lemma SpacingFails(config: Config)
    requires config.enabled && (config.Retention() < config.scheduleInterval || config.maxBackups == 0)
    ensures Orderly(EarlyRun(config))
    ensures !Spaced(Scheduled(config, EarlyRun(config)), config.scheduleInterval)
  {
    hide ScheduleCheck, Cleanup;
    var ops := EarlyRun(config);
    assert ops[..2][..1] == ops[..1] && ops[..1][..0] == [];
    FirstCheck(config);
    assert Run(config, ops[..0]) == EMPTY && Scheduled(config, ops[..0]) == [];
    assert Scheduled(config, ops[..1]) == [0];
    CleanupEmpties(FirstBackup(config), config, ops[1].now);
    assert Run(config, ops[..2]) == Store([], 2);
    assert Scheduled(config, ops[..2]) == [0];
    var times := Scheduled(config, ops);
    assert times == [0, ops[2].now];
    assert times[1] - times[0] <= config.scheduleInterval;
  }

  /**
   Scheduled backups are more than the interval apart in every orderly run, however cleanups and manual
   backups interleave, iff backups are retained for the interval and at least one is kept.
   */
  lemma SpacingIff(config: Config)
    requires config.enabled
    ensures (forall ops: seq<Op> :: Orderly(ops) ==> Spaced(Scheduled(config, ops), config.scheduleInterval)) <==>
            config.Retention() >= config.scheduleInterval && config.maxBackups >= 1
  {
    if config.Retention() >= config.scheduleInterval && config.maxBackups >= 1 {
      forall ops: seq<Op> | Orderly(ops)
        ensures Spaced(Scheduled(config, ops), config.scheduleInterval)
      {
        SpacingHolds(config, ops, if ops == [] then 0 else ops[|ops| - 1].now);
      }
    } else {
      SpacingFails(config);
    }
  }
}
