/**
 The backup table: creation, deletion by id, retention cleanup and the scheduled check.
 Store is what the table and the id counter say; the class BackupSystem keeps the table in a
 fixed array and is proved against the functions on Store. The clock is a parameter.
 */
module Backup {
  import opened Machine

  const MAX_BACKUPS := 30
  const SECONDS_PER_DAY := 86400

  datatype BackupType = Full | Incremental | Differential

  datatype BackupStatus = Pending | InProgress | Completed | Failed

  datatype Backup = Backup(
    id: uint32, kind: BackupType, status: BackupStatus,
    timestamp: uint64, size: uint64, fileCount: uint32)

  datatype Config = Config(
    enabled: bool, defaultType: BackupType,
    retentionDays: uint32, maxBackups: uint32, scheduleInterval: uint32)
  {
    /** The retention period in seconds, multiplied in 32 bits. */
    function Retention(): uint32 {
      Mul32(retentionDays, SECONDS_PER_DAY)
    }
  }

  const DEFAULT_CONFIG := Config(true, Incremental, 7, 30, 86400)

  datatype Store = Store(backups: seq<Backup>, nextId: uint32)

  const EMPTY := Store([], 1)

  // ----- what each operation does to the table

  /** The first position of a backup with this id, or -1. */
  function IndexOf(bs: seq<Backup>, id: uint32): (r: int)
    ensures r == -1 <==> forall i :: 0 <= i < |bs| ==> bs[i].id != id
    ensures r != -1 ==> 0 <= r < |bs| && bs[r].id == id && forall i :: 0 <= i < r ==> bs[i].id != id
  {
    if bs == [] then -1
    else
      var r := IndexOf(bs[..|bs| - 1], id);
      if r != -1 then r else if bs[|bs| - 1].id == id then |bs| - 1 else -1
  }

  function DeleteAt(bs: seq<Backup>, i: nat): seq<Backup>
    requires i < |bs|
  {
    bs[..i] + bs[i + 1..]
  }

  function Delete(bs: seq<Backup>, id: uint32): (r: seq<Backup>)
    ensures |r| == |bs| - (if IndexOf(bs, id) == -1 then 0 else 1)
  {
    if IndexOf(bs, id) == -1 then bs else DeleteAt(bs, IndexOf(bs, id))
  }

  /** The store after backup_create, and the id it returns: 0 when the table is full. */
  function Create(s: Store, kind: BackupType, now: uint64): (Store, uint32) {
    if |s.backups| >= MAX_BACKUPS then (s, 0)
    else (Store(s.backups + [Backup(s.nextId, kind, Pending, now, 0, 0)], Add32(s.nextId, 1)), s.nextId)
  }

  function Done(b: Backup): Backup {
    b.(status := Completed, fileCount := 1000, size := 524288000)
  }

  function Execute(s: Store, id: uint32): (Store, int) {
    var i := IndexOf(s.backups, id);
    if i == -1 then (s, -1)
    else (s.(backups := s.backups[i := Done(s.backups[i])]), 0)
  }

  /** The age is computed in 64 bits, so a timestamp after the clock counts as very old. */
  predicate Expired(b: Backup, now: uint64, retention: uint32) {
    Sub64(now, b.timestamp) > retention
  }

  /** The first loop of the cleanup from position i on: it deletes by id from the table it walks. */
  function DropExpired(bs: seq<Backup>, i: nat, now: uint64, retention: uint32): seq<Backup>
    requires i <= |bs|
    decreases |bs| - i
  {
    if i == |bs| then bs
    else if Expired(bs[i], now, retention) then DropExpired(Delete(bs, bs[i].id), i, now, retention)
    else DropExpired(bs, i + 1, now, retention)
  }

  /** The first position with the least timestamp. */
  function Oldest(bs: seq<Backup>): (r: nat)
    requires bs != []
    ensures r < |bs|
    ensures forall i :: 0 <= i < |bs| ==> bs[r].timestamp <= bs[i].timestamp
    ensures forall i :: 0 <= i < r ==> bs[r].timestamp < bs[i].timestamp
  {
    var n := |bs| - 1;
    if n == 0 then 0
    else
      var r := Oldest(bs[..n]);
      if bs[n].timestamp < bs[r].timestamp then n else r
  }

  /** The second loop of the cleanup: it deletes the oldest until at most `limit` are left. */
  function Evict(bs: seq<Backup>, limit: uint32): seq<Backup>
    decreases |bs|
  {
    if |bs| <= limit then bs else Evict(Delete(bs, bs[Oldest(bs)].id), limit)
  }

  function Cleanup(bs: seq<Backup>, config: Config, now: uint64): seq<Backup> {
    Evict(DropExpired(bs, 0, now, config.Retention()), config.maxBackups)
  }

  /** The first position with the greatest timestamp, or -1 for an empty table. */
  function Latest(bs: seq<Backup>): (r: int)
    ensures r == -1 <==> bs == []
    ensures r != -1 ==> 0 <= r < |bs| && (forall i :: 0 <= i < |bs| ==> bs[i].timestamp <= bs[r].timestamp) &&
                        forall i :: 0 <= i < r ==> bs[i].timestamp < bs[r].timestamp
  {
    if bs == [] then -1
    else
      var n := |bs| - 1;
      var r := Latest(bs[..n]);
      if r == -1 || bs[n].timestamp > bs[r].timestamp then n else r
  }

  /** Whether the scheduled check tries to make a backup. */
  predicate Due(bs: seq<Backup>, config: Config, now: uint64) {
    config.enabled &&
    (bs == [] || Sub64(now, bs[Latest(bs)].timestamp) > config.scheduleInterval)
  }

  function ScheduleCheck(s: Store, config: Config, now: uint64): Store {
    if !Due(s.backups, config, now) then s
    else
      var (t, id) := Create(s, config.defaultType, now);
      if id > 0 then Execute(t, id).0 else t
  }

  // ----- the table itself

  class BackupSystem {
    const backups: array<Backup>
    var backupCount: nat
    var nextBackupId: uint32
    var config: Config

    ghost predicate Valid()
      reads this
    {
      backups.Length == MAX_BACKUPS && backupCount <= MAX_BACKUPS
    }

    ghost function State(): (s: Store)
      requires Valid()
      reads this, backups
    {
      Store(backups[..backupCount], nextBackupId)
    }

    constructor ()
      ensures Valid() && State() == EMPTY && config == DEFAULT_CONFIG && fresh(backups)
    {
      backups := new Backup[MAX_BACKUPS](_ => Backup(0, Full, Pending, 0, 0, 0));
      backupCount, nextBackupId, config := 0, 1, DEFAULT_CONFIG;
    }

    method Init()
      requires Valid()
      modifies this
      ensures Valid() && State() == EMPTY && config == DEFAULT_CONFIG
    {
      backupCount, nextBackupId, config := 0, 1, DEFAULT_CONFIG;
    }

    method BackupCreate(kind: BackupType, now: uint64) returns (id: uint32)
      requires Valid()
      modifies this`backupCount, this`nextBackupId, backups
      ensures Valid() && (State(), id) == Create(old(State()), kind, now)
    {
      if backupCount >= MAX_BACKUPS {
        return 0;
      }
      id := nextBackupId;
      nextBackupId := Add32(nextBackupId, 1);
      backups[backupCount] := Backup(id, kind, Pending, now, 0, 0);
      backupCount := backupCount + 1;
      assert backups[..backupCount] == old(backups[..backupCount]) + [backups[backupCount - 1]];
    }

    method Find(id: uint32) returns (i: int)
      requires Valid()
      ensures i == IndexOf(State().backups, id)
    {
      for k := 0 to backupCount
        invariant forall m :: 0 <= m < k ==> backups[m].id != id
      {
        if backups[k].id == id {
          return k;
        }
      }
      return -1;
    }

    method BackupExecute(id: uint32) returns (r: int)
      requires Valid()
      modifies backups
      ensures Valid() && (State(), r) == Execute(old(State()), id)
    {
      var i := Find(id);
      if i == -1 {
        return -1;
      }
      backups[i] := backups[i].(status := InProgress);
      backups[i] := backups[i].(fileCount := 1000, size := 1024 * 1024 * 500);
      backups[i] := backups[i].(status := Completed);
      assert backups[..backupCount] == old(backups[..backupCount])[i := backups[i]];
      return 0;
    }

    /** Shifts the entries behind position i down by one. */
    method RemoveAt(i: nat)
      requires Valid() && i < backupCount
      modifies this`backupCount, backups
      ensures Valid() && State() == old(State()).(backups := DeleteAt(old(State()).backups, i))
    {
      ghost var before := backups[..backupCount];
      for j := i to backupCount - 1
        invariant backupCount == |before|
        invariant forall m :: 0 <= m < i ==> backups[m] == before[m]
        invariant forall m :: i <= m < j ==> backups[m] == before[m + 1]
        invariant forall m :: j <= m < backupCount ==> backups[m] == before[m]
      {
        backups[j] := backups[j + 1];
      }
      backupCount := backupCount - 1;
      assert backups[..backupCount] == DeleteAt(before, i);
    }

    method BackupDelete(id: uint32) returns (r: int)
      requires Valid()
      modifies this`backupCount, backups
      ensures Valid() && State() == old(State()).(backups := Delete(old(State()).backups, id))
      ensures r == if IndexOf(old(State()).backups, id) == -1 then -1 else 0
    {
      var i := Find(id);
      if i == -1 {
        return -1;
      }
      RemoveAt(i);
      return 0;
    }

    method RemoveExpired(now: uint64, retention: uint32)
      requires Valid()
      modifies this`backupCount, backups
      ensures Valid()
      ensures State() == old(State()).(backups := DropExpired(old(State()).backups, 0, now, retention))
    {
      hide Delete, IndexOf;
      var i := 0;
      while i < backupCount
        invariant Valid() && 0 <= i <= backupCount
        invariant DropExpired(State().backups, i, now, retention)
                  == DropExpired(old(State()).backups, 0, now, retention)
        decreases backupCount - i
      {
        if Sub64(now, backups[i].timestamp) > retention {
          ghost var before := State().backups;
          var _ := BackupDelete(backups[i].id);
          assert State().backups == Delete(before, before[i].id);
          i := i - 1;
        }
        i := i + 1;
      }
    }

    /** The id of the oldest backup; the first one wins a tie. */
    method FindOldest() returns (oldestId: uint32)
      requires Valid() && backupCount > 0
      ensures oldestId == State().backups[Oldest(State().backups)].id
    {
      var oldestTime: uint64;
      oldestId, oldestTime := backups[0].id, backups[0].timestamp;
      ghost var oldest := 0;
      for k := 1 to backupCount
        invariant 0 <= oldest < k && oldestId == backups[oldest].id && oldestTime == backups[oldest].timestamp
        invariant forall m :: 0 <= m < k ==> oldestTime <= backups[m].timestamp
        invariant forall m :: 0 <= m < oldest ==> oldestTime < backups[m].timestamp
      {
        if backups[k].timestamp < oldestTime {
          oldestId, oldestTime, oldest := backups[k].id, backups[k].timestamp, k;
        }
      }
      ghost var bs := State().backups;
      assert bs[oldest].timestamp == bs[Oldest(bs)].timestamp;
      assert oldest == Oldest(bs);
    }

    method CleanupOld(now: uint64)
      requires Valid()
      modifies this`backupCount, backups
      ensures Valid()
      ensures State() == old(State()).(backups := Cleanup(old(State()).backups, config, now))
    {
      RemoveExpired(now, Mul32(config.retentionDays, SECONDS_PER_DAY));
      while backupCount > config.maxBackups
        invariant Valid() && nextBackupId == old(nextBackupId)
        invariant Evict(State().backups, config.maxBackups) == Cleanup(old(State()).backups, config, now)
        decreases backupCount
      {
        var oldestId := FindOldest();
        var _ := BackupDelete(oldestId);
      }
    }

    /** The position of the backup that backup_get_latest points to, or -1 for NULL. */
    method GetLatest() returns (latest: int)
      requires Valid()
      ensures latest == Latest(State().backups)
    {
      if backupCount == 0 {
        return -1;
      }
      latest := 0;
      for i := 1 to backupCount
        invariant 0 <= latest < i
        invariant forall m :: 0 <= m < i ==> backups[m].timestamp <= backups[latest].timestamp
        invariant forall m :: 0 <= m < latest ==> backups[m].timestamp < backups[latest].timestamp
      {
        if backups[i].timestamp > backups[latest].timestamp {
          latest := i;
        }
      }
      assert latest == Latest(State().backups);
    }

    method CheckSchedule(now: uint64)
      requires Valid()
      modifies this`backupCount, this`nextBackupId, backups
      ensures Valid() && State() == ScheduleCheck(old(State()), config, now)
    {
      if !config.enabled {
        return;
      }
      var latest := GetLatest();
      if latest == -1 || Sub64(now, backups[latest].timestamp) > config.scheduleInterval {
        var id := BackupCreate(config.defaultType, now);
        if id > 0 {
          var _ := BackupExecute(id);
        }
      }
    }
  }
}
