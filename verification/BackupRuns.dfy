/**
 Runs of the backup system under a fixed configuration: ids and timestamps stay in order, and
 when scheduled backups are kept apart by the schedule interval.
 */
module BackupRuns {
  import opened Machine
  import opened Backup
  import opened BackupRetention

  datatype Call =
    | CreateCall(kind: BackupType)
    | DeleteCall(id: uint32)
    | ExecuteCall(id: uint32)
    | CleanupCall
    | CheckCall

  /** A call and the clock it sees. */
  datatype Op = Op(now: uint64, call: Call)

  function Step(s: Store, config: Config, op: Op): Store {
    match op.call
    case CreateCall(kind) => Create(s, kind, op.now).0
    case DeleteCall(id) => s.(backups := Delete(s.backups, id))
    case ExecuteCall(id) => Execute(s, id).0
    case CleanupCall => s.(backups := Cleanup(s.backups, config, op.now))
    case CheckCall => ScheduleCheck(s, config, op.now)
  }

  function Run(config: Config, ops: seq<Op>): Store {
    if ops == [] then EMPTY else Step(Run(config, ops[..|ops| - 1]), config, ops[|ops| - 1])
  }

  /** The clock never goes back. */
  ghost predicate ClockOrder(ops: seq<Op>) {
    forall i, j :: 0 <= i < j < |ops| ==> ops[i].now <= ops[j].now
  }

  // ----- ids and timestamps

  /** Ids increase along the table and lie below the next one. */
  ghost predicate IdOrder(s: Store) {
    && (forall i, j :: 0 <= i < j < |s.backups| ==> s.backups[i].id < s.backups[j].id)
    && (forall i :: 0 <= i < |s.backups| ==> 0 < s.backups[i].id < s.nextId)
  }

  ghost predicate Before(bs: seq<Backup>, now: uint64) {
    forall b :: b in bs ==> b.timestamp <= now
  }

  /** a is b with some entries left out. */
  ghost predicate Thinned(a: seq<Backup>, b: seq<Backup>, at: seq<nat>) {
    && |at| == |a| && Increasing(at)
    && forall n :: 0 <= n < |a| ==> at[n] < |b| && a[n] == b[at[n]]
  }

  lemma ThinnedKeeps(s: Store, a: seq<Backup>, at: seq<nat>)
    requires Thinned(a, s.backups, at)
    ensures IdOrder(s) ==> IdOrder(s.(backups := a))
    ensures InTimeOrder(s.backups) ==> InTimeOrder(a)
    ensures forall now: uint64 :: Before(s.backups, now) ==> Before(a, now)
  {
  }

  lemma DeleteThins(bs: seq<Backup>, id: uint32) returns (at: seq<nat>)
    ensures Thinned(Delete(bs, id), bs, at)
  {
    hide IndexOf;
    var m := IndexOf(bs, id);
    if m == -1 {
      at := seq(|bs|, n => n);
    } else {
      at := seq(|bs| - 1, n requires 0 <= n => Unshift(m, n));
      assert |DeleteAt(bs, m)| == |bs| - 1;
      forall n | 0 <= n < |bs| - 1
        ensures at[n] < |bs| && DeleteAt(bs, m)[n] == bs[at[n]]
      {
      }
    }
  }

  lemma ComposeThinned(a: seq<Backup>, b: seq<Backup>, p: seq<nat>, c: seq<Backup>, q: seq<nat>) returns (r: seq<nat>)
    requires Thinned(a, b, p) && Thinned(b, c, q)
    ensures Thinned(a, c, r)
  {
    r := seq(|p|, n requires 0 <= n < |p| && p[n] < |q| => q[p[n]]);
  }

  lemma {:induction false} DropExpiredThins(bs: seq<Backup>, i: nat, now: uint64, retention: uint32)
    returns (at: seq<nat>)
    requires i <= |bs|
    ensures Thinned(DropExpired(bs, i, now, retention), bs, at)
    decreases |bs| - i
  {
    if i == |bs| {
      at := seq(|bs|, n => n);
    } else if Expired(bs[i], now, retention) {
      var p := DropExpiredThins(Delete(bs, bs[i].id), i, now, retention);
      var q := DeleteThins(bs, bs[i].id);
      at := ComposeThinned(DropExpired(bs, i, now, retention), Delete(bs, bs[i].id), p, bs, q);
    } else {
      at := DropExpiredThins(bs, i + 1, now, retention);
    }
  }

  lemma {:induction false} EvictThins(bs: seq<Backup>, limit: uint32) returns (at: seq<nat>)
    ensures Thinned(Evict(bs, limit), bs, at)
    decreases |bs|
  {
    if |bs| <= limit {
      at := seq(|bs|, n => n);
    } else {
      var bs' := Delete(bs, bs[Oldest(bs)].id);
      var p := EvictThins(bs', limit);
      var q := DeleteThins(bs, bs[Oldest(bs)].id);
      at := ComposeThinned(Evict(bs, limit), bs', p, bs, q);
    }
  }

  /** What holds in a state before or at the clock reading `now`. */
  ghost predicate Ordered(s: Store, now: uint64) {
    |s.backups| <= MAX_BACKUPS && IdOrder(s) && InTimeOrder(s.backups) && Before(s.backups, now)
  }

  lemma AppendOrdered(s: Store, b: Backup, now: uint64)
    requires Ordered(s, now) && |s.backups| < MAX_BACKUPS && 1 <= b.id == s.nextId < TWO_32 - 1 && b.timestamp == now
    ensures Ordered(Store(s.backups + [b], s.nextId + 1), now)
  {
    var t := s.backups + [b];
    assert forall i :: 0 <= i < |s.backups| ==> t[i] == s.backups[i] && t[i] in s.backups;
  }

  lemma CreateOrdered(s: Store, kind: BackupType, now: uint64)
    requires Ordered(s, now) && 1 <= s.nextId < TWO_32 - 1
    ensures Ordered(Create(s, kind, now).0, now)
    ensures s.nextId <= Create(s, kind, now).0.nextId <= s.nextId + 1
  {
    if |s.backups| < MAX_BACKUPS {
      AppendOrdered(s, Create(s, kind, now).0.backups[|s.backups|], now);
    }
  }

  lemma SameOrder(s: Store, t: Store, now: uint64)
    requires Ordered(s, now) && |t.backups| == |s.backups| && t.nextId == s.nextId
    requires forall k :: 0 <= k < |s.backups| ==>
      t.backups[k].id == s.backups[k].id && t.backups[k].timestamp == s.backups[k].timestamp
    ensures Ordered(t, now)
  {
  }

  lemma ExecuteSize(s: Store, id: uint32)
    ensures |Execute(s, id).0.backups| == |s.backups| && Execute(s, id).0.nextId == s.nextId
  {
  }

  lemma ExecuteOrdered(s: Store, id: uint32, now: uint64)
    requires Ordered(s, now)
    ensures Ordered(Execute(s, id).0, now)
  {
    var i, t := IndexOf(s.backups, id), Execute(s, id).0;
    forall k | 0 <= k < |s.backups|
      ensures t.backups[k].id == s.backups[k].id && t.backups[k].timestamp == s.backups[k].timestamp
    {
    }
    SameOrder(s, t, now);
  }

  lemma {:induction false} IncreasingAbove(at: seq<nat>, n: nat)
    requires Increasing(at) && n < |at|
    ensures at[n] >= n
  {
    if n > 0 {
      IncreasingAbove(at, n - 1);
    }
  }

  lemma ThinnedSize(a: seq<Backup>, b: seq<Backup>, at: seq<nat>)
    requires Thinned(a, b, at)
    ensures |a| <= |b|
  {
    if a != [] {
      var n := |a| - 1;
      assert at[n] >= n by {
        IncreasingAbove(at, n);
      }
    }
  }

  lemma CleanupThins(bs: seq<Backup>, config: Config, now: uint64) returns (at: seq<nat>)
    ensures Thinned(Cleanup(bs, config, now), bs, at)
  {
    hide DropExpired, Evict, Thinned;
    var rest := DropExpired(bs, 0, now, config.Retention());
    var p := EvictThins(rest, config.maxBackups);
    var q := DropExpiredThins(bs, 0, now, config.Retention());
    at := ComposeThinned(Cleanup(bs, config, now), rest, p, bs, q);
  }

  lemma CleanupOrdered(s: Store, config: Config, now: uint64)
    requires Ordered(s, now)
    ensures Ordered(s.(backups := Cleanup(s.backups, config, now)), now)
  {
    hide Cleanup, IdOrder, InTimeOrder, Before, Thinned;
    var at := CleanupThins(s.backups, config, now);
    ThinnedKeeps(s, Cleanup(s.backups, config, now), at);
    ThinnedSize(Cleanup(s.backups, config, now), s.backups, at);
  }

  lemma DeleteOrdered(s: Store, id: uint32, now: uint64)
    requires Ordered(s, now)
    ensures Ordered(s.(backups := Delete(s.backups, id)), now)
  {
    hide IdOrder, InTimeOrder, Before;
    var at := DeleteThins(s.backups, id);
    ThinnedKeeps(s, Delete(s.backups, id), at);
  }

  lemma StepOrdered(s: Store, config: Config, op: Op)
    requires Ordered(s, op.now) && 1 <= s.nextId < TWO_32 - 1
    ensures Ordered(Step(s, config, op), op.now)
    ensures s.nextId <= Step(s, config, op).nextId <= s.nextId + 1
  {
    hide Ordered, Delete, Due, Cleanup, IndexOf;
    match op.call {
      case CreateCall(kind) => CreateOrdered(s, kind, op.now);
      case DeleteCall(id) => DeleteOrdered(s, id, op.now);
      case ExecuteCall(id) => ExecuteOrdered(s, id, op.now);
      case CleanupCall => CleanupOrdered(s, config, op.now);
      case CheckCall =>
        CreateOrdered(s, config.defaultType, op.now);
        var (t, id) := Create(s, config.defaultType, op.now);
        ExecuteOrdered(t, id, op.now);
    }
  }

  /**
   In every run with an orderly clock the table is ordered by id and by time; no id wraps in fewer
   than 2^32 - 1 calls.
   */
  lemma {:induction false} RunOrdered(config: Config, ops: seq<Op>, now: uint64)
    requires ClockOrder(ops) && |ops| < TWO_32 - 1
    requires ops != [] ==> ops[|ops| - 1].now <= now
    ensures Ordered(Run(config, ops), now)
    ensures 1 <= Run(config, ops).nextId <= |ops| + 1
  {
    if ops != [] {
      var n := |ops| - 1;
      RunOrdered(config, ops[..n], ops[n].now);
      StepOrdered(Run(config, ops[..n]), config, ops[n]);
    }
  }

  /** How old a backup counts as: a timestamp after the clock wraps round to a very old one. */
  function Age(b: Backup, now: uint64): int {
    if b.timestamp <= now then now - b.timestamp else TWO_64 - (b.timestamp - now)
  }

  ghost predicate Newest(bs: seq<Backup>, b: Backup) {
    b in bs && forall c :: c in bs ==> c.timestamp <= b.timestamp
  }

  /** At any clock reading the check makes a backup iff it may, and the newest backups, if any, are old enough. */
  lemma CheckMakesByNewest(s: Store, config: Config, now: uint64)
    ensures ScheduleCheck(s, config, now) != s <==>
            config.enabled && |s.backups| < MAX_BACKUPS &&
            forall b :: Newest(s.backups, b) ==> Age(b, now) > config.scheduleInterval
  {
    hide Execute, Latest;
    var m := Latest(s.backups);
    if m != -1 {
      assert Newest(s.backups, s.backups[m]);
    }
    var (t, id) := Create(s, config.defaultType, now);
    ExecuteSize(t, id);
  }

  /**
   When the scheduled check makes a backup: iff it is enabled, the table has room, and every backup in the table is
   older than the interval. So an empty table is always due, and one young backup suffices to hold the check back.
   */
  lemma CheckMakesIff(s: Store, config: Config, now: uint64)
    requires Before(s.backups, now)
    ensures ScheduleCheck(s, config, now) != s <==>
            config.enabled && |s.backups| < MAX_BACKUPS &&
            forall b :: b in s.backups ==> now - b.timestamp > config.scheduleInterval
  {
    hide ScheduleCheck, Latest;
    CheckMakesByNewest(s, config, now);
    var m := Latest(s.backups);
    if m != -1 {
      assert Newest(s.backups, s.backups[m]);
    }
  }

  /** A due scheduled check with room adds one completed backup stamped with the clock; any other adds nothing. */
  lemma ScheduleCheckOutcome(s: Store, config: Config, now: uint64)
    requires Ordered(s, now) && 1 <= s.nextId < TWO_32 - 1
    ensures ScheduleCheck(s, config, now) ==
            if Due(s.backups, config, now) && |s.backups| < MAX_BACKUPS then
              Store(s.backups + [Backup(s.nextId, config.defaultType, Completed, now, 524288000, 1000)], s.nextId + 1)
            else s
  {
    hide Due;
    var (t, id) := Create(s, config.defaultType, now);
    if |s.backups| < MAX_BACKUPS {
      assert t.backups[|s.backups|].id == id;
      assert IndexOf(t.backups, id) == |s.backups|;
    }
  }
}
