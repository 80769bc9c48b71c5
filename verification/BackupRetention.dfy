/**
 What the cleanup leaves: the unexpired backups in their order, and of these the newest.
 */
module BackupRetention {
  import opened Machine
  import opened Sequences
  import opened Backup

  ghost predicate UniqueIds(bs: seq<Backup>) {
    forall i, j :: 0 <= i < j < |bs| ==> bs[i].id != bs[j].id
  }

  lemma DeleteUnique(bs: seq<Backup>, i: nat)
    requires UniqueIds(bs) && i < |bs|
    ensures Delete(bs, bs[i].id) == DeleteAt(bs, i)
    ensures UniqueIds(DeleteAt(bs, i))
  {
  }

  // ----- the first loop filters

  ghost function Unexpired(bs: seq<Backup>, now: uint64, retention: uint32): seq<Backup> {
    if bs == [] then []
    else (if Expired(bs[0], now, retention) then [] else [bs[0]]) + Unexpired(bs[1..], now, retention)
  }

  lemma {:induction false} DropExpiredFrom(bs: seq<Backup>, i: nat, now: uint64, retention: uint32)
    requires UniqueIds(bs) && i <= |bs|
    ensures DropExpired(bs, i, now, retention) == bs[..i] + Unexpired(bs[i..], now, retention)
    decreases |bs| - i
  {
    if i < |bs| {
      assert bs[i..][0] == bs[i] && bs[i..][1..] == bs[i + 1..];
      if Expired(bs[i], now, retention) {
        DeleteUnique(bs, i);
        assert DeleteAt(bs, i)[..i] == bs[..i] && DeleteAt(bs, i)[i..] == bs[i + 1..];
        DropExpiredFrom(DeleteAt(bs, i), i, now, retention);
      } else {
        DropExpiredFrom(bs, i + 1, now, retention);
        assert bs[..i + 1] == bs[..i] + [bs[i]];
      }
    }
  }

  /** Deleting from the table while walking it leaves exactly the unexpired backups, in order. */
  lemma DropExpiredFilters(bs: seq<Backup>, now: uint64, retention: uint32)
    requires UniqueIds(bs)
    ensures DropExpired(bs, 0, now, retention) == Unexpired(bs, now, retention)
  {
    DropExpiredFrom(bs, 0, now, retention);
    assert bs[0..] == bs;
  }

  /** The 32-bit retention period is the intended one iff it does not wrap. */
  lemma RetentionIs(config: Config)
    ensures config.Retention() == config.retentionDays * SECONDS_PER_DAY <==> config.retentionDays <= 49710
  {
  }

  /** Up to the clock, expiry is by age; a later timestamp expires unless it is almost 2^64 seconds ahead. */
  lemma ExpiredIs(b: Backup, now: uint64, retention: uint32)
    ensures Expired(b, now, retention) <==>
            if b.timestamp <= now then now - b.timestamp > retention
            else b.timestamp - now < TWO_64 - retention
  {
  }

  lemma {:induction false} UnexpiredElements(bs: seq<Backup>, now: uint64, retention: uint32)
    ensures forall b :: b in Unexpired(bs, now, retention) <==> b in bs && !Expired(b, now, retention)
    ensures |Unexpired(bs, now, retention)| <= |bs|
    ensures UniqueIds(bs) ==> UniqueIds(Unexpired(bs, now, retention))
  {
    if bs != [] {
      var rest := Unexpired(bs[1..], now, retention);
      UnexpiredElements(bs[1..], now, retention);
      if UniqueIds(bs) {
        forall j | 0 <= j < |rest|
          ensures rest[j].id != bs[0].id
        {
          assert rest[j] in bs[1..];
        }
      }
    }
  }

  lemma {:induction false} UnexpiredAll(bs: seq<Backup>, now: uint64, retention: uint32)
    requires forall b :: b in bs ==> !Expired(b, now, retention)
    ensures Unexpired(bs, now, retention) == bs
  {
    if bs != [] {
      UnexpiredAll(bs[1..], now, retention);
    }
  }

  // ----- the second loop keeps the newest

  /** Entry j is older than entry i: an earlier timestamp, or the same one further to the front. */
  ghost predicate Older(bs: seq<Backup>, j: nat, i: nat)
    requires i < |bs| && j < |bs|
  {
    bs[j].timestamp < bs[i].timestamp || (bs[j].timestamp == bs[i].timestamp && j < i)
  }

  ghost predicate Increasing(idx: seq<nat>) {
    forall i, j :: 0 <= i < j < |idx| ==> idx[i] < idx[j]
  }

  /** `kept` is the entries of bs at the positions idx, in order. */
  ghost predicate EntriesAt(bs: seq<Backup>, kept: seq<Backup>, idx: seq<nat>) {
    && |kept| == |idx| && Increasing(idx)
    && forall n :: 0 <= n < |idx| ==> idx[n] < |bs| && kept[n] == bs[idx[n]]
  }

  /** Every entry at another position is older than every entry at these. */
  ghost predicate RestOlder(bs: seq<Backup>, idx: seq<nat>) {
    forall i: nat, j: nat :: i < |bs| && j < |bs| && i in idx && j !in idx ==> Older(bs, j, i)
  }

  /** `kept` is the newest `limit` entries of bs, or all, in order; idx says where they were. */
  ghost predicate NewestAt(bs: seq<Backup>, limit: nat, kept: seq<Backup>, idx: seq<nat>) {
    |idx| == (if |bs| <= limit then |bs| else limit) && EntriesAt(bs, kept, idx) && RestOlder(bs, idx)
  }

  /** Where position p of the table without entry m was in the whole table. */
  ghost function Unshift(m: nat, p: nat): nat {
    if p < m then p else p + 1
  }

  lemma OlderThanOldest(bs: seq<Backup>, j: nat, i: nat)
    requires i < |bs| && j < |bs| && i != j
    ensures j == Oldest(bs) ==> Older(bs, j, i)
  {
  }

  /** The positions in the whole table of positions in the table without entry m. */
  ghost function UnshiftAll(m: nat, idx: seq<nat>): (r: seq<nat>)
    ensures |r| == |idx| && forall n :: 0 <= n < |idx| ==> r[n] == Unshift(m, idx[n])
  {
    seq(|idx|, n requires 0 <= n < |idx| => Unshift(m, idx[n]))
  }

  lemma UnshiftEntries(bs: seq<Backup>, m: nat, kept: seq<Backup>, idx: seq<nat>)
    requires m < |bs| && EntriesAt(DeleteAt(bs, m), kept, idx)
    ensures EntriesAt(bs, kept, UnshiftAll(m, idx))
  {
  }

  /** Position i of the whole table, other than m, in the table without entry m. */
  ghost function Shift(m: nat, i: nat): (p: nat)
    requires i != m
    ensures Unshift(m, p) == i
  {
    if i < m then i else i - 1
  }

  lemma ShiftMember(m: nat, idx: seq<nat>, i: nat)
    requires i != m
    ensures Shift(m, i) in idx <==> i in UnshiftAll(m, idx)
  {
  }

  lemma NotUnshifted(m: nat, idx: seq<nat>)
    ensures m !in UnshiftAll(m, idx)
  {
  }

  lemma OlderShifted(bs: seq<Backup>, m: nat, j: nat, i: nat)
    requires m < |bs| && i < |bs| && j < |bs| && i != m && j != m
    ensures Older(DeleteAt(bs, m), Shift(m, j), Shift(m, i)) <==> Older(bs, j, i)
  {
  }

  lemma UnshiftRest(bs: seq<Backup>, idx: seq<nat>)
    requires bs != [] && RestOlder(DeleteAt(bs, Oldest(bs)), idx)
    ensures RestOlder(bs, UnshiftAll(Oldest(bs), idx))
  {
    hide Oldest, Older;
    var m := Oldest(bs);
    NotUnshifted(m, idx);
    forall i: nat, j: nat | i < |bs| && j < |bs| && i in UnshiftAll(m, idx) && j !in UnshiftAll(m, idx)
      ensures Older(bs, j, i)
    {
      if j == m {
        OlderThanOldest(bs, j, i);
      } else {
        ShiftMember(m, idx, i);
        ShiftMember(m, idx, j);
        OlderShifted(bs, m, j, i);
      }
    }
  }

  lemma NewestWithoutOldest(bs: seq<Backup>, limit: nat, kept: seq<Backup>, idx: seq<nat>)
    requires |bs| > limit
    requires NewestAt(DeleteAt(bs, Oldest(bs)), limit, kept, idx)
    ensures NewestAt(bs, limit, kept, UnshiftAll(Oldest(bs), idx))
  {
    hide EntriesAt, RestOlder;
    UnshiftEntries(bs, Oldest(bs), kept, idx);
    UnshiftRest(bs, idx);
  }

  lemma {:induction false} EvictKeepsNewest(bs: seq<Backup>, limit: uint32)
    requires UniqueIds(bs)
    ensures exists idx :: NewestAt(bs, limit, Evict(bs, limit), idx)
    decreases |bs|
  {
    if |bs| <= limit {
      var idx := seq(|bs|, n => n);
      forall j: nat | j < |bs| ensures j in idx {
        assert idx[j] == j;
      }
      assert Evict(bs, limit) == bs && NewestAt(bs, limit, bs, idx);
    } else {
      var m := Oldest(bs);
      DeleteUnique(bs, m);
      EvictKeepsNewest(DeleteAt(bs, m), limit);
      var idx' :| NewestAt(DeleteAt(bs, m), limit, Evict(bs, limit), idx');
      NewestWithoutOldest(bs, limit, Evict(bs, limit), idx');
    }
  }

  lemma NewestShared(bs: seq<Backup>, limit: nat, a: seq<Backup>, p: seq<nat>, b: seq<Backup>, q: seq<nat>, i: nat)
    requires NewestAt(bs, limit, a, p) && NewestAt(bs, limit, b, q) && i in p
    ensures i in q
  {
    DistinctSize(p);
    DistinctSize(q);
    if i !in q {
      var n :| 0 <= n < |p| && p[n] == i;
      forall m | 0 <= m < |q|
        ensures q[m] in p
      {
        assert Older(bs, i, q[m]);
        assert !Older(bs, q[m], i);
      }
      SubsetSize(Elements(q), Elements(p) - {i});
      assert false;
    }
  }

  /** Increasing sequences with the same elements are the same. */
  lemma {:induction false} SameElements(p: seq<nat>, q: seq<nat>)
    requires Increasing(p) && Increasing(q) && Elements(p) == Elements(q)
    ensures p == q
  {
    DistinctSize(p);
    DistinctSize(q);
    if p != [] {
      assert p[0] in Elements(q) && q[0] in Elements(p);
      assert p[0] == q[0];
      assert Elements(p[1..]) == Elements(p) - {p[0]};
      assert Elements(q[1..]) == Elements(q) - {q[0]};
      SameElements(p[1..], q[1..]);
      assert p == [p[0]] + p[1..] && q == [q[0]] + q[1..];
    }
  }

  /** NewestAt leaves no choice: the kept entries are determined by the table and the limit. */
  lemma NewestUnique(bs: seq<Backup>, limit: nat, a: seq<Backup>, p: seq<nat>, b: seq<Backup>, q: seq<nat>)
    requires NewestAt(bs, limit, a, p) && NewestAt(bs, limit, b, q)
    ensures a == b
  {
    forall i | i in p ensures i in q {
      NewestShared(bs, limit, a, p, b, q, i);
    }
    forall i | i in q ensures i in p {
      NewestShared(bs, limit, b, q, a, p, i);
    }
    SameElements(p, q);
  }

  /** The whole cleanup: filter, then the newest of what is left. */
  lemma CleanupKeepsNewestUnexpired(bs: seq<Backup>, config: Config, now: uint64)
    requires UniqueIds(bs)
    ensures exists idx :: NewestAt(Unexpired(bs, now, config.Retention()), config.maxBackups,
                                   Cleanup(bs, config, now), idx)
  {
    DropExpiredFilters(bs, now, config.Retention());
    UnexpiredElements(bs, now, config.Retention());
    EvictKeepsNewest(Unexpired(bs, now, config.Retention()), config.maxBackups);
    assert Cleanup(bs, config, now) == Evict(Unexpired(bs, now, config.Retention()), config.maxBackups);
  }

  // ----- consequences

  lemma {:induction false} EvictUnique(bs: seq<Backup>, limit: uint32)
    requires UniqueIds(bs)
    ensures UniqueIds(Evict(bs, limit)) && |Evict(bs, limit)| <= limit
    ensures forall b :: b in Evict(bs, limit) ==> b in bs
    decreases |bs|
  {
    if |bs| > limit {
      DeleteUnique(bs, Oldest(bs));
      EvictUnique(DeleteAt(bs, Oldest(bs)), limit);
    }
  }

  /** A second cleanup at the same time changes nothing. */
  lemma CleanupTwice(bs: seq<Backup>, config: Config, now: uint64)
    requires UniqueIds(bs)
    ensures Cleanup(Cleanup(bs, config, now), config, now) == Cleanup(bs, config, now)
  {
    var unexpired := Unexpired(bs, now, config.Retention());
    var once := Cleanup(bs, config, now);
    DropExpiredFilters(bs, now, config.Retention());
    UnexpiredElements(bs, now, config.Retention());
    EvictUnique(unexpired, config.maxBackups);
    UnexpiredAll(once, now, config.Retention());
    DropExpiredFilters(once, now, config.Retention());
  }

  /** With a limit of at least the table size, as by default, the second loop never deletes. */
  lemma LargeLimitNeverEvicts(bs: seq<Backup>, config: Config, now: uint64)
    requires UniqueIds(bs) && |bs| <= MAX_BACKUPS <= config.maxBackups
    ensures Cleanup(bs, config, now) == Unexpired(bs, now, config.Retention())
  {
    DropExpiredFilters(bs, now, config.Retention());
    UnexpiredElements(bs, now, config.Retention());
  }

  ghost predicate InTimeOrder(bs: seq<Backup>) {
    forall i, j :: 0 <= i < j < |bs| ==> bs[i].timestamp <= bs[j].timestamp
  }

  ghost predicate IsSuffix(a: seq<Backup>, b: seq<Backup>) {
    |a| <= |b| && a == b[|b| - |a|..]
  }

  lemma TailSuffix(a: seq<Backup>, b: seq<Backup>)
    requires b != [] && IsSuffix(a, b[1..])
    ensures IsSuffix(a, b)
  {
  }

  lemma WholeSuffix(a: seq<Backup>)
    ensures IsSuffix(a, a)
  {
  }

  lemma {:induction false} UnexpiredSuffix(bs: seq<Backup>, now: uint64, retention: uint32)
    requires InTimeOrder(bs) && forall b :: b in bs ==> b.timestamp <= now
    ensures IsSuffix(Unexpired(bs, now, retention), bs)
  {
    if bs != [] {
      if Expired(bs[0], now, retention) {
        UnexpiredSuffix(bs[1..], now, retention);
      } else {
        forall b | b in bs ensures !Expired(b, now, retention) {
          ExpiredIs(bs[0], now, retention);
          ExpiredIs(b, now, retention);
        }
        UnexpiredAll(bs, now, retention);
      }
    }
  }

  lemma FirstIsOldest(bs: seq<Backup>)
    requires bs != [] && UniqueIds(bs) && InTimeOrder(bs)
    ensures Oldest(bs) == 0 && Delete(bs, bs[0].id) == DeleteAt(bs, 0)
    ensures UniqueIds(bs[1..]) && InTimeOrder(bs[1..])
  {
  }

  lemma {:induction false} EvictSuffix(bs: seq<Backup>, limit: uint32)
    requires UniqueIds(bs) && InTimeOrder(bs)
    ensures IsSuffix(Evict(bs, limit), bs)
    decreases |bs|
  {
    hide Oldest, UniqueIds, InTimeOrder, Delete, IsSuffix;
    WholeSuffix(bs);
    if |bs| > limit {
      FirstIsOldest(bs);
      assert DeleteAt(bs, 0) == bs[1..];
      EvictSuffix(bs[1..], limit);
      TailSuffix(Evict(bs[1..], limit), bs);
    }
  }

  /** When backups were made in time order, the cleanup leaves a suffix of the table. */
  lemma CleanupSuffix(bs: seq<Backup>, config: Config, now: uint64)
    requires UniqueIds(bs) && InTimeOrder(bs) && forall b :: b in bs ==> b.timestamp <= now
    ensures IsSuffix(Cleanup(bs, config, now), bs)
  {
    var kept := Unexpired(bs, now, config.Retention());
    DropExpiredFilters(bs, now, config.Retention());
    UnexpiredElements(bs, now, config.Retention());
    UnexpiredSuffix(bs, now, config.Retention());
    EvictSuffix(kept, config.maxBackups);
  }
}
