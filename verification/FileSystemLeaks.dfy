/**
 Where marked blocks that no live file lists come from: the exact account of the blocks
 that fs_write loses, on live and dead inodes, over every disciplined run.
 */
module FileSystemLeaks {
  import opened Machine
  import opened FreeSlots
  import opened Sequences
  import opened FileSystem
  import opened FileSystemRuns
  import opened FileSystemCalls

  // ----- counting what the live files own

  ghost function Share(s: FsState, id: nat): nat
    requires s.WellFormed() && id < |s.inodes|
  {
    if s.Live(id) then s.inodes[id].blockCount else 0
  }

  /** Sum of the block counts of the live files with id below n. */
  ghost function OwnedCount(s: FsState, n: nat): nat
    requires s.WellFormed() && n <= |s.inodes|
  {
    if n == 0 then 0 else OwnedCount(s, n - 1) + Share(s, n - 1)
  }

  /** The blocks that live files with id below n list. */
  ghost function OwnedSet(s: FsState, n: nat): (owned: set<nat>)
    requires s.WellFormed() && n <= |s.inodes|
    ensures forall id: nat, i: nat | id < n && Entry(s, id, i) :: BlockAt(s, id, i) in owned
    ensures forall b | b in owned :: exists id: nat, i: nat :: id < n && Entry(s, id, i) && BlockAt(s, id, i) == b
  {
    if n == 0 then {}
    else
      var id: nat := n - 1;
      if s.Live(id) then
        var own := s.inodes[id].Owned();
        assert forall i: nat | Entry(s, id, i) :: own[i] == BlockAt(s, id, i);
        assert forall b | b in own :: exists i: nat :: Entry(s, id, i) && BlockAt(s, id, i) == b by {
          forall b | b in own
            ensures exists i: nat :: Entry(s, id, i) && BlockAt(s, id, i) == b
          {
            var i: nat :| i < |own| && own[i] == b;
            OwnedEntry(s, id, i);
          }
        }
        OwnedSet(s, id) + Elements(own)
      else OwnedSet(s, id)
  }

  /** Marked blocks that belong to no live file. */
  ghost function Leaked(s: FsState): set<nat>
    requires s.WellFormed()
  {
    s.usedBlocks - OwnedSet(s, |s.inodes|)
  }

  lemma DisjointOwner(s: FsState, n: nat)
    requires Inv(s) && n < |s.inodes| && s.Live(n)
    ensures OwnedSet(s, n) !! Elements(s.inodes[n].Owned())
  {
    forall b | b in OwnedSet(s, n)
      ensures b !in s.inodes[n].Owned()
    {
      var d: nat, i: nat :| d < n && Entry(s, d, i) && BlockAt(s, d, i) == b;
      OwnedElsewhere(s, n, d, i);
    }
  }

  lemma {:induction false} OwnedSize(s: FsState, n: nat)
    requires Inv(s) && n <= |s.inodes|
    ensures OwnedSet(s, n) <= s.usedBlocks
    ensures |OwnedSet(s, n)| == OwnedCount(s, n)
  {
    if n > 0 {
      OwnedSize(s, n - 1);
      if s.Live(n - 1) {
        OwnedBlocks(s, n - 1);
        DisjointOwner(s, n - 1);
      }
    }
  }

  lemma LeakedSize(s: FsState)
    requires Inv(s)
    ensures |Leaked(s)| == |s.usedBlocks| - OwnedCount(s, |s.inodes|)
  {
    OwnedSize(s, |s.inodes|);
    assert s.usedBlocks == Leaked(s) + OwnedSet(s, |s.inodes|);
  }

  /** Changing one inode changes the count by what that inode contributes. */
  lemma {:induction false} OwnedCountUpdate(s: FsState, t: FsState, id: nat, n: nat)
    requires s.WellFormed() && t.WellFormed() && id < |s.inodes| && n <= |s.inodes|
    requires forall d: nat | d < |s.inodes| && d != id :: Share(t, d) == Share(s, d)
    ensures OwnedCount(t, n) == OwnedCount(s, n) + (if id < n then Share(t, id) - Share(s, id) else 0)
  {
    if n > 0 {
      OwnedCountUpdate(s, t, id, n - 1);
    }
  }

  // ----- one step

  /** The blocks one operation loses, in terms of the state it starts from. */
  ghost function Loss(s: FsState, op: Op): nat
    requires s.WellFormed() && Allowed(s, op)
  {
    match op
    case CreateOp(_) => 0
    case DeleteOp(_) => 0
    case WriteOp(id, size) =>
      var n := BlocksNeeded(size);
      if id < 0 || id >= MAX_FILES || n > DIRECT_BLOCKS then 0
      else if n > s.freeBlocks then s.freeBlocks
      else if s.Live(id) then s.inodes[id].blockCount
      else n
  }

  lemma CreateLoss(s: FsState, kind: FileType)
    requires Inv(s)
    ensures |Leaked(Create(s, kind).0)| == |Leaked(s)|
  {
    hide Create, OwnsSafely, Leaked;
    var (t, id) := Create(s, kind);
    CreateInv(s, kind);
    CreateOutcome(s, kind);
    LeakedSize(s);
    LeakedSize(t);
    if id != -1 {
      OwnedCountUpdate(s, t, id, |s.inodes|);
    }
  }

  lemma WriteLoss(s: FsState, id: int, size: uint32)
    requires Inv(s)
    ensures |Leaked(Write(s, id, size).0)| == |Leaked(s)| + Loss(s, WriteOp(id, size))
  {
    hide Write, BlocksNeeded, OwnsSafely, Leaked, Elements;
    var t := Write(s, id, size).0;
    WriteInv(s, id, size);
    WriteOutcome(s, id, size);
    if 0 <= id < MAX_FILES && BlocksNeeded(size) <= DIRECT_BLOCKS {
      LeakedSize(s);
      LeakedSize(t);
      OwnedCountUpdate(s, t, id, |s.inodes|);
    }
  }

  lemma DeleteLoss(s: FsState, id: nat)
    requires Inv(s) && s.Live(id)
    ensures |Leaked(Delete(s, id).0)| == |Leaked(s)|
  {
    hide Delete, OwnsSafely, Leaked, Elements;
    var t := Delete(s, id).0;
    DeleteInv(s, id);
    LeakedSize(s);
    LeakedSize(t);
    OwnedBlocks(s, id);
    DeleteOutcome(s, id);
    OwnedCountUpdate(s, t, id, |s.inodes|);
  }

  lemma StepLoss(s: FsState, op: Op)
    requires Inv(s) && Allowed(s, op)
    ensures |Leaked(Step(s, op))| == |Leaked(s)| + Loss(s, op)
  {
    match op
    case CreateOp(kind) => CreateLoss(s, kind);
    case WriteOp(id, size) => WriteLoss(s, id, size);
    case DeleteOp(id) =>
      if 0 <= id < MAX_FILES {
        DeleteLoss(s, id);
      }
  }

  lemma OwnedNotLeaked(s: FsState, id: nat)
    requires Inv(s) && s.Live(id)
    ensures Leaked(s) !! Elements(s.inodes[id].Owned())
  {
    forall b | b in s.inodes[id].Owned()
      ensures b in OwnedSet(s, |s.inodes|)
    {
      var j: nat :| j < |s.inodes[id].Owned()| && s.inodes[id].Owned()[j] == b;
      OwnedEntry(s, id, j);
    }
  }

  lemma RewriteLeaves(s: FsState, id: nat, size: uint32)
    requires Inv(s) && s.Live(id) && BlocksNeeded(size) <= DIRECT_BLOCKS && BlocksNeeded(size) <= s.freeBlocks
    ensures Leaked(s) + Elements(s.inodes[id].Owned()) <= Leaked(Write(s, id, size).0)
  {
    hide Write, BlocksNeeded;
    var t, before := Write(s, id, size).0, Elements(s.inodes[id].Owned());
    WriteOutcome(s, id, size);
    OwnedBlocks(s, id);
    forall d: nat, i: nat | d < |t.inodes| && Entry(t, d, i)
      ensures BlockAt(t, d, i) !in Leaked(s) + before
    {
      if d != id {
        assert Entry(s, d, i) && BlockAt(s, d, i) == BlockAt(t, d, i);
        OwnedElsewhere(s, id, d, i);
      }
    }
  }

  /** A successful rewrite loses exactly the blocks the file had before. */
  lemma RewriteLosesOldBlocks(s: FsState, id: nat, size: uint32)
    requires Inv(s) && s.Live(id) && BlocksNeeded(size) <= DIRECT_BLOCKS && BlocksNeeded(size) <= s.freeBlocks
    ensures Leaked(Write(s, id, size).0) == Leaked(s) + Elements(s.inodes[id].Owned())
  {
    hide Write, OwnsSafely, Leaked, Elements, BlocksNeeded;
    WriteLoss(s, id, size);
    OwnedBlocks(s, id);
    RewriteLeaves(s, id, size);
    OwnedNotLeaked(s, id);
    SubsetSize(Leaked(s) + Elements(s.inodes[id].Owned()), Leaked(Write(s, id, size).0));
  }

  // ----- whole runs

  ghost function TotalLoss(s: FsState, ops: seq<Op>): nat
    requires s.WellFormed() && Disciplined(s, ops)
  {
    if ops == [] then 0
    else TotalLoss(s, ops[..|ops| - 1]) + Loss(Run(s, ops[..|ops| - 1]), ops[|ops| - 1])
  }

  lemma {:induction false} RunLoss(s: FsState, ops: seq<Op>)
    requires Inv(s) && Disciplined(s, ops)
    ensures |Leaked(Run(s, ops))| == |Leaked(s)| + TotalLoss(s, ops)
  {
    if ops != [] {
      var before := ops[..|ops| - 1];
      RunLoss(s, before);
      RunInv(s, before);
      StepLoss(Run(s, before), ops[|ops| - 1]);
    }
  }

  lemma InitLeaksNothing(table: seq<Inode>)
    requires InodeTable(table)
    ensures Leaked(InitState(table)) == {}
  {
  }

  /**
   An operation that loses nothing: no write that runs out of blocks after taking some, no rewrite of a
   non-empty file, and no blocks written to a dead inode.
   */
  ghost predicate Lossless(s: FsState, op: Op)
    requires s.WellFormed() && Allowed(s, op)
  {
    op.WriteOp? && 0 <= op.id < MAX_FILES && BlocksNeeded(op.size) <= DIRECT_BLOCKS ==>
      if BlocksNeeded(op.size) > s.freeBlocks then s.freeBlocks == 0
      else if s.Live(op.id) then s.inodes[op.id].blockCount == 0
      else BlocksNeeded(op.size) == 0
  }

  ghost predicate LosslessRun(s: FsState, ops: seq<Op>)
    requires s.WellFormed() && Disciplined(s, ops)
  {
    ops == [] || (LosslessRun(s, ops[..|ops| - 1]) && Lossless(Run(s, ops[..|ops| - 1]), ops[|ops| - 1]))
  }

  lemma {:induction false} TotalLossZeroIff(s: FsState, ops: seq<Op>)
    requires s.WellFormed() && Disciplined(s, ops)
    ensures TotalLoss(s, ops) == 0 <==> LosslessRun(s, ops)
  {
    if ops != [] {
      TotalLossZeroIff(s, ops[..|ops| - 1]);
    }
  }

  /** Marked equals owned at the end of a run from fs_init iff no step of the run lost a block. */
  lemma MarkedIsOwnedIff(table: seq<Inode>, ops: seq<Op>)
    requires InodeTable(table)
    requires Disciplined(InitState(table), ops)
    ensures var t := Run(InitState(table), ops);
            OwnedSet(t, |t.inodes|) == t.usedBlocks <==> LosslessRun(InitState(table), ops)
  {
    var s := InitState(table);
    var t := Run(s, ops);
    InitInv(table);
    InitLeaksNothing(table);
    RunInv(s, ops);
    RunLoss(s, ops);
    OwnedSize(t, |t.inodes|);
    TotalLossZeroIff(s, ops);
  }

  /** One run that loses a block: a file is created and written twice. */
  ghost const REWRITE_RUN: seq<Op> := [CreateOp(Regular), WriteOp(1, BLOCK_SIZE), WriteOp(1, BLOCK_SIZE)]

  lemma {:induction false} NoDeletes(s: FsState, ops: seq<Op>)
    requires s.WellFormed() && forall i :: 0 <= i < |ops| ==> !ops[i].DeleteOp?
    ensures Disciplined(s, ops)
  {
    if ops != [] {
      NoDeletes(s, ops[..|ops| - 1]);
    }
  }

  lemma ThreeSteps(s: FsState, ops: seq<Op>)
    requires s.WellFormed() && |ops| == 3
    ensures Run(s, ops) == Step(Step(Step(s, ops[0]), ops[1]), ops[2])
  {
    hide Step, FsState.WellFormed;
    assert ops[..2][..1] == ops[..1];
    assert Run(s, ops[..1][..0]) == s;
    assert Run(s, ops[..1]) == Step(s, ops[0]);
  }

  lemma RewriteRunLoses(table: seq<Inode>)
    requires InodeTable(table)
    ensures Disciplined(InitState(table), REWRITE_RUN) && |Leaked(Run(InitState(table), REWRITE_RUN))| == 1
  {
    hide Create, Write, OwnsSafely, Leaked, Run, Disciplined;
    var s := InitState(table);
    var t := Create(s, Regular).0;
    ThreeSteps(s, REWRITE_RUN);
    NoDeletes(s, REWRITE_RUN);
    InitInv(table);
    InitLeaksNothing(table);
    CreateInv(s, Regular);
    CreateOutcome(s, Regular);
    CreateLoss(s, Regular);
    OneBlockWrite(t, 1);
    WriteLoss(t, 1, BLOCK_SIZE);
    WriteLoss(Write(t, 1, BLOCK_SIZE).0, 1, BLOCK_SIZE);
  }

  lemma NoFilesOwnNothing(s: FsState, n: nat)
    requires s.WellFormed() && n <= |s.inodes| && s.usedInodes == {}
    ensures OwnedSet(s, n) == {}
  {
  }

  /** Once every file is deleted, the free counter is short by exactly what the run lost. */
  lemma DrainedFreeBlocks(table: seq<Inode>, ops: seq<Op>)
    requires InodeTable(table)
    requires Disciplined(InitState(table), ops)
    requires Run(InitState(table), ops).usedInodes == {}
    ensures Run(InitState(table), ops).freeBlocks == MAX_BLOCKS - TotalLoss(InitState(table), ops)
    ensures Run(InitState(table), ops).freeBlocks == MAX_BLOCKS <==> LosslessRun(InitState(table), ops)
  {
    var s := InitState(table);
    var t := Run(s, ops);
    InitInv(table);
    InitLeaksNothing(table);
    RunInv(s, ops);
    RunLoss(s, ops);
    TotalLossZeroIff(s, ops);
    NoFilesOwnNothing(t, |t.inodes|);
  }
}
