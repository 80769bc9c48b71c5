/**
 What single calls of the file system promise, and what fs_delete does to inodes that are not live.
 */
module FileSystemCalls {
  import opened Machine
  import opened FreeSlots
  import opened Sequences
  import opened FileSystem
  import opened FileSystemRuns

  /** fs_create fails iff no inode is free, else the least dead one becomes a live, empty file and no other changes. */
  lemma CreateOutcome(s: FsState, kind: FileType)
    requires Inv(s)
    ensures var (t, id) := Create(s, kind);
            if s.freeInodes == 0 then t == s && id == -1
            else
              && 0 <= id < MAX_FILES && !s.Live(id) && AllUsed(s.usedInodes, id)
              && t.usedInodes == s.usedInodes + {id} && t.freeInodes == s.freeInodes - 1
              && t.inodes[id] == s.inodes[id].(kind := kind, size := 0, blockCount := 0)
              && (forall d: nat | d < MAX_FILES && d != id :: t.inodes[d] == s.inodes[d])
              && t.usedBlocks == s.usedBlocks && t.freeBlocks == s.freeBlocks
  {
    ExhaustedIff(s.usedInodes, MAX_FILES);
  }

  /** What the allocating loop of fs_write leaves when it asks for n blocks, the least free ones coming first. */
  lemma TakeOutcome(s: FsState, id: nat, n: nat)
    requires Inv(s) && id < MAX_FILES && n <= DIRECT_BLOCKS
    ensures var (t, ok) := TakeBlocks(s, id, 0, n);
            var taken := if n <= s.freeBlocks then n else s.freeBlocks;
            && ok == (taken == n) && t.WellFormed() && t.freeBlocks == s.freeBlocks - taken
            && t.usedBlocks == s.usedBlocks + Elements(t.inodes[id].blocks[..taken])
            && (forall i | 0 <= i < taken ::
                  t.inodes[id].blocks[i] in t.usedBlocks - s.usedBlocks &&
                  AllUsed(t.usedBlocks, t.inodes[id].blocks[i]))
            && (forall i | taken <= i < DIRECT_BLOCKS :: t.inodes[id].blocks[i] == s.inodes[id].blocks[i])
            && t.inodes == s.inodes[id := s.inodes[id].(blocks := t.inodes[id].blocks)]
            && t.usedInodes == s.usedInodes && t.freeInodes == s.freeInodes
  {
    hide TakeBlocks, OwnsSafely, Elements;
    TakeBlocksFills(s, id, 0, n);
    FilledUsed(s, TakeBlocks(s, id, 0, n).0, id, Obtained(s, n));
  }

  /**
   The outcome of fs_write, by how many blocks are free. It takes the least free blocks first. A write that runs
   out leaves none free: all of them are listed in the inode's first entries, its size and count stay.
   */
  lemma WriteOutcome(s: FsState, id: int, size: uint32)
    requires Inv(s)
    ensures var (t, r) := Write(s, id, size);
            var n := BlocksNeeded(size);
            if id < 0 || id >= MAX_FILES || n > DIRECT_BLOCKS then t == s && r == -1
            else
              var taken := if n <= s.freeBlocks then n else s.freeBlocks;
              var before, after := s.inodes[id], t.inodes[id];
              && t.freeBlocks == s.freeBlocks - taken
              && t.usedBlocks == s.usedBlocks + Elements(after.blocks[..taken])
              && (forall i | 0 <= i < taken ::
                    after.blocks[i] in t.usedBlocks - s.usedBlocks && AllUsed(t.usedBlocks, after.blocks[i]))
              && (forall i | taken <= i < DIRECT_BLOCKS :: after.blocks[i] == before.blocks[i])
              && (forall d: nat | d < MAX_FILES && d != id :: t.inodes[d] == s.inodes[d])
              && t.usedInodes == s.usedInodes && t.freeInodes == s.freeInodes
              && (if taken == n then r == AsInt32(size) && after.size == size && after.blockCount == n
                  else r == -1 && t.freeBlocks == 0 &&
                       after.size == before.size && after.blockCount == before.blockCount)
  {
    hide TakeBlocks, OwnsSafely, Elements, BlocksNeeded, AllUsed;
    if 0 <= id < MAX_FILES && BlocksNeeded(size) <= DIRECT_BLOCKS {
      TakeOutcome(s, id, BlocksNeeded(size));
    }
  }

  /** fs_delete on a live file frees its inode and exactly its blocks. */
  lemma DeleteOutcome(s: FsState, id: nat)
    requires Inv(s) && s.Live(id)
    ensures var (t, r) := Delete(s, id);
            && r == 0 && t.inodes == s.inodes
            && t.usedInodes == s.usedInodes - {id} && t.freeInodes == s.freeInodes + 1
            && t.usedBlocks == s.usedBlocks - Elements(s.inodes[id].Owned())
            && t.freeBlocks == s.freeBlocks + s.inodes[id].blockCount
  {
    hide OwnsSafely, Entry, FreeBlocks, Elements;
    OwnedBlocks(s, id);
    FreeBlocksEffect(s, s.inodes[id].Owned());
    SubsetSize(Elements(s.inodes[id].Owned()), s.usedBlocks);
    ExhaustedIff(s.usedInodes, MAX_FILES);
  }

  /** Which sizes fs_write does not reject: up to 512 KB, and those whose 32-bit block count wraps to 0. */
  lemma SizeLimitIff(size: uint32)
    ensures BlocksNeeded(size) <= DIRECT_BLOCKS <==>
            size <= DIRECT_BLOCKS * BLOCK_SIZE || size > TWO_32 - BLOCK_SIZE
  {
  }

  lemma BlocksCoverIff(size: uint32)
    requires BlocksNeeded(size) <= DIRECT_BLOCKS
    ensures BlocksNeeded(size) * BLOCK_SIZE >= size <==> size <= TWO_32 - BLOCK_SIZE
    ensures BlocksNeeded(size) * BLOCK_SIZE < size + BLOCK_SIZE
    ensures AsInt32(size) >= 0 <==> size <= TWO_32 - BLOCK_SIZE
  {
  }

  /** The blocks of a written file hold its bytes, with none to spare, iff the 32-bit block count did not wrap. */
  lemma WriteCoversIff(s: FsState, id: nat, size: uint32)
    requires Inv(s) && id < MAX_FILES && BlocksNeeded(size) <= DIRECT_BLOCKS && BlocksNeeded(size) <= s.freeBlocks
    ensures Write(s, id, size).0.inodes[id].blockCount * BLOCK_SIZE >= size <==> size <= TWO_32 - BLOCK_SIZE
    ensures Write(s, id, size).0.inodes[id].blockCount * BLOCK_SIZE < size + BLOCK_SIZE
    ensures Write(s, id, size).1 >= 0 <==> size <= TWO_32 - BLOCK_SIZE
  {
    hide Write, BlocksNeeded, AsInt32, OwnsSafely, Elements;
    WriteOutcome(s, id, size);
    BlocksCoverIff(size);
  }

  lemma NoElements()
    ensures Elements<nat>([]) == {} && Distinct<nat>([])
  {
  }

  /** Such a size: 2^32 - 1 bytes are written without a single block, and the size returned reads as a failure. */
  lemma HugeWrite(s: FsState, id: nat)
    requires Inv(s) && id < MAX_FILES
    ensures var (t, r) := Write(s, id, TWO_32 - 1);
            && t.inodes[id].size == TWO_32 - 1 && t.inodes[id].blockCount == 0 && r == -1
            && t.usedBlocks == s.usedBlocks && t.freeBlocks == s.freeBlocks
  {
    hide Write, OwnsSafely, AllUsed, Elements;
    WriteOutcome(s, id, TWO_32 - 1);
    NoElements();
  }

  lemma SpaceKB(freeBlocks: uint32)
    requires freeBlocks <= MAX_BLOCKS
    ensures FreeSpaceKB(freeBlocks) == 4 * freeBlocks
    ensures UsedSpaceKB(freeBlocks) == 4 * (MAX_BLOCKS - freeBlocks)
  {
  }

  /** Each scan fails iff its cached counter is 0, and the two space figures add up. */
  lemma ScanFailsIff(s: FsState)
    requires Inv(s)
    ensures FirstFree(s.usedBlocks, MAX_BLOCKS) == -1 <==> s.freeBlocks == 0
    ensures FirstFree(s.usedInodes, MAX_FILES) == -1 <==> s.freeInodes == 0
    ensures FreeSpaceKB(s.freeBlocks) + UsedSpaceKB(s.freeBlocks) == 262144
    ensures UsedSpaceKB(s.freeBlocks) == 4 * |s.usedBlocks|
  {
    hide FreeSpaceKB, UsedSpaceKB;
    ExhaustedIff(s.usedBlocks, MAX_BLOCKS);
    ExhaustedIff(s.usedInodes, MAX_FILES);
    SpaceKB(s.freeBlocks);
  }

  /** fs_delete answers 0 for every id in range, live or dead, and rejects all others without a change. */
  lemma DeleteResult(s: FsState, id: int)
    requires s.WellFormed()
    ensures var (t, r) := Delete(s, id);
            if 0 <= id < MAX_FILES then r == 0 && t.inodes == s.inodes && t.usedInodes == s.usedInodes - {id as nat}
            else r == -1 && t == s
  {
  }

  /** fs_delete does not check that the inode is live: the inode counter stays right iff it was. */
  lemma DeleteInodeCounterIff(s: FsState, id: nat)
    requires Inv(s) && id < MAX_FILES
    ensures InodeCounterAgrees(Delete(s, id).0) <==> s.Live(id)
  {
  }

  /** By how much the block counter is ahead of the bitmap. */
  ghost function Excess(s: FsState): int {
    s.freeBlocks - (MAX_BLOCKS - |s.usedBlocks|)
  }

  lemma FreeBlockExcess(s: FsState, block: nat)
    requires s.WellFormed() && block < MAX_BLOCKS && s.freeBlocks < TWO_32 - 1
    ensures FreeBlock(s, block).usedBlocks == s.usedBlocks - {block}
    ensures FreeBlock(s, block).freeBlocks == s.freeBlocks + 1
    ensures Excess(FreeBlock(s, block)) == Excess(s) + (if block in s.usedBlocks then 0 else 1)
  {
  }

  lemma WithinSplit(init: seq<nat>, last: nat, n: nat)
    ensures Elements(init + [last]) == Elements(init) + {last}
    ensures Within(Elements(init + [last]), n) <==> Within(Elements(init), n) && last < n
  {
  }

  lemma DistinctSplit(init: seq<nat>, last: nat)
    ensures Distinct(init + [last]) <==> Distinct(init) && last !in Elements(init)
  {
    var s := init + [last];
    assert forall i :: 0 <= i < |init| ==> s[i] == init[i];
    if last in init {
      var i :| 0 <= i < |init| && init[i] == last;
      assert s[i] == s[|init|];
    }
  }

  /** Freeing a list of blocks keeps the counter right iff they were all in use and none comes twice. */
  lemma {:induction false} FreeBlocksCounterIff(s: FsState, blocks: seq<nat>)
    requires s.WellFormed() && BlockCounterAgrees(s)
    requires |blocks| <= DIRECT_BLOCKS && Within(Elements(blocks), MAX_BLOCKS)
    ensures var t := FreeBlocks(s, blocks);
            && t.usedBlocks == s.usedBlocks - Elements(blocks)
            && t.freeBlocks == s.freeBlocks + |blocks|
            && Excess(t) >= 0
            && (Excess(t) == 0 <==> Distinct(blocks) && Elements(blocks) <= s.usedBlocks)
  {
    hide FreeBlock, FsState.WellFormed, Distinct, Elements, Within;
    if blocks == [] {
      NoElements();
    } else {
      var init, last := blocks[..|blocks| - 1], blocks[|blocks| - 1];
      assert blocks == init + [last];
      DistinctSplit(init, last);
      WithinSplit(init, last, MAX_BLOCKS);
      FreeBlocksCounterIff(s, init);
      FreeBlockExcess(FreeBlocks(s, init), last);
    }
  }

  /** For any inode, live or not: when fs_delete keeps each of the two counters right. */
  lemma DeleteCountersIff(s: FsState, id: nat)
    requires Inv(s) && id < MAX_FILES && Within(Elements(s.inodes[id].Owned()), MAX_BLOCKS)
    ensures InodeCounterAgrees(Delete(s, id).0) <==> s.Live(id)
    ensures BlockCounterAgrees(Delete(s, id).0) <==>
            Distinct(s.inodes[id].Owned()) && Elements(s.inodes[id].Owned()) <= s.usedBlocks
  {
    DeleteInodeCounterIff(s, id);
    FreeBlocksCounterIff(s, s.inodes[id].Owned());
  }

  /** Deleting a file twice leaves both counters wrong, the block counter iff the file had blocks. */
  lemma DoubleDelete(s: FsState, id: nat)
    requires Inv(s) && s.Live(id)
    ensures var t := Delete(Delete(s, id).0, id).0;
            !InodeCounterAgrees(t) && (BlockCounterAgrees(t) <==> s.inodes[id].blockCount == 0)
  {
    OwnedBlocks(s, id);
    DeleteInv(s, id);
    DeleteOutcome(s, id);
    var t, owned := Delete(s, id).0, s.inodes[id].Owned();
    DeleteCountersIff(t, id);
    if owned != [] {
      assert owned[0] in Elements(owned);
    }
  }

  /** The discipline is exactly what the invariant needs: a step keeps it iff it is allowed. */
  lemma StepInvIff(s: FsState, op: Op)
    requires Inv(s)
    ensures Inv(Step(s, op)) <==> Allowed(s, op)
  {
    if Allowed(s, op) {
      StepInv(s, op);
    } else {
      DeleteInodeCounterIff(s, op.id);
    }
  }

  // ----- whose blocks a stale delete takes

  lemma {:induction false} FreeBlocksUsed(s: FsState, blocks: seq<nat>)
    requires s.WellFormed()
    ensures FreeBlocks(s, blocks).usedBlocks == s.usedBlocks - Elements(blocks)
  {
    if blocks != [] {
      var init, last := blocks[..|blocks| - 1], blocks[|blocks| - 1];
      assert blocks == init + [last];
      WithinSplit(init, last, 0);
      FreeBlocksUsed(s, init);
    }
  }

  /** fs_delete keeps ownership safe iff no other live file lists a block that the inode lists. */
  lemma DeleteOwnershipIff(s: FsState, id: nat)
    requires Inv(s) && id < MAX_FILES
    ensures OwnsSafely(Delete(s, id).0) <==>
            forall d: nat, i: nat | d != id && Entry(s, d, i) :: BlockAt(s, d, i) !in s.inodes[id].Owned()
  {
    var t, stale := Delete(s, id).0, s.inodes[id].Owned();
    FreeBlocksUsed(s, stale);
    forall d: nat, i: nat
      ensures Entry(t, d, i) <==> d != id && Entry(s, d, i)
      ensures Entry(t, d, i) ==> BlockAt(t, d, i) == BlockAt(s, d, i) && BlockAt(s, d, i) in s.usedBlocks
    {
    }
    if OwnsSafely(t) {
      forall d: nat, i: nat | d != id && Entry(s, d, i)
        ensures BlockAt(s, d, i) !in stale
      {
        assert Entry(t, d, i) && BlockAt(t, d, i) in t.usedBlocks;
      }
    }
  }

  /** A second delete after a write to another file harms that file iff the write took a block the first one freed. */
  lemma StaleDeleteIff(s: FsState, id: nat, d: nat, size: uint32)
    requires Inv(s) && s.Live(id) && s.Live(d) && d != id
    ensures var u := Write(Delete(s, id).0, d, size).0;
            OwnsSafely(Delete(u, id).0) <==>
            forall i: nat | i < u.inodes[d].blockCount :: u.inodes[d].blocks[i] !in s.inodes[id].Owned()
  {
    var t := Delete(s, id).0;
    var u, stale := Write(t, d, size).0, s.inodes[id].Owned();
    DeleteInv(s, id);
    DeleteOutcome(s, id);
    WriteInv(t, d, size);
    WriteOutcome(t, d, size);
    DeleteOwnershipIff(u, id);
    forall e: nat, i: nat | e != id && Entry(u, e, i) && e != d
      ensures BlockAt(u, e, i) !in stale
    {
      assert Entry(s, e, i) && BlockAt(u, e, i) == BlockAt(s, e, i);
      OwnedElsewhere(s, id, e, i);
    }
    forall i: nat | i < u.inodes[d].blockCount
      ensures Entry(u, d, i) && BlockAt(u, d, i) == u.inodes[d].blocks[i]
    {
    }
  }

  /** When slot b was freed and everything below it was in use before, a first-fit run of takings takes a freed slot. */
  lemma TakesFreed(before: set<nat>, freed: seq<nat>, taken: seq<nat>, b: nat) returns (i: nat)
    requires Elements(freed) <= before && b in freed && AllUsed(before, b)
    requires taken != [] && taken[0] !in before - Elements(freed)
    requires AllUsed(before - Elements(freed) + Elements(taken), taken[0])
    ensures i < |taken| && taken[i] in freed
  {
    i := 0;
    if taken[0] !in freed {
      assert b < taken[0] && b in before - Elements(freed) + Elements(taken);
      assert b in taken;
      i :| i < |taken| && taken[i] == b;
    }
  }

  /** First fit makes that the rule: it happens whenever no block below some block of the deleted file is free. */
  lemma ReuseIsHarmed(s: FsState, id: nat, d: nat, size: uint32, b: nat)
    requires Inv(s) && s.Live(id) && s.Live(d) && d != id
    requires b in s.inodes[id].Owned() && AllUsed(s.usedBlocks, b)
    requires 1 <= BlocksNeeded(size) <= DIRECT_BLOCKS && BlocksNeeded(size) <= Delete(s, id).0.freeBlocks
    ensures !OwnsSafely(Delete(Write(Delete(s, id).0, d, size).0, id).0)
  {
    hide Write, Delete, OwnsSafely, BlocksNeeded;
    var t, n := Delete(s, id).0, BlocksNeeded(size);
    OwnedBlocks(s, id);
    DeleteInv(s, id);
    DeleteOutcome(s, id);
    WriteOutcome(t, d, size);
    var taken := Write(t, d, size).0.inodes[d].blocks[..n];
    var i := TakesFreed(s.usedBlocks, s.inodes[id].Owned(), taken, b);
    StaleDeleteIff(s, id, d, size);
  }

  /** One such run: two files are created, one is written, deleted, and deleted again after the other was written. */
  ghost const STALE_RUN: seq<Op> :=
    [CreateOp(Regular), CreateOp(Regular), WriteOp(1, BLOCK_SIZE), DeleteOp(1), WriteOp(2, BLOCK_SIZE), DeleteOp(1)]

  /** Unfolds a run of six operations. */
  lemma SixSteps(s: FsState, ops: seq<Op>)
    requires s.WellFormed() && |ops| == 6
    ensures Run(s, ops) == Step(Step(Step(Step(Step(Step(s, ops[0]), ops[1]), ops[2]), ops[3]), ops[4]), ops[5])
  {
    hide Step, FsState.WellFormed;
    assert ops[..5][..4] == ops[..4] && ops[..4][..3] == ops[..3];
    assert ops[..3][..2] == ops[..2] && ops[..2][..1] == ops[..1];
    assert Run(s, ops[..1][..0]) == s;
    assert Run(s, ops[..1]) == Step(s, ops[0]);
    assert Run(s, ops[..2]) == Step(Step(s, ops[0]), ops[1]);
    assert Run(s, ops[..3]) == Step(Run(s, ops[..2]), ops[2]);
    assert Run(s, ops[..4]) == Step(Run(s, ops[..3]), ops[3]);
  }

  lemma TwoFiles(s: FsState)
    requires Inv(s) && s.usedInodes == {0} && s.usedBlocks == {}
    ensures var t := Create(Create(s, Regular).0, Regular).0;
            Inv(t) && t.Live(1) && t.Live(2) && t.usedBlocks == {} && t.freeBlocks == s.freeBlocks
  {
    hide Create, OwnsSafely;
    var t := Create(s, Regular).0;
    CreateInv(s, Regular);
    CreateInv(t, Regular);
    CreateOutcome(s, Regular);
    CreateOutcome(t, Regular);
  }

  lemma OneBlockWrite(s: FsState, id: nat)
    requires Inv(s) && s.Live(id) && s.freeBlocks > 0
    ensures var t := Write(s, id, BLOCK_SIZE).0;
            && Inv(t) && t.usedInodes == s.usedInodes && t.freeBlocks == s.freeBlocks - 1
            && t.inodes[id].blockCount == 1 && AllUsed(t.usedBlocks, t.inodes[id].blocks[0])
  {
    hide Write, OwnsSafely, Elements;
    WriteInv(s, id, BLOCK_SIZE);
    WriteOutcome(s, id, BLOCK_SIZE);
  }

  lemma StaleRunHarms(table: seq<Inode>)
    requires InodeTable(table)
    ensures !OwnsSafely(Run(InitState(table), STALE_RUN))
  {
    hide Create, Write, Delete, Inv, Run;
    var s := Create(Create(InitState(table), Regular).0, Regular).0;
    var t := Write(s, 1, BLOCK_SIZE).0;
    SixSteps(InitState(table), STALE_RUN);
    InitInv(table);
    TwoFiles(InitState(table));
    OneBlockWrite(s, 1);
    DeleteOutcome(t, 1);
    ReuseIsHarmed(t, 1, 2, BLOCK_SIZE, t.inodes[1].blocks[0]);
  }
}
