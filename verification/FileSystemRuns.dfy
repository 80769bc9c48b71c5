/**
 What runs of the file system keep: which blocks belong to which file, that the cached
 counters agree with the bitmaps.
 A run is disciplined when fs_delete is only given ids of live inodes, or ids it rejects.
 */
module FileSystemRuns {
  import opened Machine
  import opened FreeSlots
  import opened Sequences
  import opened FileSystem

  datatype Op = CreateOp(kind: FileType) | WriteOp(id: int, size: uint32) | DeleteOp(id: int)

  ghost function Step(s: FsState, op: Op): (t: FsState)
    requires s.WellFormed()
    ensures t.WellFormed()
  {
    match op
    case CreateOp(kind) => Create(s, kind).0
    case WriteOp(id, size) => Write(s, id, size).0
    case DeleteOp(id) => Delete(s, id).0
  }

  ghost predicate Allowed(s: FsState, op: Op) {
    op.DeleteOp? ==> op.id < 0 || op.id >= MAX_FILES || s.Live(op.id)
  }

  ghost function Run(s: FsState, ops: seq<Op>): (t: FsState)
    requires s.WellFormed()
    ensures t.WellFormed()
  {
    if ops == [] then s else Step(Run(s, ops[..|ops| - 1]), ops[|ops| - 1])
  }

  ghost predicate Disciplined(s: FsState, ops: seq<Op>)
    requires s.WellFormed()
  {
    ops == [] || (Disciplined(s, ops[..|ops| - 1]) && Allowed(Run(s, ops[..|ops| - 1]), ops[|ops| - 1]))
  }

  // ----- the invariant

  /** Entry i of file id is one of the file's blocks. */
  ghost predicate Entry(s: FsState, id: nat, i: nat)
    requires s.WellFormed()
  {
    s.Live(id) && i < s.inodes[id].blockCount
  }

  ghost function BlockAt(s: FsState, id: nat, i: nat): nat
    requires s.WellFormed() && Entry(s, id, i)
  {
    s.inodes[id].blocks[i]
  }

  /** Every block of a live file is marked, and no block is listed twice, in one file or in two. */
  ghost predicate OwnsSafely(s: FsState)
    requires s.WellFormed()
  {
    && (forall id: nat, i: nat | Entry(s, id, i) :: BlockAt(s, id, i) in s.usedBlocks)
    && (forall id: nat, i: nat, id': nat, i': nat | Entry(s, id, i) && Entry(s, id', i') && (id != id' || i != i') ::
          BlockAt(s, id, i) != BlockAt(s, id', i'))
  }

  ghost predicate BlockCounterAgrees(s: FsState) {
    s.freeBlocks == MAX_BLOCKS - |s.usedBlocks|
  }

  ghost predicate InodeCounterAgrees(s: FsState) {
    s.freeInodes == MAX_FILES - |s.usedInodes|
  }

  ghost predicate Inv(s: FsState) {
    s.WellFormed() && OwnsSafely(s) && BlockCounterAgrees(s) && InodeCounterAgrees(s)
  }

  lemma InitInv(table: seq<Inode>)
    requires InodeTable(table)
    ensures Inv(InitState(table))
    ensures var s := InitState(table);
            && s.usedBlocks == {} && s.usedInodes == {0}
            && s.inodes == table[0 := table[0].(kind := Directory, size := 0, blockCount := 0)]
  {
  }

  lemma CreateInv(s: FsState, kind: FileType)
    requires Inv(s)
    ensures Inv(Create(s, kind).0)
  {
    var (t, id) := Create(s, kind);
    if id != -1 {
      ExhaustedIff(s.usedInodes, MAX_FILES);
      assert forall d: nat, i: nat | Entry(t, d, i) :: Entry(s, d, i) && BlockAt(t, d, i) == BlockAt(s, d, i);
    }
  }

  /** t is s with k unused blocks taken and listed in entries i..i+k of inode id. */
  ghost predicate Filled(s: FsState, t: FsState, id: nat, i: nat, k: nat)
    requires s.WellFormed() && t.WellFormed() && id < MAX_FILES && i + k <= DIRECT_BLOCKS
  {
    && t.usedInodes == s.usedInodes && t.freeInodes == s.freeInodes
    && t.inodes == s.inodes[id := s.inodes[id].(blocks := t.inodes[id].blocks)]
    && s.usedBlocks <= t.usedBlocks && |t.usedBlocks| == |s.usedBlocks| + k
    && (BlockCounterAgrees(s) ==> BlockCounterAgrees(t))
    && var after, before := t.inodes[id].blocks, s.inodes[id].blocks;
    && (forall j | 0 <= j < DIRECT_BLOCKS && !(i <= j < i + k) :: after[j] == before[j])
    && (forall j | i <= j < i + k ::
          after[j] in t.usedBlocks && after[j] !in s.usedBlocks && AllUsed(t.usedBlocks, after[j]))
    && (forall j, j' | i <= j < j' < i + k :: after[j] != after[j'])
  }

  /** How many blocks fs_write gets when it asks for n. */
  ghost function Obtained(s: FsState, n: nat): nat
    requires s.WellFormed()
  {
    ExhaustedIff(s.usedBlocks, MAX_BLOCKS);
    if n <= MAX_BLOCKS - |s.usedBlocks| then n else MAX_BLOCKS - |s.usedBlocks|
  }

  lemma TakeBlockFills(s: FsState, id: nat, i: nat)
    requires s.WellFormed() && id < MAX_FILES && i < DIRECT_BLOCKS
    requires FirstFree(s.usedBlocks, MAX_BLOCKS) != -1
    ensures Filled(s, TakeBlock(s, id, i), id, i, 1)
  {
    ExhaustedIff(s.usedBlocks, MAX_BLOCKS);
  }

  lemma FilledThen(s: FsState, s': FsState, t: FsState, id: nat, i: nat, k: nat)
    requires s.WellFormed() && s'.WellFormed() && t.WellFormed() && id < MAX_FILES && i + 1 + k <= DIRECT_BLOCKS
    requires Filled(s, s', id, i, 1) && Filled(s', t, id, i + 1, k)
    ensures Filled(s, t, id, i, k + 1)
  {
  }

  lemma FilledNone(s: FsState, id: nat, i: nat)
    requires s.WellFormed() && id < MAX_FILES && i <= DIRECT_BLOCKS
    ensures Filled(s, s, id, i, 0)
  {
  }

  lemma FilledSize(s: FsState, t: FsState, id: nat, i: nat, k: nat)
    requires s.WellFormed() && t.WellFormed() && id < MAX_FILES && i + k <= DIRECT_BLOCKS
    requires Filled(s, t, id, i, k)
    ensures |t.usedBlocks| == |s.usedBlocks| + k
  {
  }

  lemma {:induction false} TakeBlocksFills(s: FsState, id: nat, i: nat, n: nat)
    requires s.WellFormed() && id < MAX_FILES && i <= n <= DIRECT_BLOCKS
    ensures var (t, ok) := TakeBlocks(s, id, i, n);
            ok == (n - i <= MAX_BLOCKS - |s.usedBlocks|) && Filled(s, t, id, i, Obtained(s, n - i))
    decreases n - i
  {
    hide Filled, TakeBlock;
    ExhaustedIff(s.usedBlocks, MAX_BLOCKS);
    if i == n || FirstFree(s.usedBlocks, MAX_BLOCKS) == -1 {
      FilledNone(s, id, i);
    } else {
      var s' := TakeBlock(s, id, i);
      TakeBlockFills(s, id, i);
      FilledSize(s, s', id, i, 1);
      TakeBlocksFills(s', id, i + 1, n);
      FilledThen(s, s', TakeBlocks(s', id, i + 1, n).0, id, i, Obtained(s', n - i - 1));
    }
  }

  /** The blocks taken are exactly the ones listed. */
  lemma FilledUsed(s: FsState, t: FsState, id: nat, k: nat)
    requires s.WellFormed() && t.WellFormed() && id < MAX_FILES && k <= DIRECT_BLOCKS
    requires Filled(s, t, id, 0, k)
    ensures t.usedBlocks == s.usedBlocks + Elements(t.inodes[id].blocks[..k])
  {
    var taken := t.inodes[id].blocks[..k];
    assert Distinct(taken);
    DistinctSize(taken);
    assert Elements(taken) !! s.usedBlocks && s.usedBlocks + Elements(taken) <= t.usedBlocks;
    SubsetSize(s.usedBlocks + Elements(taken), t.usedBlocks);
  }

  /** Refilling an inode, live or not, keeps ownership, whichever of the old and the new block count it ends with. */
  lemma RefillSafe(s: FsState, t: FsState, id: nat, k: nat, u: FsState)
    requires Inv(s) && t.WellFormed() && id < MAX_FILES && k <= DIRECT_BLOCKS
    requires Filled(s, t, id, 0, k)
    requires u.WellFormed() && u.usedBlocks == t.usedBlocks && u.usedInodes == t.usedInodes
    requires u.inodes ==
             t.inodes[id := t.inodes[id].(blockCount := u.inodes[id].blockCount, size := u.inodes[id].size)]
    requires u.inodes[id].blockCount <= k || u.inodes[id].blockCount <= s.inodes[id].blockCount
    ensures OwnsSafely(u)
  {
    forall d: nat, i: nat | Entry(u, d, i)
      ensures BlockAt(u, d, i) in u.usedBlocks
      ensures (d == id && i < k) || (Entry(s, d, i) && BlockAt(u, d, i) == BlockAt(s, d, i))
    {
      if d != id || i >= k {
        assert Entry(s, d, i) && BlockAt(u, d, i) == BlockAt(s, d, i);
      }
    }
  }

  lemma WriteInv(s: FsState, id: int, size: uint32)
    requires Inv(s)
    ensures Inv(Write(s, id, size).0)
  {
    var n := BlocksNeeded(size);
    if 0 <= id < MAX_FILES && n <= DIRECT_BLOCKS {
      TakeBlocksFills(s, id, 0, n);
      RefillSafe(s, TakeBlocks(s, id, 0, n).0, id, Obtained(s, n), Write(s, id, size).0);
    }
  }

  lemma FreeBlockEffect(s: FsState, block: nat)
    requires s.WellFormed() && BlockCounterAgrees(s) && block in s.usedBlocks
    ensures FreeBlock(s, block).usedBlocks == s.usedBlocks - {block}
    ensures BlockCounterAgrees(FreeBlock(s, block))
  {
  }

  lemma {:induction false} FreeBlocksEffect(s: FsState, blocks: seq<nat>)
    requires s.WellFormed() && BlockCounterAgrees(s)
    requires Distinct(blocks) && Elements(blocks) <= s.usedBlocks
    ensures FreeBlocks(s, blocks).usedBlocks == s.usedBlocks - Elements(blocks)
    ensures BlockCounterAgrees(FreeBlocks(s, blocks))
  {
    hide FreeBlock, FsState.WellFormed;
    if blocks != [] {
      var init, last := blocks[..|blocks| - 1], blocks[|blocks| - 1];
      assert blocks == init + [last];
      assert Elements(blocks) == Elements(init) + {last};
      FreeBlocksEffect(s, init);
      FreeBlockEffect(FreeBlocks(s, init), last);
    }
  }

  lemma OwnedEntry(s: FsState, id: nat, i: nat)
    requires s.WellFormed() && s.Live(id) && i < s.inodes[id].blockCount
    ensures Entry(s, id, i) && s.inodes[id].Owned()[i] == BlockAt(s, id, i)
  {
  }

  /** The blocks of a live file, as a set of that many marked blocks. */
  lemma OwnedBlocks(s: FsState, id: nat)
    requires Inv(s) && s.Live(id)
    ensures Distinct(s.inodes[id].Owned())
    ensures Elements(s.inodes[id].Owned()) <= s.usedBlocks
    ensures |Elements(s.inodes[id].Owned())| == s.inodes[id].blockCount
  {
    var owned := s.inodes[id].Owned();
    assert forall i: nat | i < |owned| :: Entry(s, id, i) && owned[i] == BlockAt(s, id, i);
    DistinctSize(owned);
  }

  lemma OwnedElsewhere(s: FsState, id: nat, d: nat, i: nat)
    requires Inv(s) && s.Live(id) && Entry(s, d, i) && d != id
    ensures BlockAt(s, d, i) !in s.inodes[id].Owned()
  {
    forall j: nat | j < s.inodes[id].blockCount
      ensures s.inodes[id].Owned()[j] != BlockAt(s, d, i)
    {
      OwnedEntry(s, id, j);
    }
  }

  /** Taking away one file and its blocks leaves the other files' blocks as they were. */
  lemma RemainingSafe(s: FsState, id: nat, t: FsState)
    requires Inv(s) && s.Live(id) && t.WellFormed() && t.inodes == s.inodes
    requires t.usedInodes == s.usedInodes - {id}
    requires t.usedBlocks == s.usedBlocks - Elements(s.inodes[id].Owned())
    ensures OwnsSafely(t)
  {
    forall d: nat, i: nat | Entry(t, d, i)
      ensures Entry(s, d, i) && BlockAt(t, d, i) == BlockAt(s, d, i) && BlockAt(t, d, i) in t.usedBlocks
    {
      assert Entry(s, d, i);
      OwnedElsewhere(s, id, d, i);
    }
  }

  lemma DeleteInv(s: FsState, id: nat)
    requires Inv(s) && s.Live(id)
    ensures Inv(Delete(s, id).0)
  {
    hide OwnsSafely, FreeBlocks;
    var t := Delete(s, id).0;
    OwnedBlocks(s, id);
    FreeBlocksEffect(s, s.inodes[id].Owned());
    assert InodeCounterAgrees(t) by {
      ExhaustedIff(s.usedInodes, MAX_FILES);
    }
    RemainingSafe(s, id, t);
  }

  lemma StepInv(s: FsState, op: Op)
    requires Inv(s) && Allowed(s, op)
    ensures Inv(Step(s, op))
  {
    match op
    case CreateOp(kind) => CreateInv(s, kind);
    case WriteOp(id, size) => WriteInv(s, id, size);
    case DeleteOp(id) =>
      if 0 <= id < MAX_FILES {
        DeleteInv(s, id);
      }
  }

  /** Ownership safety and counter agreement in every disciplined run. */
  lemma {:induction false} RunInv(s: FsState, ops: seq<Op>)
    requires Inv(s) && Disciplined(s, ops)
    ensures Inv(Run(s, ops))
  {
    if ops != [] {
      var before := ops[..|ops| - 1];
      RunInv(s, before);
      StepInv(Run(s, before), ops[|ops| - 1]);
    }
  }
}
