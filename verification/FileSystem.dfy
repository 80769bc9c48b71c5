/**
 The block and inode allocator of the file system, and the block lists of its files.
 FsState is what the superblock, the two bitmaps and the inode table say; the class
 Volume keeps them in arrays and is proved against the functions on FsState.
 */
module FileSystem {
  import opened Machine
  import opened FreeSlots
  import opened ByteBitmap

  const MAX_FILES := 1024
  const MAX_BLOCKS := 65536
  const BLOCK_SIZE := 4096
  const DIRECT_BLOCKS := 128

  datatype FileType = Regular | Directory | Symlink

  /** `blocks` has DIRECT_BLOCKS entries, of which the first `blockCount` belong to the file. */
  datatype Inode = Inode(kind: FileType, size: uint32, blocks: seq<nat>, blockCount: nat) {
    ghost predicate WellFormed() {
      |blocks| == DIRECT_BLOCKS && blockCount <= DIRECT_BLOCKS
    }

    ghost function Owned(): seq<nat>
      requires WellFormed()
    {
      blocks[..blockCount]
    }
  }

  ghost predicate InodeTable(table: seq<Inode>) {
    |table| == MAX_FILES && forall id: nat :: id < MAX_FILES ==> table[id].WellFormed()
  }

  datatype FsState = FsState(
    usedBlocks: set<nat>, freeBlocks: uint32,
    usedInodes: set<nat>, freeInodes: uint32,
    inodes: seq<Inode>)
  {
    ghost predicate WellFormed() {
      && Within(usedBlocks, MAX_BLOCKS)
      && Within(usedInodes, MAX_FILES)
      && InodeTable(inodes)
    }

    predicate Live(id: int) {
      0 <= id && id in usedInodes
    }
  }

  // ----- what each operation does to the state

  ghost function InitState(table: seq<Inode>): (s: FsState)
    requires InodeTable(table)
    ensures s.WellFormed()
  {
    FsState({}, MAX_BLOCKS, {0}, MAX_FILES - 1,
            table[0 := table[0].(kind := Directory, size := 0, blockCount := 0)])
  }

  /** The state after fs_create, and the inode id it returns, or -1. */
  ghost function Create(s: FsState, kind: FileType): (r: (FsState, int))
    requires s.WellFormed()
    ensures r.0.WellFormed()
  {
    var id := FirstFree(s.usedInodes, MAX_FILES);
    if id == -1 then (s, -1)
    else (s.(usedInodes := s.usedInodes + {id}, freeInodes := Sub32(s.freeInodes, 1),
             inodes := s.inodes[id := s.inodes[id].(kind := kind, size := 0, blockCount := 0)]), id)
  }

  /** One turn of the loop in fs_write: the next free block goes into entry i of the inode. */
  ghost function TakeBlock(s: FsState, id: nat, i: nat): (r: FsState)
    requires s.WellFormed() && id < MAX_FILES && i < DIRECT_BLOCKS
    requires FirstFree(s.usedBlocks, MAX_BLOCKS) != -1
    ensures r.WellFormed()
  {
    var b := FirstFree(s.usedBlocks, MAX_BLOCKS);
    var inode := s.inodes[id];
    s.(usedBlocks := s.usedBlocks + {b}, freeBlocks := Sub32(s.freeBlocks, 1),
       inodes := s.inodes[id := inode.(blocks := inode.blocks[i := b])])
  }

  /** Fills entries i..n of the inode, and says whether the blocks sufficed. */
  ghost function TakeBlocks(s: FsState, id: nat, i: nat, n: nat): (r: (FsState, bool))
    requires s.WellFormed() && id < MAX_FILES && i <= n <= DIRECT_BLOCKS
    ensures r.0.WellFormed()
    decreases n - i
  {
    if i == n then (s, true)
    else if FirstFree(s.usedBlocks, MAX_BLOCKS) == -1 then (s, false)
    else TakeBlocks(TakeBlock(s, id, i), id, i + 1, n)
  }

  /** The block count fs_write computes in 32 bits; it wraps for sizes above 2^32 - BLOCK_SIZE. */
  function BlocksNeeded(size: uint32): nat {
    Add32(size, BLOCK_SIZE - 1) / BLOCK_SIZE
  }

  ghost function Write(s: FsState, id: int, size: uint32): (r: (FsState, int))
    requires s.WellFormed()
    ensures r.0.WellFormed()
  {
    if id < 0 || id >= MAX_FILES || BlocksNeeded(size) > DIRECT_BLOCKS then (s, -1)
    else
      var n := BlocksNeeded(size);
      var (t, ok) := TakeBlocks(s, id, 0, n);
      if !ok then (t, -1)
      else (t.(inodes := t.inodes[id := t.inodes[id].(blockCount := n, size := size)]), AsInt32(size))
  }

  ghost function FreeBlock(s: FsState, block: int): (r: FsState)
    requires s.WellFormed()
    ensures r.WellFormed() && r.inodes == s.inodes && r.usedInodes == s.usedInodes && r.freeInodes == s.freeInodes
  {
    if block < 0 || block >= MAX_BLOCKS then s
    else s.(usedBlocks := s.usedBlocks - {block}, freeBlocks := Add32(s.freeBlocks, 1))
  }

  /** Frees a list of blocks, first to last. */
  ghost function FreeBlocks(s: FsState, blocks: seq<nat>): (r: FsState)
    requires s.WellFormed()
    ensures r.WellFormed() && r.inodes == s.inodes && r.usedInodes == s.usedInodes && r.freeInodes == s.freeInodes
  {
    if blocks == [] then s
    else FreeBlock(FreeBlocks(s, blocks[..|blocks| - 1]), blocks[|blocks| - 1])
  }

  ghost function Delete(s: FsState, id: int): (r: (FsState, int))
    requires s.WellFormed()
    ensures r.0.WellFormed()
  {
    if id < 0 || id >= MAX_FILES then (s, -1)
    else
      var t := FreeBlocks(s, s.inodes[id].Owned());
      (t.(usedInodes := t.usedInodes - {id}, freeInodes := Add32(t.freeInodes, 1)), 0)
  }

  function FreeSpaceKB(freeBlocks: uint32): uint32 {
    Mul32(freeBlocks, BLOCK_SIZE) / 1024
  }

  function UsedSpaceKB(freeBlocks: uint32): uint32 {
    Mul32(Sub32(MAX_BLOCKS, freeBlocks), BLOCK_SIZE) / 1024
  }

  // ----- the tables themselves

  class Volume {
    const blockBitmap: array<bv8>
    const inodeBitmap: array<bv8>
    const inodes: array<Inode>
    var freeBlocks: uint32
    var freeInodes: uint32

    ghost predicate Valid()
      reads this, inodes
    {
      && blockBitmap.Length == MAX_BLOCKS / 8
      && inodeBitmap.Length == MAX_FILES / 8
      && inodes.Length == MAX_FILES
      && blockBitmap != inodeBitmap
      && InodeTable(inodes[..])
    }

    ghost function State(): (s: FsState)
      reads this, inodes, blockBitmap, inodeBitmap
      requires Valid()
      ensures s.WellFormed()
    {
      FsState(Marked(blockBitmap[..]), freeBlocks, Marked(inodeBitmap[..]), freeInodes, inodes[..])
    }

    /** The statically allocated tables, before fs_init. */
    constructor ()
      ensures Valid()
      ensures fresh(blockBitmap) && fresh(inodeBitmap) && fresh(inodes)
    {
      blockBitmap := new bv8[MAX_BLOCKS / 8](_ => 0);
      inodeBitmap := new bv8[MAX_FILES / 8](_ => 0);
      inodes := new Inode[MAX_FILES](_ => Inode(Regular, 0, seq(DIRECT_BLOCKS, _ => 0), 0));
      freeBlocks, freeInodes := 0, 0;
    }

    method Init()
      requires Valid()
      modifies this, blockBitmap, inodeBitmap, inodes
      ensures Valid() && State() == InitState(old(inodes[..]))
    {
      freeBlocks, freeInodes := MAX_BLOCKS, MAX_FILES;
      for i := 0 to blockBitmap.Length
        invariant inodes[..] == old(inodes[..]) && freeBlocks == MAX_BLOCKS && freeInodes == MAX_FILES
        invariant forall k :: 0 <= k < i ==> blockBitmap[k] == 0
      {
        blockBitmap[i] := 0;
      }
      for i := 0 to inodeBitmap.Length
        invariant inodes[..] == old(inodes[..]) && freeBlocks == MAX_BLOCKS && freeInodes == MAX_FILES
        invariant forall k :: 0 <= k < i ==> inodeBitmap[k] == 0
        invariant forall k :: 0 <= k < blockBitmap.Length ==> blockBitmap[k] == 0
      {
        inodeBitmap[i] := 0;
      }
      MarkedZero(blockBitmap[..]);
      MarkedZero(inodeBitmap[..]);
      inodes[0] := inodes[0].(kind := Directory, size := 0, blockCount := 0);
      ghost var empty := inodeBitmap[..];
      MarkedSet(empty, 0, 0);
      inodeBitmap[0] := With(inodeBitmap[0], Mask(0));
      assert inodeBitmap[..] == empty[0 := With(empty[0], Mask(0))];
      freeInodes := Sub32(freeInodes, 1);
      assert inodes[..] == old(inodes[..])[0 := inodes[0]];
    }

    method AllocateBlock() returns (block: int)
      requires Valid()
      modifies this`freeBlocks, blockBitmap
      ensures Valid()
      ensures block == FirstFree(old(State()).usedBlocks, MAX_BLOCKS)
      ensures State() == if block == -1 then old(State())
                         else old(State()).(usedBlocks := old(State()).usedBlocks + {block},
                                            freeBlocks := Sub32(old(freeBlocks), 1))
    {
      block := TakeFirstClear(blockBitmap);
      if block >= 0 {
        freeBlocks := Sub32(freeBlocks, 1);
      }
    }

    method ReleaseBlock(block: int)
      requires Valid()
      modifies this`freeBlocks, blockBitmap
      ensures Valid() && State() == FreeBlock(old(State()), block)
    {
      if block < 0 || block >= MAX_BLOCKS {
        return;
      }
      ClearSlot(blockBitmap, block);
      freeBlocks := Add32(freeBlocks, 1);
    }

    method AllocateInode() returns (id: int)
      requires Valid()
      modifies this`freeInodes, inodeBitmap
      ensures Valid()
      ensures id == FirstFree(old(State()).usedInodes, MAX_FILES)
      ensures State() == if id == -1 then old(State())
                         else old(State()).(usedInodes := old(State()).usedInodes + {id},
                                            freeInodes := Sub32(old(freeInodes), 1))
    {
      id := TakeFirstClear(inodeBitmap);
      if id >= 0 {
        freeInodes := Sub32(freeInodes, 1);
      }
    }

    method ReleaseInode(id: int)
      requires Valid()
      modifies this`freeInodes, inodeBitmap
      ensures Valid()
      ensures State() == if id < 0 || id >= MAX_FILES then old(State())
                         else old(State()).(usedInodes := old(State()).usedInodes - {id},
                                            freeInodes := Add32(old(freeInodes), 1))
    {
      if id < 0 || id >= MAX_FILES {
        return;
      }
      ClearSlot(inodeBitmap, id);
      freeInodes := Add32(freeInodes, 1);
    }

    method FsCreate(kind: FileType) returns (id: int)
      requires Valid()
      modifies this, inodeBitmap, inodes
      ensures Valid() && (State(), id) == Create(old(State()), kind)
    {
      id := AllocateInode();
      if id < 0 {
        return -1;
      }
      inodes[id] := inodes[id].(kind := kind, size := 0, blockCount := 0);
      assert inodes[..] == old(inodes[..])[id := inodes[id]];
    }

    method FsWrite(id: int, size: uint32) returns (r: int)
      requires Valid()
      modifies this, blockBitmap, inodes
      ensures Valid() && (State(), r) == Write(old(State()), id, size)
    {
      if id < 0 || id >= MAX_FILES {
        return -1;
      }
      var needed := BlocksNeeded(size);
      if needed > DIRECT_BLOCKS {
        return -1;
      }
      for i := 0 to needed
        invariant Valid()
        invariant TakeBlocks(State(), id, i, needed) == TakeBlocks(old(State()), id, 0, needed)
      {
        ghost var before := State();
        var block := AllocateBlock();
        if block < 0 {
          return -1;
        }
        inodes[id] := inodes[id].(blocks := inodes[id].blocks[i := block]);
        assert State().inodes == TakeBlock(before, id, i).inodes;
      }
      ghost var filled := State();
      inodes[id] := inodes[id].(blockCount := needed, size := size);
      assert inodes[..] == filled.inodes[id := inodes[id]];
      return AsInt32(size);
    }

    method FsDelete(id: int) returns (r: int)
      requires Valid()
      modifies this, blockBitmap, inodeBitmap
      ensures Valid() && (State(), r) == Delete(old(State()), id)
    {
      if id < 0 || id >= MAX_FILES {
        return -1;
      }
      ghost var owned := inodes[id].Owned();
      for i := 0 to inodes[id].blockCount
        invariant Valid() && inodes[..] == old(inodes[..])
        invariant State() == FreeBlocks(old(State()), owned[..i])
      {
        assert owned[..i + 1][..i] == owned[..i];
        ReleaseBlock(inodes[id].blocks[i]);
      }
      assert owned[..inodes[id].blockCount] == owned;
      ReleaseInode(id);
      return 0;
    }

    method FsGetFreeSpace() returns (kb: uint32)
      ensures kb == FreeSpaceKB(freeBlocks)
      ensures freeBlocks <= MAX_BLOCKS ==> kb == 4 * freeBlocks
    {
      kb := Mul32(freeBlocks, BLOCK_SIZE) / 1024;
    }

    method FsGetUsedSpace() returns (kb: uint32)
      ensures kb == UsedSpaceKB(freeBlocks)
      ensures freeBlocks <= MAX_BLOCKS ==> kb == 4 * (MAX_BLOCKS - freeBlocks)
    {
      kb := Mul32(Sub32(MAX_BLOCKS, freeBlocks), BLOCK_SIZE) / 1024;
    }
  }
}
