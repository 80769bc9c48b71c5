/**
 The physical frame allocator behind kmalloc and kfree. FrameState is the set of frames in use
 and the two counters; the class Allocator keeps a bitmap of words and is proved against it.
 */
module FrameAllocator {
  import opened Machine
  import opened FreeSlots
  import opened WordBitmap

  const PAGE_SIZE := 4096
  const NULL: uint32 := 0

  datatype FrameState = FrameState(used: set<nat>, usedFrames: uint32, totalFrames: uint32) {
    /** How many frames the bitmap has bits for: whole words only. */
    function Slots(): nat {
      32 * (totalFrames / 32)
    }

    ghost predicate WellFormed() {
      totalFrames <= 0xF_FFFF && Within(used, Slots())
    }
  }

  ghost function InitState(memSize: uint32): (s: FrameState)
    ensures s.WellFormed()
  {
    FrameState({}, 0, memSize / PAGE_SIZE)
  }

  /** The state after kmalloc and the address it returns; frame 0 has the address NULL. */
  ghost function Alloc(s: FrameState): (r: (FrameState, uint32))
    requires s.WellFormed()
    ensures r.0.WellFormed()
  {
    var frame := FirstFree(s.used, s.Slots());
    if frame == -1 then (s, NULL)
    else (s.(used := s.used + {frame}, usedFrames := Add32(s.usedFrames, 1)), frame * PAGE_SIZE)
  }

  /** An address kfree may be given without touching memory outside the bitmap. */
  predicate InBitmap(s: FrameState, ptr: uint32) {
    ptr / PAGE_SIZE < s.Slots()
  }

  ghost function Free(s: FrameState, ptr: uint32): (r: FrameState)
    requires s.WellFormed() && (ptr == NULL || InBitmap(s, ptr))
    ensures r.WellFormed()
  {
    if ptr == NULL then s
    else s.(used := s.used - {ptr / PAGE_SIZE}, usedFrames := Sub32(s.usedFrames, 1))
  }

  function UsageKB(usedFrames: uint32): uint32 {
    Mul32(usedFrames, PAGE_SIZE) / 1024
  }

  function FreeKB(totalFrames: uint32, usedFrames: uint32): uint32 {
    Mul32(Sub32(totalFrames, usedFrames), PAGE_SIZE) / 1024
  }

  class Allocator {
    var bitmap: array<bv32>
    var totalFrames: uint32
    var usedFrames: uint32

    ghost predicate Valid()
      reads this
    {
      bitmap.Length == totalFrames / 32 && totalFrames <= 0xF_FFFF
    }

    ghost function State(): (s: FrameState)
      requires Valid()
      reads this, bitmap
      ensures s.WellFormed()
    {
      FrameState(Marked(bitmap[..]), usedFrames, totalFrames)
    }

    /** memory_init, for a memory of this many bytes. */
    constructor (memSize: uint32)
      ensures Valid() && State() == InitState(memSize)
      ensures fresh(bitmap)
    {
      totalFrames, usedFrames := memSize / PAGE_SIZE, 0;
      bitmap := new bv32[memSize / PAGE_SIZE / 32];
      new;
      for i := 0 to bitmap.Length
        invariant Valid() && fresh(bitmap) && totalFrames == memSize / PAGE_SIZE && usedFrames == 0
        invariant forall k :: 0 <= k < i ==> bitmap[k] == 0
      {
        bitmap[i] := 0;
      }
      MarkedZero(bitmap[..]);
    }

    method SetFrame(frameAddr: uint32)
      requires Valid() && InBitmap(State(), frameAddr)
      modifies this`usedFrames, bitmap
      ensures Valid()
      ensures State() == old(State()).(used := old(State()).used + {frameAddr / PAGE_SIZE},
                                       usedFrames := Add32(old(usedFrames), 1))
    {
      SetSlot(bitmap, frameAddr / PAGE_SIZE);
      usedFrames := Add32(usedFrames, 1);
    }

    method ClearFrame(frameAddr: uint32)
      requires Valid() && InBitmap(State(), frameAddr)
      modifies this`usedFrames, bitmap
      ensures Valid()
      ensures State() == old(State()).(used := old(State()).used - {frameAddr / PAGE_SIZE},
                                       usedFrames := Sub32(old(usedFrames), 1))
    {
      ClearSlot(bitmap, frameAddr / PAGE_SIZE);
      usedFrames := Sub32(usedFrames, 1);
    }

    method KMalloc() returns (ptr: uint32)
      requires Valid()
      modifies this`usedFrames, bitmap
      ensures Valid() && (State(), ptr) == Alloc(old(State()))
    {
      hide Marked;
      var frame := FirstClear(bitmap);
      if frame == NO_SLOT {
        return NULL;
      }
      ptr := Mul32(frame, PAGE_SIZE);
      SetFrame(ptr);
    }

    method KFree(ptr: uint32)
      requires Valid() && (ptr == NULL || InBitmap(State(), ptr))
      modifies this`usedFrames, bitmap
      ensures Valid() && State() == Free(old(State()), ptr)
    {
      if ptr == NULL {
        return;
      }
      ClearFrame(ptr);
    }

    method GetMemoryUsage() returns (kb: uint32)
      ensures kb == UsageKB(usedFrames)
      ensures usedFrames <= 0xF_FFFF ==> kb == 4 * usedFrames
    {
      kb := Mul32(usedFrames, PAGE_SIZE) / 1024;
    }

    method GetFreeMemory() returns (kb: uint32)
      ensures kb == FreeKB(totalFrames, usedFrames)
      ensures usedFrames <= totalFrames <= 0xF_FFFF ==> kb == 4 * (totalFrames - usedFrames)
    {
      kb := Mul32(Sub32(totalFrames, usedFrames), PAGE_SIZE) / 1024;
    }
  }
}
