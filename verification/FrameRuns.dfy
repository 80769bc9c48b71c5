/**
 Runs of kmalloc and kfree in which kfree is only given NULL, outstanding addresses, or addresses inside frame 0
 while that frame is taken.
 */
module FrameRuns {
  import opened Machine
  import opened FreeSlots
  import opened FrameAllocator

  datatype Op = AllocOp | FreeOp(ptr: uint32)

  /** The allocator, and the addresses handed out and not yet freed. */
  datatype World = World(s: FrameState, out: set<nat>)

  ghost function Frame(address: nat): nat { address / PAGE_SIZE }

  ghost function Address(frame: nat): nat { frame * PAGE_SIZE }

  ghost predicate PageAligned(address: nat) { Address(Frame(address)) == address }

  /** Outstanding addresses are addresses of frames in use, and all frames in use but frame 0 are outstanding. */
  ghost predicate Accounted(w: World) {
    && (forall a | a in w.out :: a != NULL && PageAligned(a) && Frame(a) in w.s.used)
    && (forall f | f in w.s.used && f != 0 :: Address(f) in w.out)
  }

  ghost predicate Inv(w: World) {
    w.s.WellFormed() && w.s.usedFrames == |w.s.used| && Accounted(w)
  }

  ghost function InitWorld(memSize: uint32): (w: World)
    ensures Inv(w)
  {
    World(InitState(memSize), {})
  }

  /** An address that kfree takes for one inside frame 0; kmalloc returns none of these. */
  predicate InFrameZero(ptr: uint32) { NULL < ptr < PAGE_SIZE }

  ghost predicate Freeable(w: World, ptr: uint32) {
    ptr == NULL || ptr in w.out || (InFrameZero(ptr) && 0 in w.s.used)
  }

  ghost predicate Allowed(w: World, op: Op) {
    op.FreeOp? ==> Freeable(w, op.ptr)
  }

  lemma FrameOfAddress(frame: nat)
    ensures Frame(Address(frame)) == frame && PageAligned(Address(frame))
  {
  }

  lemma AllocCounter(s: FrameState)
    requires s.WellFormed() && s.usedFrames == |s.used|
    ensures Alloc(s).0.usedFrames == |Alloc(s).0.used|
  {
    ExhaustedIff(s.used, s.Slots());
  }

  lemma AllocKeeps(w: World)
    requires Inv(w)
    ensures var (t, ptr) := Alloc(w.s);
            Inv(World(t, if ptr == NULL then w.out else w.out + {ptr as nat}))
  {
    AllocCounter(w.s);
    var frame := FirstFree(w.s.used, w.s.Slots());
    if frame != -1 {
      FrameOfAddress(frame);
    }
  }

  lemma FreeKeeps(w: World, ptr: uint32)
    requires Inv(w) && Freeable(w, ptr)
    ensures ptr == NULL || InBitmap(w.s, ptr)
    ensures Inv(World(Free(w.s, ptr), w.out - {ptr}))
  {
  }

  /** The discipline is exactly what the invariant needs: kfree keeps it iff the address is one of these. */
  lemma FreeInvIff(w: World, ptr: uint32)
    requires Inv(w) && (ptr == NULL || InBitmap(w.s, ptr))
    ensures Inv(World(Free(w.s, ptr), w.out - {ptr})) <==> Freeable(w, ptr)
  {
    if Freeable(w, ptr) {
      FreeKeeps(w, ptr);
    } else if Frame(ptr) in w.s.used {
      FrameOfAddress(Frame(ptr));
    }
  }

  ghost function Step(w: World, op: Op): (w': World)
    requires Inv(w) && Allowed(w, op)
    ensures Inv(w') && w'.s.totalFrames == w.s.totalFrames
  {
    match op
    case AllocOp =>
      var (t, ptr) := Alloc(w.s);
      AllocKeeps(w);
      World(t, if ptr == NULL then w.out else w.out + {ptr})
    case FreeOp(ptr) =>
      FreeKeeps(w, ptr);
      World(Free(w.s, ptr), w.out - {ptr})
  }

  /**
   kmalloc takes the least free frame, and a non-NULL result is a new page address inside the bitmap.
   It returns NULL iff no frame is left or frame 0 was still free.
   */
  lemma AllocResult(w: World)
    requires Inv(w)
    ensures var (t, ptr) := Alloc(w.s);
            if w.s.usedFrames == w.s.Slots() then ptr == NULL && t == w.s
            else
              && IsFirstFree(w.s.used, w.s.Slots(), Frame(ptr)) && PageAligned(ptr)
              && t.used == w.s.used + {Frame(ptr)} && t.usedFrames == w.s.usedFrames + 1
              && ptr !in w.out && ptr < Address(w.s.Slots())
              && (ptr == NULL <==> 0 !in w.s.used)
  {
    ExhaustedIff(w.s.used, w.s.Slots());
    var frame := FirstFree(w.s.used, w.s.Slots());
    if frame != -1 {
      FrameOfAddress(frame);
    }
  }

  // ----- whole runs

  ghost predicate Disciplined(w: World, ops: seq<Op>)
    requires Inv(w)
    decreases |ops|
  {
    ops == [] || (Allowed(w, ops[0]) && Disciplined(Step(w, ops[0]), ops[1..]))
  }

  ghost function Run(w: World, ops: seq<Op>): (w': World)
    requires Inv(w) && Disciplined(w, ops)
    ensures Inv(w') && w'.s.totalFrames == w.s.totalFrames
    decreases |ops|
  {
    if ops == [] then w else Run(Step(w, ops[0]), ops[1..])
  }

  lemma InvFacts(w: World)
    requires Inv(w)
    ensures w.s.WellFormed() && w.s.usedFrames == |w.s.used|
  {
  }

  lemma ReportKB(totalFrames: uint32, usedFrames: uint32)
    requires usedFrames <= totalFrames <= 0xF_FFFF
    ensures UsageKB(usedFrames) == 4 * usedFrames
    ensures FreeKB(totalFrames, usedFrames) == 4 * (totalFrames - usedFrames)
  {
  }

  lemma Reports(s: FrameState)
    requires s.WellFormed() && s.usedFrames == |s.used|
    ensures FirstFree(s.used, s.Slots()) == -1 <==> FreeKB(s.totalFrames, s.usedFrames) == 4 * (s.totalFrames % 32)
    ensures UsageKB(s.usedFrames) == 4 * |s.used|
    ensures FreeKB(s.totalFrames, s.usedFrames) == 4 * (s.totalFrames - |s.used|)
  {
    hide UsageKB, FreeKB;
    ExhaustedIff(s.used, s.Slots());
    assert |s.used| <= s.totalFrames;
    ReportKB(s.totalFrames, s.usedFrames);
  }

  /**
   At the end of every disciplined run the bitmap is full iff the free memory reported is the share of the
   frames beyond the last whole word, and the two figures add up to the memory; nothing overflows.
   */
  lemma ExhaustedReport(memSize: uint32, ops: seq<Op>)
    requires Disciplined(InitWorld(memSize), ops)
    ensures var s := Run(InitWorld(memSize), ops).s;
            var total := memSize / PAGE_SIZE;
            && (FirstFree(s.used, s.Slots()) == -1 <==> FreeKB(s.totalFrames, s.usedFrames) == 4 * (total % 32))
            && UsageKB(s.usedFrames) + FreeKB(s.totalFrames, s.usedFrames) == 4 * total
            && UsageKB(s.usedFrames) == 4 * |s.used|
  {
    hide Inv;
    var w := Run(InitWorld(memSize), ops);
    assert w.s.WellFormed() && w.s.usedFrames == |w.s.used| by {
      InvFacts(w);
    }
    Reports(w.s);
  }

  lemma {:induction false} AddressesOf(out: set<nat>, frames: set<nat>)
    requires forall a | a in out :: PageAligned(a) && Frame(a) in frames
    requires forall f | f in frames :: Address(f) in out
    ensures |out| == |frames|
  {
    if f :| f in frames {
      FrameOfAddress(f);
      forall a | a in out - {Address(f)}
        ensures Frame(a) in frames - {f}
      {
        assert PageAligned(a);
      }
      forall g | g in frames - {f}
        ensures Address(g) in out - {Address(f)}
      {
        FrameOfAddress(g);
      }
      AddressesOf(out - {Address(f)}, frames - {f});
    }
  }

  /** Distinct outstanding addresses are distinct frames, so the counter tells how many there are, up to frame 0. */
  lemma OutstandingCount(w: World)
    requires Inv(w)
    ensures |w.out| == w.s.usedFrames - (if 0 in w.s.used then 1 else 0)
  {
    AddressesOf(w.out, w.s.used - {0});
  }

  /** The first kmalloc after memory_init takes frame 0, whose address is NULL: the frame is lost to its callers. */
  lemma FirstAllocationIsNull(memSize: uint32)
    requires InitState(memSize).Slots() > 0
    ensures Alloc(InitState(memSize)) == (FrameState({0}, 1, memSize / PAGE_SIZE), NULL)
  {
    FirstFreeUnique({}, InitState(memSize).Slots(), 0);
    assert {} + {0} == {0};
  }

  /** Frame 0 is taken before the run and after each of its steps. */
  ghost predicate ZeroStaysTaken(w: World, ops: seq<Op>)
    requires Inv(w) && Disciplined(w, ops)
    decreases |ops|
  {
    0 in w.s.used && (ops == [] || ZeroStaysTaken(Step(w, ops[0]), ops[1..]))
  }

  lemma ZeroStep(w: World, op: Op)
    requires Inv(w) && Allowed(w, op) && 0 in w.s.used
    ensures 0 in Step(w, op).s.used <==> !(op.FreeOp? && InFrameZero(op.ptr))
  {
    if op.FreeOp? && op.ptr in w.out {
      assert PageAligned(op.ptr);
    }
  }

  lemma ZeroBound(w: World)
    requires Inv(w) && 0 in w.s.used
    ensures |w.out| < w.s.Slots()
  {
    OutstandingCount(w);
    ExhaustedIff(w.s.used, w.s.Slots());
  }

  /**
   Frame 0, once taken, stays taken iff kfree is never given an address from 1 to 4095. While it does, at most
   one frame fewer than the bitmap covers is outstanding.
   */
  lemma {:induction false} FrameZeroIsLost(w: World, ops: seq<Op>)
    requires Inv(w) && Disciplined(w, ops) && 0 in w.s.used
    ensures ZeroStaysTaken(w, ops) <==> forall i :: 0 <= i < |ops| ==> !(ops[i].FreeOp? && InFrameZero(ops[i].ptr))
    ensures ZeroStaysTaken(w, ops) ==> 0 in Run(w, ops).s.used && |Run(w, ops).out| < w.s.Slots()
    decreases |ops|
  {
    hide Step, Inv, Allowed;
    if ops == [] {
      ZeroBound(w);
    } else {
      ZeroStep(w, ops[0]);
      assert forall i :: 0 <= i < |ops| - 1 ==> ops[1..][i] == ops[i + 1];
      if 0 in Step(w, ops[0]).s.used {
        FrameZeroIsLost(Step(w, ops[0]), ops[1..]);
      }
    }
  }

  /** kfree does not check that the frame is in use: the counter stays right iff it was. */
  lemma FreeCounterIff(s: FrameState, ptr: uint32)
    requires s.WellFormed() && s.usedFrames == |s.used| && (ptr == NULL || InBitmap(s, ptr))
    ensures Free(s, ptr).usedFrames == |Free(s, ptr).used| <==> ptr == NULL || Frame(ptr) in s.used
  {
  }
}
