/**
 A bitmap packed into bytes, as the set of its one bits. Slot b is bit b % 8 of byte b / 8.
 */
module ByteBitmap {
  import opened FreeSlots

  function Mask(j: nat): bv8
    requires j < 8
  {
    1 << j
  }

  function With(w: bv8, m: bv8): bv8 { w | m }

  function Without(w: bv8, m: bv8): bv8 { w & !m }

  predicate Bit(w: bv8, j: nat)
    requires j < 8
  {
    w & Mask(j) != 0
  }

  lemma SetBit(w: bv8, j: nat, k: nat)
    requires j < 8 && k < 8
    ensures Bit(With(w, Mask(j)), k) <==> j == k || Bit(w, k)
  {
  }

  lemma ClearBit(w: bv8, j: nat, k: nat)
    requires j < 8 && k < 8
    ensures Bit(Without(w, Mask(j)), k) <==> j != k && Bit(w, k)
  {
  }

  /** The slots whose bit is one. */
  ghost function Marked(bm: seq<bv8>): (s: set<nat>)
    ensures Within(s, 8 * |bm|)
  {
    set b: nat | b < 8 * |bm| && Bit(bm[b / 8], b % 8)
  }

  lemma MarkedSlot(bm: seq<bv8>, i: nat, j: nat)
    requires i < |bm| && j < 8
    ensures 8 * i + j in Marked(bm) <==> Bit(bm[i], j)
  {
  }

  lemma MarkedSet(bm: seq<bv8>, i: nat, j: nat)
    requires i < |bm| && j < 8
    ensures Marked(bm[i := With(bm[i], Mask(j))]) == Marked(bm) + {8 * i + j}
  {
    hide Bit, Mask, With, Without;
    var after := bm[i := With(bm[i], Mask(j))];
    forall b: nat | b < 8 * |bm|
      ensures b in Marked(after) <==> b in Marked(bm) || b == 8 * i + j
    {
      SetBit(bm[i], j, b % 8);
    }
  }

  lemma MarkedClear(bm: seq<bv8>, i: nat, j: nat)
    requires i < |bm| && j < 8
    ensures Marked(bm[i := Without(bm[i], Mask(j))]) == Marked(bm) - {8 * i + j}
  {
    hide Bit, Mask, With, Without;
    var after := bm[i := Without(bm[i], Mask(j))];
    forall b: nat | b < 8 * |bm|
      ensures b in Marked(after) <==> b in Marked(bm) && b != 8 * i + j
    {
      ClearBit(bm[i], j, b % 8);
    }
  }

  lemma MarkedZero(bm: seq<bv8>)
    requires forall i :: 0 <= i < |bm| ==> bm[i] == 0
    ensures Marked(bm) == {}
  {
  }

  lemma FullMarked(bm: seq<bv8>, i: nat)
    requires i < |bm| && bm[i] == 0xFF
    ensures forall k: nat :: 8 * i <= k < 8 * i + 8 ==> k in Marked(bm)
  {
  }

  /** The two-level scan: whole bytes that are full are skipped, the first clear bit is set. */
  method TakeFirstClear(bm: array<bv8>) returns (slot: int)
    modifies bm
    ensures slot == FirstFree(Marked(old(bm[..])), 8 * bm.Length)
    ensures slot == -1 ==> bm[..] == old(bm[..])
    ensures slot != -1 ==> Marked(bm[..]) == Marked(old(bm[..])) + {slot}
  {
    hide Bit, Mask, With, Without;
    ghost var before := bm[..];
    for i := 0 to bm.Length
      invariant bm[..] == before
      invariant AllUsed(Marked(before), 8 * i)
    {
      if bm[i] != 0xFF {
        for j := 0 to 8
          invariant bm[..] == before
          invariant AllUsed(Marked(before), 8 * i + j)
        {
          MarkedSlot(before, i, j);
          if !Bit(bm[i], j) {
            MarkedSet(before, i, j);
            FirstFreeUnique(Marked(before), 8 * bm.Length, 8 * i + j);
            bm[i] := With(bm[i], Mask(j));
            assert bm[..] == before[i := With(before[i], Mask(j))];
            return 8 * i + j;
          }
        }
      } else {
        FullMarked(before, i);
      }
    }
    return -1;
  }

  /** Clears the bit of one slot. */
  method ClearSlot(bm: array<bv8>, slot: nat)
    requires slot < 8 * bm.Length
    modifies bm
    ensures Marked(bm[..]) == Marked(old(bm[..])) - {slot}
  {
    hide Bit, Mask, With, Without;
    var i, j := slot / 8, slot % 8;
    MarkedClear(bm[..], i, j);
    bm[i] := Without(bm[i], Mask(j));
    assert bm[..] == old(bm[..])[i := Without(old(bm[..])[i], Mask(j))];
  }
}
