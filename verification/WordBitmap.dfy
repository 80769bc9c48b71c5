/**
 A bitmap packed into 32-bit words, as the set of its one bits. Slot f is bit f % 32 of word f / 32.
 */
module WordBitmap {
  import opened FreeSlots

  // ----- one word

  /** The word 1 << j. */
  function Mask(j: nat): bv32
    requires j < 32
  {
    (1 as bv32) << (j as bv6)
  }

  function Common(w: bv32, m: bv32): bv32 { w & m }

  predicate Meets(w: bv32, m: bv32) { Common(w, m) != 0 }

  function With(w: bv32, m: bv32): bv32 { w | m }

  function Without(w: bv32, m: bv32): bv32 { w & !m }

  predicate Bit(w: bv32, j: nat)
    requires j < 32
  {
    Meets(w, Mask(j))
  }

  lemma ShiftAmount(j: nat)
    requires j < 32
    ensures (j as bv6) < 32 && (j as bv6) as nat == j
  {
  }

  lemma OneHot(j: bv6, k: bv6)
    requires j < 32 && k < 32
    ensures (1 as bv32) << j != 0
    ensures j != k ==> !Meets((1 as bv32) << j, (1 as bv32) << k)
  {
  }

  lemma MasksApart(j: nat, k: nat)
    requires j < 32 && k < 32
    ensures Mask(j) != 0
    ensures j != k ==> !Meets(Mask(j), Mask(k))
  {
    hide Meets;
    ShiftAmount(j);
    ShiftAmount(k);
    OneHot(j as bv6, k as bv6);
  }

  lemma SameMask(w: bv32, m: bv32)
    requires m != 0
    ensures Meets(With(w, m), m) && !Meets(Without(w, m), m)
  {
  }

  lemma OrOther(w: bv32, m: bv32, n: bv32)
    requires m & n == 0
    ensures (w | m) & n == w & n
  {
  }

  lemma AndNotOther(w: bv32, m: bv32, n: bv32)
    requires m & n == 0
    ensures (w & !m) & n == w & n
  {
  }

  lemma OtherMask(w: bv32, m: bv32, n: bv32)
    requires Common(m, n) == 0
    ensures Common(With(w, m), n) == Common(w, n)
    ensures Common(Without(w, m), n) == Common(w, n)
  {
    OrOther(w, m, n);
    AndNotOther(w, m, n);
  }

  lemma SetBit(w: bv32, j: nat, k: nat)
    requires j < 32 && k < 32
    ensures Bit(With(w, Mask(j)), k) <==> j == k || Bit(w, k)
  {
    hide Common, With, Without, Mask;
    MasksApart(j, k);
    if j == k {
      SameMask(w, Mask(j));
    } else {
      OtherMask(w, Mask(j), Mask(k));
    }
  }

  lemma ClearBit(w: bv32, j: nat, k: nat)
    requires j < 32 && k < 32
    ensures Bit(Without(w, Mask(j)), k) <==> j != k && Bit(w, k)
  {
    hide Common, With, Without, Mask;
    MasksApart(j, k);
    if j == k {
      SameMask(w, Mask(j));
    } else {
      OtherMask(w, Mask(j), Mask(k));
    }
  }

  // ----- the bitmap

  ghost function Marked(bm: seq<bv32>): (s: set<nat>)
    ensures Within(s, 32 * |bm|)
  {
    set f: nat | f < 32 * |bm| && Bit(bm[f / 32], f % 32)
  }

  lemma MarkedSlot(bm: seq<bv32>, i: nat, j: nat)
    requires i < |bm| && j < 32
    ensures 32 * i + j in Marked(bm) <==> Bit(bm[i], j)
  {
  }

  lemma MarkedSet(bm: seq<bv32>, i: nat, j: nat)
    requires i < |bm| && j < 32
    ensures Marked(bm[i := With(bm[i], Mask(j))]) == Marked(bm) + {32 * i + j}
  {
    hide Bit, Mask, With;
    var after := bm[i := With(bm[i], Mask(j))];
    forall f: nat | f < 32 * |bm|
      ensures f in Marked(after) <==> f in Marked(bm) || f == 32 * i + j
    {
      SetBit(bm[i], j, f % 32);
    }
  }

  lemma MarkedClear(bm: seq<bv32>, i: nat, j: nat)
    requires i < |bm| && j < 32
    ensures Marked(bm[i := Without(bm[i], Mask(j))]) == Marked(bm) - {32 * i + j}
  {
    hide Bit, Mask, Without;
    var after := bm[i := Without(bm[i], Mask(j))];
    forall f: nat | f < 32 * |bm|
      ensures f in Marked(after) <==> f in Marked(bm) && f != 32 * i + j
    {
      ClearBit(bm[i], j, f % 32);
    }
  }

  lemma MarkedZero(bm: seq<bv32>)
    requires forall i :: 0 <= i < |bm| ==> bm[i] == 0
    ensures Marked(bm) == {}
  {
  }

  lemma FullMarked(bm: seq<bv32>, i: nat)
    requires i < |bm| && bm[i] == 0xFFFF_FFFF
    ensures forall f: nat :: 32 * i <= f < 32 * i + 32 ==> f in Marked(bm)
  {
  }

  const NO_SLOT := 0xFFFF_FFFF

  /** The two-level scan: whole words that are full are skipped. */
  method FirstClear(bm: array<bv32>) returns (slot: nat)
    requires 32 * bm.Length < NO_SLOT
    ensures slot == (if FirstFree(Marked(bm[..]), 32 * bm.Length) == -1 then NO_SLOT
                     else FirstFree(Marked(bm[..]), 32 * bm.Length))
  {
    hide Bit, Mask;
    ghost var words := bm[..];
    for i := 0 to bm.Length
      invariant AllUsed(Marked(words), 32 * i)
    {
      if bm[i] != 0xFFFF_FFFF {
        for j := 0 to 32
          invariant AllUsed(Marked(words), 32 * i + j)
        {
          MarkedSlot(words, i, j);
          if !Bit(bm[i], j) {
            FirstFreeUnique(Marked(words), 32 * bm.Length, 32 * i + j);
            return 32 * i + j;
          }
        }
      } else {
        FullMarked(words, i);
      }
    }
    return NO_SLOT;
  }

  method SetSlot(bm: array<bv32>, slot: nat)
    requires slot / 32 < bm.Length
    modifies bm
    ensures Marked(bm[..]) == Marked(old(bm[..])) + {slot}
  {
    hide Bit, Mask, With;
    var i, j := slot / 32, slot % 32;
    MarkedSet(bm[..], i, j);
    bm[i] := With(bm[i], Mask(j));
    assert bm[..] == old(bm[..])[i := With(old(bm[..])[i], Mask(j))];
  }

  method ClearSlot(bm: array<bv32>, slot: nat)
    requires slot / 32 < bm.Length
    modifies bm
    ensures Marked(bm[..]) == Marked(old(bm[..])) - {slot}
  {
    hide Bit, Mask, Without;
    var i, j := slot / 32, slot % 32;
    MarkedClear(bm[..], i, j);
    bm[i] := Without(bm[i], Mask(j));
    assert bm[..] == old(bm[..])[i := Without(old(bm[..])[i], Mask(j))];
  }
}
