/**
 How a 32-bit hash is kept in eight chars and put together again. The chars take 8 bits each at
 steps of 4 bits, so they overlap; where char is signed, widening one fills the bits above it.
 */
module HashStorage {

  /** x >> (i * 4), for the shift amounts the loops use. */
  function ShiftRight(x: bv32, i: nat): bv32
    requires i < 8
  {
    match i
    case 0 => x
    case 1 => x >> 4
    case 2 => x >> 8
    case 3 => x >> 12
    case 4 => x >> 16
    case 5 => x >> 20
    case 6 => x >> 24
    case _ => x >> 28
  }

  /** x << (i * 4), for the shift amounts the loops use. */
  function ShiftLeft(x: bv32, i: nat): bv32
    requires i < 8
  {
    match i
    case 0 => x
    case 1 => x << 4
    case 2 => x << 8
    case 3 => x << 12
    case 4 => x << 16
    case 5 => x << 20
    case 6 => x << 24
    case _ => x << 28
  }

  function LowByte(x: bv32): bv8 {
    (x & 0xFF) as bv8
  }

  /** The 8 bits of the hash from bit 4 * i on. */
  function Chunk(hash: bv32, i: nat): bv8
    requires i < 8
  {
    LowByte(ShiftRight(hash, i))
  }

  function Chunks(hash: bv32): seq<bv8> {
    seq(8, i requires 0 <= i < 8 => Chunk(hash, i))
  }

  /** A char as it widens to 32 bits. */
  function Widen(c: bv8, signed: bool): bv32 {
    if signed && c >= 0x80 then 0xFFFF_FF00 | (c as bv32) else c as bv32
  }

  function RestoreStep(stored: bv32, chunk: bv8, i: nat, signed: bool): bv32
    requires i < 8
  {
    stored | ShiftLeft(Widen(chunk, signed), i)
  }

  /** The first n chunks put together again. */
  function Restore(chunks: seq<bv8>, n: nat, signed: bool): bv32
    requires n <= 8 && n <= |chunks|
  {
    if n == 0 then 0 else RestoreStep(Restore(chunks, n - 1, signed), chunks[n - 1], n - 1, signed)
  }

  // ----- what each chunk contributes

  function WidenLow(x: bv32, signed: bool): bv32 {
    if signed && x & 0x80 != 0 then 0xFFFF_FF00 | (x & 0xFF) else x & 0xFF
  }

  lemma WidenLowByte(x: bv32, signed: bool)
    ensures Widen(LowByte(x), signed) == WidenLow(x, signed)
  {
  }

  /** Chunk i widened and moved back to its place. */
  function Part(hash: bv32, i: nat, signed: bool): bv32
    requires i < 8
  {
    ShiftLeft(WidenLow(ShiftRight(hash, i), signed), i)
  }

  lemma StepIsPart(hash: bv32, stored: bv32, i: nat, signed: bool)
    requires i < 8
    ensures RestoreStep(stored, Chunk(hash, i), i, signed) == stored | Part(hash, i, signed)
  {
    hide ShiftLeft, ShiftRight, Widen, WidenLow, LowByte;
    WidenLowByte(ShiftRight(hash, i), signed);
  }

  lemma Part0(hash: bv32, signed: bool)
    ensures Part(hash, 0, signed) ==
            if signed && hash & 0x80 != 0 then 0xFFFF_FF00 | (hash & 0xFF) else hash & 0xFF
  {
  }

  lemma Part1(hash: bv32, signed: bool)
    ensures Part(hash, 1, signed) ==
            if signed && hash & 0x800 != 0 then (0xFFFF_FF00 | ((hash >> 4) & 0xFF)) << 4 else ((hash >> 4) & 0xFF) << 4
  {
  }

  lemma Part2(hash: bv32, signed: bool)
    ensures Part(hash, 2, signed) ==
            if signed && hash & 0x8000 != 0 then (0xFFFF_FF00 | ((hash >> 8) & 0xFF)) << 8
            else ((hash >> 8) & 0xFF) << 8
  {
  }

  lemma Part3(hash: bv32, signed: bool)
    ensures Part(hash, 3, signed) ==
            if signed && hash & 0x8_0000 != 0 then (0xFFFF_FF00 | ((hash >> 12) & 0xFF)) << 12
            else ((hash >> 12) & 0xFF) << 12
  {
  }

  lemma Part4(hash: bv32, signed: bool)
    ensures Part(hash, 4, signed) ==
            if signed && hash & 0x80_0000 != 0 then (0xFFFF_FF00 | ((hash >> 16) & 0xFF)) << 16
            else ((hash >> 16) & 0xFF) << 16
  {
  }

  lemma Part5(hash: bv32, signed: bool)
    ensures Part(hash, 5, signed) ==
            if signed && hash & 0x800_0000 != 0 then (0xFFFF_FF00 | ((hash >> 20) & 0xFF)) << 20
            else ((hash >> 20) & 0xFF) << 20
  {
  }

  lemma Part6(hash: bv32, signed: bool)
    ensures Part(hash, 6, signed) ==
            if signed && hash & 0x8000_0000 != 0 then (0xFFFF_FF00 | ((hash >> 24) & 0xFF)) << 24
            else ((hash >> 24) & 0xFF) << 24
  {
  }

  lemma Part7(hash: bv32, signed: bool)
    ensures Part(hash, 7, signed) ==
            ((hash >> 28) & 0xFF) << 28
  {
  }

  function Union(p0: bv32, p1: bv32, p2: bv32, p3: bv32, p4: bv32, p5: bv32, p6: bv32, p7: bv32): bv32 {
    0 | p0 | p1 | p2 | p3 | p4 | p5 | p6 | p7
  }

  /** The first four chunks, then all eight. */
  lemma RestoreHalf(hash: bv32, s: bool)
    ensures Restore(Chunks(hash), 4, s) ==
            0 | Part(hash, 0, s) | Part(hash, 1, s) | Part(hash, 2, s) | Part(hash, 3, s)
  {
    hide RestoreStep, Chunk, Part;
    var c := Chunks(hash);
    assert Restore(c, 0, s) == 0;
    StepIsPart(hash, Restore(c, 0, s), 0, s);
    StepIsPart(hash, Restore(c, 1, s), 1, s);
    StepIsPart(hash, Restore(c, 2, s), 2, s);
    StepIsPart(hash, Restore(c, 3, s), 3, s);
  }

  lemma RestoreIsUnion(hash: bv32, s: bool)
    ensures Restore(Chunks(hash), 8, s) ==
            Union(Part(hash, 0, s), Part(hash, 1, s), Part(hash, 2, s), Part(hash, 3, s),
                  Part(hash, 4, s), Part(hash, 5, s), Part(hash, 6, s), Part(hash, 7, s))
  {
    hide RestoreStep, Chunk, Part;
    var c := Chunks(hash);
    RestoreHalf(hash, s);
    StepIsPart(hash, Restore(c, 4, s), 4, s);
    StepIsPart(hash, Restore(c, 5, s), 5, s);
    StepIsPart(hash, Restore(c, 6, s), 6, s);
    StepIsPart(hash, Restore(c, 7, s), 7, s);
  }

  // ----- the exact condition

  /** Each set bit 4j + 7 of the hash has all higher bits set, for j = 0..5; above bit 31 there are none. */
  predicate SignSafe(hash: bv32) {
    && (hash & 0x80 != 0 ==> hash >> 8 == 0xFF_FFFF)
    && (hash & 0x800 != 0 ==> hash >> 12 == 0xF_FFFF)
    && (hash & 0x8000 != 0 ==> hash >> 16 == 0xFFFF)
    && (hash & 0x8_0000 != 0 ==> hash >> 20 == 0xFFF)
    && (hash & 0x80_0000 != 0 ==> hash >> 24 == 0xFF)
    && (hash & 0x800_0000 != 0 ==> hash >> 28 == 0xF)
  }

  lemma UnsignedUnion(hash: bv32)
    ensures 0 | (hash & 0xFF) | (((hash >> 4) & 0xFF) << 4) | (((hash >> 8) & 0xFF) << 8) |
            (((hash >> 12) & 0xFF) << 12) |
            (((hash >> 16) & 0xFF) << 16) | (((hash >> 20) & 0xFF) << 20) |
            (((hash >> 24) & 0xFF) << 24) | (((hash >> 28) & 0xFF) << 28) == hash
  {
  }

  /** On raw bits: what the parts of a signed hash are. */
  predicate ArePieces(hash: bv32, p0: bv32, p1: bv32, p2: bv32, p3: bv32, p4: bv32, p5: bv32, p6: bv32, p7: bv32) {
    && p0 == (if hash & 0x80 != 0 then 0xFFFF_FF00 | (hash & 0xFF) else hash & 0xFF)
    && p1 == (if hash & 0x800 != 0 then (0xFFFF_FF00 | ((hash >> 4) & 0xFF)) << 4 else ((hash >> 4) & 0xFF) << 4)
    && p2 == (if hash & 0x8000 != 0 then (0xFFFF_FF00 | ((hash >> 8) & 0xFF)) << 8 else ((hash >> 8) & 0xFF) << 8)
    && p3 == (if hash & 0x8_0000 != 0 then (0xFFFF_FF00 | ((hash >> 12) & 0xFF)) << 12 else ((hash >> 12) & 0xFF) << 12)
    && p4 == (if hash & 0x80_0000 != 0 then (0xFFFF_FF00 | ((hash >> 16) & 0xFF)) << 16
              else ((hash >> 16) & 0xFF) << 16)
    && p5 == (if hash & 0x800_0000 != 0 then (0xFFFF_FF00 | ((hash >> 20) & 0xFF)) << 20
              else ((hash >> 20) & 0xFF) << 20)
    && p6 == (if hash & 0x8000_0000 != 0 then (0xFFFF_FF00 | ((hash >> 24) & 0xFF)) << 24
              else ((hash >> 24) & 0xFF) << 24)
    && p7 == (((hash >> 28) & 0xFF) << 28)
  }

  lemma PartsArePieces(hash: bv32)
    ensures ArePieces(hash, Part(hash, 0, true), Part(hash, 1, true), Part(hash, 2, true), Part(hash, 3, true),
                      Part(hash, 4, true), Part(hash, 5, true), Part(hash, 6, true), Part(hash, 7, true))
  {
    hide Part;
    Part0(hash, true);
    Part1(hash, true);
    Part2(hash, true);
    Part3(hash, true);
    Part4(hash, true);
    Part5(hash, true);
    Part6(hash, true);
    Part7(hash, true);
  }

  lemma PiecesRestore(hash: bv32, p0: bv32, p1: bv32, p2: bv32, p3: bv32, p4: bv32, p5: bv32, p6: bv32, p7: bv32)
    requires ArePieces(hash, p0, p1, p2, p3, p4, p5, p6, p7)
    ensures Union(p0, p1, p2, p3, p4, p5, p6, p7) == hash <==> SignSafe(hash)
  {
  }

  /** With unsigned chars every hash survives storage. */
  lemma UnsignedRoundTrip(hash: bv32)
    ensures Restore(Chunks(hash), 8, false) == hash
  {
    hide Restore, Chunks, Part;
    RestoreIsUnion(hash, false);
    Part0(hash, false);
    Part1(hash, false);
    Part2(hash, false);
    Part3(hash, false);
    Part4(hash, false);
    Part5(hash, false);
    Part6(hash, false);
    Part7(hash, false);
    UnsignedUnion(hash);
  }

  /** With signed chars exactly the sign-safe hashes do. */
  lemma SignedRoundTripIff(hash: bv32)
    ensures Restore(Chunks(hash), 8, true) == hash <==> SignSafe(hash)
  {
    hide *;
    RestoreIsUnion(hash, true);
    PartsArePieces(hash);
    PiecesRestore(hash, Part(hash, 0, true), Part(hash, 1, true), Part(hash, 2, true), Part(hash, 3, true),
                  Part(hash, 4, true), Part(hash, 5, true), Part(hash, 6, true), Part(hash, 7, true));
  }
}
