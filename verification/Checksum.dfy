/**
 The Internet checksum of RFC 1071, as calculate_checksum computes it on a little-endian machine:
 a 32-bit sum of 16-bit words, folded to 16 bits, then complemented.
 */
module Checksum {
  import opened Machine

  type Byte = x: int | 0 <= x < 0x100

  /** The longest buffer whose word sum cannot overflow 32 bits: 65537 words of at most 65535. */
  const MAX_LENGTH := 131074

  function Word(low: Byte, high: Byte): uint16 {
    low as int + 0x100 * high as int
  }

  /** The 16-bit words of a buffer; an odd last byte is the low byte of its word. */
  function Words(d: seq<Byte>): (ws: seq<uint16>)
    ensures |ws| == (|d| + 1) / 2
  {
    if |d| == 0 then [] else if |d| == 1 then [d[0]] else [Word(d[0], d[1])] + Words(d[2..])
  }

  function Sum(ws: seq<uint16>): nat {
    if ws == [] then 0 else ws[0] + Sum(ws[1..])
  }

  /** One round of the folding loop: low half plus high half. */
  function FoldOnce(sum: nat): nat {
    sum % 0x1_0000 + sum / 0x1_0000
  }

  /** The folding loop: repeats while the sum has more than 16 bits. */
  function Fold(sum: nat): uint16 {
    if sum / 0x1_0000 == 0 then sum else Fold(FoldOnce(sum))
  }

  function Complement(x: uint16): uint16 {
    0xFFFF - x
  }

  function ChecksumOf(d: seq<Byte>): uint16 {
    Complement(Fold(Sum(Words(d)) % TWO_32))
  }

  lemma AddWord(sum: nat, w: uint16)
    ensures Add32(sum % TWO_32, w) == (sum + w) % TWO_32
  {
  }

  method FoldCarries(start: uint32) returns (r: uint16)
    ensures r == Fold(start)
  {
    var sum := start;
    while sum / 0x1_0000 != 0
      invariant Fold(sum) == Fold(start)
      decreases sum
    {
      sum := sum % 0x1_0000 + sum / 0x1_0000;
    }
    return sum;
  }

  lemma SumFrom(d: seq<Byte>, at: nat)
    requires at <= |d|
    ensures Sum(Words(d[at..])) ==
            if at == |d| then 0 else if at == |d| - 1 then d[at]
            else Word(d[at], d[at + 1]) + Sum(Words(d[at + 2..]))
  {
    hide Word;
    if at == |d| - 1 {
      assert d[at..] == [d[at]];
      assert Words([d[at]])[1..] == [];
    } else if at < |d| {
      assert d[at..][2..] == d[at + 2..];
    }
  }

  /** calculate_checksum over the first `length` bytes; a negative length reads nothing. */
  method CalculateChecksum(data: seq<Byte>, length: int) returns (r: uint16)
    requires length <= |data|
    ensures r == ChecksumOf(if length < 0 then [] else data[..length])
  {
    hide Fold, Words, Sum, Word;
    ghost var d := if length < 0 then [] else data[..length];
    var sum: uint32, len, at := 0, length, 0;
    ghost var done := 0;
    assert d[0..] == d;
    while len > 1
      invariant 0 <= at <= |d| && (len == |d| - at || len == length < 0)
      invariant sum == done % TWO_32 && done + Sum(Words(d[at..])) == Sum(Words(d)) && done >= 0
      decreases len
    {
      SumFrom(d, at);
      AddWord(done, Word(data[at], data[at + 1]));
      sum := Add32(sum, Word(data[at], data[at + 1]));
      done := done + Word(data[at], data[at + 1]);
      at, len := at + 2, len - 2;
    }
    SumFrom(d, at);
    if len > 0 {
      AddWord(done, data[at]);
      sum := Add32(sum, data[at]);
      done := done + data[at];
    }
    assert done == Sum(Words(d));
    r := FoldCarries(sum);
    return Complement(r);
  }

  // ----- what folding computes

  /** Folding takes away a multiple of 65535, and gives 0 only for the sum 0. */
  lemma {:induction false} FoldSplits(sum: nat) returns (k: nat)
    ensures sum == Fold(sum) + 0xFFFF * k
    ensures Fold(sum) == 0 <==> sum == 0
  {
    k := 0;
    if sum / 0x1_0000 != 0 {
      k := FoldSplits(FoldOnce(sum));
      k := k + sum / 0x1_0000;
    }
  }

  /** A value from 1 to 65535 that differs from the sum by a multiple of 65535 is the folded sum. */
  lemma FoldUnique(sum: nat, f: uint16, m: int)
    requires sum == f + 0xFFFF * m && f != 0 && sum != 0
    ensures Fold(sum) == f
  {
    hide Fold;
    var k := FoldSplits(sum);
  }

  /** The folded sum represents the sum modulo 65535, and is 0 only for the sum 0. */
  lemma FoldIs(sum: nat)
    ensures Fold(sum) == if sum == 0 then 0 else (sum - 1) % 0xFFFF + 1
  {
    if sum != 0 {
      FoldUnique(sum, (sum - 1) % 0xFFFF + 1, (sum - 1) / 0xFFFF);
    }
  }

  /** Two rounds always suffice for a 32-bit sum. */
  lemma TwoRoundsSuffice(sum: uint32)
    ensures FoldOnce(FoldOnce(sum)) < 0x1_0000
    ensures Fold(sum) == if sum < 0x1_0000 then sum
                         else if FoldOnce(sum) < 0x1_0000 then FoldOnce(sum)
                         else FoldOnce(FoldOnce(sum))
  {
  }

  lemma {:induction false} SumBound(ws: seq<uint16>)
    ensures Sum(ws) <= 0xFFFF * |ws|
  {
    if ws != [] {
      SumBound(ws[1..]);
    }
  }

  /** Up to MAX_LENGTH bytes the 32-bit sum does not overflow, so the checksum is that of the true sum. */
  lemma NoOverflow(d: seq<Byte>)
    requires |d| <= MAX_LENGTH
    ensures Sum(Words(d)) < TWO_32
    ensures ChecksumOf(d) == Complement(Fold(Sum(Words(d))))
  {
    hide Fold, Words, Sum;
    SumBound(Words(d));
  }

  /** A buffer of n bytes, all ones. */
  function AllOnes(n: nat): (d: seq<Byte>)
    ensures |d| == n
  {
    if n == 0 then [] else if n == 1 then [0xFF] else [0xFF, 0xFF] + AllOnes(n - 2)
  }

  lemma {:induction false} AllOnesSum(n: nat)
    ensures Sum(Words(AllOnes(n))) == 0xFFFF * (n / 2) + 0xFF * (n % 2)
  {
    if n >= 2 {
      AllOnesSum(n - 2);
      assert AllOnes(n)[2..] == AllOnes(n - 2);
    }
  }

  /** Every longer length has a buffer whose sum does overflow. */
  lemma LongerOverflows(n: nat)
    requires n > MAX_LENGTH
    ensures Sum(Words(AllOnes(n))) >= TWO_32
  {
    AllOnesSum(n);
  }

  // ----- the one's complement sum of RFC 1071 section 1

  /** 16-bit one's complement addition: a carry out of the top is added back at the bottom. */
  function OnesAdd(a: uint16, b: uint16): uint16 {
    if a + b >= 0x1_0000 then a + b - 0xFFFF else a + b
  }

  function OnesSum(ws: seq<uint16>): uint16 {
    if ws == [] then 0 else OnesAdd(ws[0], OnesSum(ws[1..]))
  }

  lemma FoldAdd(w: uint16, sum: nat)
    ensures Fold(w + sum) == OnesAdd(w, Fold(sum))
  {
    hide Fold;
    var k := FoldSplits(sum);
    if w + sum == 0 {
      FoldIs(0);
    } else if w + Fold(sum) >= 0x1_0000 {
      FoldUnique(w + sum, OnesAdd(w, Fold(sum)), k + 1);
    } else {
      FoldUnique(w + sum, OnesAdd(w, Fold(sum)), k);
    }
  }

  lemma {:induction false} FoldIsOnesSum(ws: seq<uint16>)
    ensures Fold(Sum(ws)) == OnesSum(ws)
  {
    if ws != [] {
      FoldIsOnesSum(ws[1..]);
      FoldAdd(ws[0], Sum(ws[1..]));
    }
  }

  /** The checksum is the complement of the one's complement sum of the words. */
  lemma ChecksumIsOnesComplement(d: seq<Byte>)
    requires |d| <= MAX_LENGTH
    ensures ChecksumOf(d) == Complement(OnesSum(Words(d)))
  {
    NoOverflow(d);
    FoldIsOnesSum(Words(d));
  }

  /** 2^32 is 1 modulo 65535, so dropping q carries out of bit 31 loses q, which no int length makes 65535. */
  lemma CarriesShow(sum: nat)
    requires TWO_32 <= sum < 0x7FFF * TWO_32
    ensures Fold(sum % TWO_32) != Fold(sum)
  {
    hide Fold;
    var j := FoldSplits(sum % TWO_32);
    var k := FoldSplits(sum);
  }

  /** For every buffer an int length can describe, the result is the RFC 1071 checksum iff the sum did not overflow. */
  lemma ChecksumIsOnesComplementIff(d: seq<Byte>)
    requires |d| < 0x8000_0000
    ensures ChecksumOf(d) == Complement(OnesSum(Words(d))) <==> Sum(Words(d)) < TWO_32
  {
    hide Fold, Words, Sum, OnesSum;
    SumBound(Words(d));
    FoldIsOnesSum(Words(d));
    if Sum(Words(d)) >= TWO_32 {
      CarriesShow(Sum(Words(d)));
    }
  }

  // ----- self-verification

  /** The buffer with a 16-bit value stored at an offset, low byte first. */
  function Store(d: seq<Byte>, at: nat, v: uint16): seq<Byte>
    requires at + 1 < |d|
  {
    d[at := v % 0x100][at + 1 := v / 0x100]
  }

  lemma StoreBehind(d: seq<Byte>, at: nat, v: uint16)
    requires 2 <= at < |d| - 1
    ensures var e := Store(d, at, v);
            |e| == |d| && e[0] == d[0] && e[1] == d[1] && e[2..] == Store(d[2..], at - 2, v)
  {
  }

  lemma {:induction false} StoreWord(d: seq<Byte>, at: nat, v: uint16)
    requires at + 1 < |d| && at % 2 == 0
    ensures Words(Store(d, at, v)) == Words(d)[at / 2 := v]
  {
    var e := Store(d, at, v);
    if at == 0 {
      assert e[2..] == d[2..];
    } else {
      hide Store;
      StoreBehind(d, at, v);
      StoreWord(d[2..], at - 2, v);
      assert Words(e) == [Word(d[0], d[1])] + Words(d[2..])[at / 2 - 1 := v];
    }
  }

  lemma {:induction false} SumUpdate(ws: seq<uint16>, i: nat, v: uint16)
    requires i < |ws|
    ensures Sum(ws[i := v]) == Sum(ws) - ws[i] + v
  {
    if i > 0 {
      assert ws[i := v][1..] == ws[1..][i - 1 := v];
      SumUpdate(ws[1..], i - 1, v);
    } else {
      assert ws[i := v][1..] == ws[1..];
    }
  }

  lemma ZeroField(d: seq<Byte>, at: nat)
    requires at + 1 < |d| && at % 2 == 0 && d[at] == 0 && d[at + 1] == 0
    ensures Words(d)[at / 2] == 0
  {
    assert Store(d, at, 0) == d;
    StoreWord(d, at, 0);
  }

  /** Which values added to a 32-bit sum fold to all ones: the complement of the folded sum, where 0 has a double. */
  lemma FoldWithIff(r: uint32, v: uint16)
    ensures var c := Complement(Fold(r));
            Fold((r + v) % TWO_32) == 0xFFFF <==> v == c || (v == 0xFFFF && c == 0 && r != TWO_32 - 1)
  {
    hide Fold;
    var k := FoldSplits(r);
    if r + v < TWO_32 {
      var j := FoldSplits(r + v);
    } else {
      assert (r + v) % TWO_32 == r + v - TWO_32;
      var j := FoldSplits(r + v - TWO_32);
    }
  }

  lemma AddAfterWrap(sum: nat, v: uint16)
    ensures (sum + v) % TWO_32 == (sum % TWO_32 + v) % TWO_32
  {
  }

  /**
   A value in an aligned field that was zero makes the checksum of the whole buffer 0 iff it is the checksum of the
   buffer, where all ones also stands for 0 unless the sum is at its limit. This holds at any length, although
   carries are lost in long buffers.
   */
  lemma VerifiesIff(d: seq<Byte>, at: nat, v: uint16)
    requires at + 1 < |d| && at % 2 == 0 && d[at] == 0 && d[at + 1] == 0
    ensures ChecksumOf(Store(d, at, v)) == 0 <==>
            v == ChecksumOf(d) || (v == 0xFFFF && ChecksumOf(d) == 0 && Sum(Words(d)) % TWO_32 != TWO_32 - 1)
  {
    hide Fold, Words, Sum, Store;
    ZeroField(d, at);
    StoreWord(d, at, v);
    SumUpdate(Words(d), at / 2, v);
    AddAfterWrap(Sum(Words(d)), v);
    FoldWithIff(Sum(Words(d)) % TWO_32, v);
  }

  /** In particular, storing the checksum makes the checksum of the buffer 0. */
  lemma SelfVerifying(d: seq<Byte>, at: nat)
    requires at + 1 < |d| && at % 2 == 0 && d[at] == 0 && d[at + 1] == 0
    ensures ChecksumOf(Store(d, at, ChecksumOf(d))) == 0
  {
    VerifiesIff(d, at, ChecksumOf(d));
  }

  // ----- order independence, RFC 1071 section 2 (A) and (B)

  ghost function Without(ws: seq<uint16>, i: nat): seq<uint16>
    requires i < |ws|
  {
    ws[..i] + ws[i + 1..]
  }

  lemma {:induction false} SumWithout(ws: seq<uint16>, i: nat)
    requires i < |ws|
    ensures Sum(ws) == ws[i] + Sum(Without(ws, i))
  {
    if i == 0 {
      assert Without(ws, 0) == ws[1..];
    } else {
      SumWithout(ws[1..], i - 1);
      assert Without(ws, i)[1..] == Without(ws[1..], i - 1);
    }
  }

  lemma WithoutSize(ws: seq<uint16>, i: nat)
    requires i < |ws|
    ensures |Without(ws, i)| == |ws| - 1
  {
  }

  lemma MultisetWithout(ws: seq<uint16>, i: nat)
    requires i < |ws|
    ensures multiset(Without(ws, i)) == multiset(ws) - multiset{ws[i]}
  {
    assert ws == ws[..i] + [ws[i]] + ws[i + 1..];
  }

  lemma {:induction false} SumPermuted(a: seq<uint16>, b: seq<uint16>)
    requires multiset(a) == multiset(b)
    ensures Sum(a) == Sum(b)
    decreases |a|
  {
    hide Without;
    if a == [] {
      assert |multiset(b)| == 0;
    } else {
      assert a[0] in multiset(b);
      var i :| 0 <= i < |b| && b[i] == a[0];
      MultisetWithout(a, 0);
      MultisetWithout(b, i);
      WithoutSize(a, 0);
      SumPermuted(Without(a, 0), Without(b, i));
      SumWithout(a, 0);
      SumWithout(b, i);
    }
  }

  /** Permuting the words leaves the checksum unchanged. */
  lemma WordOrderIrrelevant(a: seq<Byte>, b: seq<Byte>)
    requires multiset(Words(a)) == multiset(Words(b))
    ensures ChecksumOf(a) == ChecksumOf(b)
  {
    SumPermuted(Words(a), Words(b));
  }

  lemma {:induction false} PaddedWords(d: seq<Byte>)
    requires |d| % 2 == 1
    ensures Words(d + [0]) == Words(d)
  {
    if |d| == 1 {
      assert (d + [0])[2..] == [];
    } else {
      assert (d + [0])[2..] == d[2..] + [0];
      PaddedWords(d[2..]);
    }
  }

  /** An odd last byte counts as if a zero byte followed it, as in RFC 1071 section 2. */
  lemma PaddingIrrelevant(d: seq<Byte>)
    requires |d| % 2 == 1
    ensures ChecksumOf(d + [0]) == ChecksumOf(d)
  {
    PaddedWords(d);
  }

  function SwapBytes(w: uint16): uint16 {
    w % 0x100 * 0x100 + w / 0x100
  }

  /** Every pair of bytes exchanged. */
  function SwapPairs(d: seq<Byte>): (e: seq<Byte>)
    requires |d| % 2 == 0
    ensures |e| == |d|
  {
    if d == [] then [] else [d[1], d[0]] + SwapPairs(d[2..])
  }

  /** Swapping the bytes of each word multiplies the sum by 256, modulo 65535. */
  lemma {:induction false} SumSwapped(d: seq<Byte>) returns (k: int)
    requires |d| % 2 == 0
    ensures Sum(Words(SwapPairs(d))) == 0x100 * Sum(Words(d)) - 0xFFFF * k
    ensures Sum(Words(SwapPairs(d))) == 0 <==> Sum(Words(d)) == 0
  {
    if d == [] {
      k := 0;
    } else {
      var e := SwapPairs(d);
      assert e[2..] == SwapPairs(d[2..]);
      k := SumSwapped(d[2..]);
      k := k + d[1];
    }
  }

  /** Two 16-bit values that agree modulo 65535, and agree on being 0, are the same. */
  lemma FoldSwapped(sum: nat, swapped: nat, k: int)
    requires swapped == 0x100 * sum - 0xFFFF * k && (swapped == 0 <==> sum == 0)
    ensures Fold(swapped) == SwapBytes(Fold(sum))
  {
    hide Fold;
    var q := FoldSplits(sum);
    var f: int := Fold(sum);
    var g: int := SwapBytes(f);
    if sum == 0 {
      FoldIs(0);
    } else {
      assert g == 0x100 * f - 0xFFFF * (f / 0x100);
      FoldUnique(swapped, g, 0x100 * q - k + f / 0x100);
    }
  }

  lemma SwapComplement(x: uint16)
    ensures SwapBytes(Complement(x)) == Complement(SwapBytes(x))
  {
  }

  /** Swapping the two bytes of every word swaps the bytes of the checksum. */
  lemma ByteOrderIndependent(d: seq<Byte>)
    requires |d| % 2 == 0 && |d| <= MAX_LENGTH
    ensures ChecksumOf(SwapPairs(d)) == SwapBytes(ChecksumOf(d))
  {
    hide Fold, Words, Sum, SwapPairs, SwapBytes, Complement;
    var k := SumSwapped(d);
    FoldSwapped(Sum(Words(d)), Sum(Words(SwapPairs(d))), k);
    SwapComplement(Fold(Sum(Words(d))));
    NoOverflow(d);
    NoOverflow(SwapPairs(d));
  }
}
