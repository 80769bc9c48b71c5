/**
 What simple_hash computes: a polynomial in 33 modulo 2^32, in which every character counts.
 */
module PasswordHash {
  import opened CStrings
  import opened HashStorage
  import opened Accounts

  // ----- arithmetic modulo 2^32, one operation at a time

  function Plus(x: bv32, y: bv32): bv32 { x + y }

  function Times(x: bv32, y: bv32): bv32 { x * y }

  function By33(x: bv32): bv32 { 33 * x }

  function Minus(x: bv32, y: bv32): bv32 { x - y }

  /** Times the inverse of 33, which has one because it is odd. */
  function Undo33(x: bv32): bv32 { 0x3E0F_83E1 * x }

  lemma Undo33Is(h: bv32)
    ensures Undo33(By33(h)) == h
  {
    assert Undo33(By33(h)) == Undo33(33 * h);
  }

  lemma MinusIs(h: bv32, v: bv32)
    ensures Minus(Plus(h, v), v) == h && Minus(Plus(h, v), h) == v
  {
    assert Minus(Plus(h, v), v) == Minus(h + v, v);
    assert Minus(Plus(h, v), h) == Minus(h + v, h);
  }

  lemma PlusLeft(x: bv32, y: bv32, z: bv32)
    ensures Plus(Plus(x, y), z) == x + y + z
  {
    assert Plus(x, y) == x + y;
    assert Plus(x + y, z) == x + y + z;
  }

  lemma PlusRight(x: bv32, y: bv32, z: bv32)
    ensures Plus(x, Plus(y, z)) == x + y + z
  {
    assert Plus(y, z) == y + z;
    assert Plus(x, y + z) == x + y + z;
  }

  lemma PlusAssociative(x: bv32, y: bv32, z: bv32)
    ensures Plus(Plus(x, y), z) == Plus(x, Plus(y, z))
  {
    hide *;
    PlusLeft(x, y, z);
    PlusRight(x, y, z);
  }

  lemma By33Sum(x: bv32, y: bv32)
    ensures By33(Plus(x, y)) == 33 * (x + y)
  {
    assert Plus(x, y) == x + y;
    assert By33(x + y) == 33 * (x + y);
  }

  lemma SumBy33(x: bv32, y: bv32)
    ensures Plus(By33(x), By33(y)) == 33 * x + 33 * y
  {
    assert By33(x) == 33 * x;
    assert By33(y) == 33 * y;
    assert Plus(33 * x, 33 * y) == 33 * x + 33 * y;
  }

  lemma Distributive(x: bv32, y: bv32)
    ensures By33(Plus(x, y)) == Plus(By33(x), By33(y))
  {
    hide *;
    By33Sum(x, y);
    SumBy33(x, y);
  }

  lemma By33Product(x: bv32, y: bv32)
    ensures By33(Times(x, y)) == 33 * (x * y)
  {
    assert Times(x, y) == x * y;
    assert By33(x * y) == 33 * (x * y);
  }

  lemma TimesScaled(x: bv32, y: bv32)
    ensures Times(x, 33 * y) == 33 * (x * y)
  {
  }

  lemma ProductBy33(x: bv32, y: bv32)
    ensures Times(x, By33(y)) == 33 * (x * y)
  {
    hide Times;
    assert By33(y) == 33 * y;
    TimesScaled(x, y);
  }

  lemma Commutative(x: bv32, y: bv32)
    ensures Times(x, By33(y)) == By33(Times(x, y))
  {
    hide *;
    By33Product(x, y);
    ProductBy33(x, y);
  }

  /** 33 * (x * p + w) + v == x * (33 * p) + (33 * w + v) */
  lemma Distribute(x: bv32, p: bv32, w: bv32, v: bv32)
    ensures Plus(By33(Plus(Times(x, p), w)), v) == Plus(Times(x, By33(p)), Plus(By33(w), v))
  {
    hide *;
    Distributive(Times(x, p), w);
    Commutative(x, p);
    PlusAssociative(By33(Times(x, p)), By33(w), v);
  }

  lemma Neutral(v: bv32)
    ensures Plus(By33(0), v) == v && Plus(Times(v, 1), 0) == v
  {
  }

  // ----- the polynomial

  /** The value of a char: with signed chars, those from 0x80 on are negative. */
  function CharValue(c: CChar, signed: bool): bv32 {
    if signed && c >= 0x80 then (c as bv32) - 0x100 else c as bv32
  }

  lemma CharValueInjective(c: CChar, d: CChar, signed: bool)
    requires c != d
    ensures CharValue(c, signed) != CharValue(d, signed)
  {
  }

  lemma WidenIsValue(c: CChar, signed: bool)
    ensures Widen(c, signed) == CharValue(c, signed)
  {
  }

  lemma ShiftAddIs(h: bv32)
    ensures ShiftAdd(h) == By33(h)
  {
  }

  lemma StepIsShiftAdd(h: bv32, c: CChar, signed: bool)
    ensures HashStep(h, c, signed) == Plus(ShiftAdd(h), Widen(c, signed))
  {
    hide Widen, ShiftAdd;
  }

  /** One step of the loop. */
  lemma StepIs(h: bv32, c: CChar, signed: bool)
    ensures HashStep(h, c, signed) == Plus(By33(h), CharValue(c, signed))
  {
    hide *;
    WidenIsValue(c, signed);
    ShiftAddIs(h);
    StepIsShiftAdd(h, c, signed);
  }

  function Power33(n: nat): bv32 {
    if n == 0 then 1 else By33(Power33(n - 1))
  }

  /** Each character's value times 33 to the number of characters behind it. */
  function WeightedSum(s: CString, signed: bool): bv32 {
    if s == [] then 0 else Plus(Times(CharValue(s[0], signed), Power33(|s| - 1)), WeightedSum(s[1..], signed))
  }

  lemma {:induction false} WeightedAppend(s: CString, c: CChar, signed: bool)
    ensures WeightedSum(s + [c], signed) == Plus(By33(WeightedSum(s, signed)), CharValue(c, signed))
  {
    hide CharValue, Times, Plus, By33;
    var v := CharValue(c, signed);
    if s == [] {
      Neutral(v);
      assert ([c])[1..] == [];
    } else {
      assert (s + [c])[1..] == s[1..] + [c];
      WeightedAppend(s[1..], c, signed);
      Distribute(CharValue(s[0], signed), Power33(|s| - 1), WeightedSum(s[1..], signed), v);
    }
  }

  /** Modulo 2^32, for n characters: 5381 * 33^n + the sum of s[i] * 33^(n-1-i). */
  lemma {:induction false} HashIsPolynomial(s: CString, signed: bool)
    ensures Hash(s, signed) == Plus(Times(5381, Power33(|s|)), WeightedSum(s, signed))
  {
    hide HashStep, CharValue, Times, Plus, By33;
    if s == [] {
      Neutral(5381);
    } else {
      var init, last := s[..|s| - 1], s[|s| - 1];
      HashIsPolynomial(init, signed);
      StepIs(Hash(init, signed), last, signed);
      WeightedAppend(init, last, signed);
      assert s == init + [last];
      Distribute(5381, Power33(|init|), WeightedSum(init, signed), CharValue(last, signed));
    }
  }

  // ----- one changed character

  /** A step keeps different hashes apart, and different characters too. */
  lemma StepInjective(g: bv32, h: bv32, c: CChar, d: CChar, signed: bool)
    ensures HashStep(g, c, signed) == HashStep(h, c, signed) ==> g == h
    ensures HashStep(h, c, signed) == HashStep(h, d, signed) ==> c == d
  {
    hide *;
    StepIs(g, c, signed);
    StepIs(h, c, signed);
    StepIs(h, d, signed);
    MinusIs(By33(g), CharValue(c, signed));
    MinusIs(By33(h), CharValue(c, signed));
    MinusIs(By33(h), CharValue(d, signed));
    Undo33Is(g);
    Undo33Is(h);
    if c != d {
      CharValueInjective(c, d, signed);
    }
  }

  /** Changing one character always changes the hash. */
  lemma {:induction false} OneCharMatters(s: CString, i: nat, c: CChar, signed: bool)
    requires i < |s| && c != s[i]
    ensures Hash(s[i := c], signed) != Hash(s, signed)
  {
    hide HashStep;
    var t, n := s[i := c], |s| - 1;
    if i == n {
      assert t[..n] == s[..n];
      StepInjective(Hash(s[..n], signed), Hash(s[..n], signed), c, s[i], signed);
    } else {
      assert t[..n] == s[..n][i := c] && t[n] == s[n];
      OneCharMatters(s[..n], i, c, signed);
      StepInjective(Hash(t[..n], signed), Hash(s[..n], signed), s[n], s[n], signed);
    }
  }
}
