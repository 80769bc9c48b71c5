/** What a first-fit scan looks for, stated on the set of slots in use. */
module FreeSlots {
  import opened Sequences

  ghost predicate AllUsed(used: set<nat>, n: nat) {
    forall k: nat :: k < n ==> k in used
  }

  ghost predicate IsFirstFree(used: set<nat>, n: nat, slot: nat) {
    slot < n && slot !in used && AllUsed(used, slot)
  }

  lemma FirstFreeExists(used: set<nat>, n: nat)
    requires !AllUsed(used, n)
    ensures exists slot :: IsFirstFree(used, n, slot)
  {
    var slot := 0;
    while slot in used
      invariant slot < n && AllUsed(used, slot)
      decreases n - slot
    {
      assert AllUsed(used, slot + 1);
      slot := slot + 1;
    }
    assert IsFirstFree(used, n, slot);
  }

  /** The least slot below n outside `used`, or -1 when there is none. */
  ghost function FirstFree(used: set<nat>, n: nat): (r: int)
    ensures r == -1 <==> AllUsed(used, n)
    ensures r != -1 ==> 0 <= r && IsFirstFree(used, n, r)
  {
    if AllUsed(used, n) then -1
    else
      FirstFreeExists(used, n);
      var slot: nat :| IsFirstFree(used, n, slot);
      slot
  }

  lemma FirstFreeUnique(used: set<nat>, n: nat, slot: nat)
    requires IsFirstFree(used, n, slot)
    ensures FirstFree(used, n) == slot
  {
  }

  ghost predicate Within(used: set<nat>, n: nat) {
    forall k :: k in used ==> k < n
  }

  ghost function Below(n: nat): (s: set<nat>)
    ensures forall k: nat :: k in s <==> k < n
  {
    if n == 0 then {} else Below(n - 1) + {n - 1}
  }

  lemma {:induction false} BelowSize(n: nat)
    ensures |Below(n)| == n
  {
    if n > 0 {
      BelowSize(n - 1);
    }
  }

  /** The scan fails exactly when as many slots are in use as there are. */
  lemma ExhaustedIff(used: set<nat>, n: nat)
    requires Within(used, n)
    ensures |used| <= n
    ensures FirstFree(used, n) == -1 <==> |used| == n
  {
    BelowSize(n);
    SubsetSize(used, Below(n));
    assert AllUsed(used, n) <==> used == Below(n);
  }
}
