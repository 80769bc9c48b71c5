/**
 When a user gets locked, told by the logins of the run alone: five failures without a success between them.
 */
module LoginHistory {
  import opened Machine
  import opened CStrings
  import opened HashStorage
  import opened Accounts
  import opened AccountsProperties

  /** Call j is a login decided on user i. */
  ghost predicate LoginOn(s: Accounts, ops: seq<Op>, signed: bool, i: nat, j: nat)
    requires s.WellFormed()
  {
    j < |ops| && ops[j].VerifyOp? && Selected(Run(s, ops[..j], signed), i, ops[j].name)
  }

  ghost predicate Fails(s: Accounts, ops: seq<Op>, signed: bool, i: nat, j: nat)
    requires s.WellFormed()
  {
    LoginOn(s, ops, signed, i, j) && Verify(Run(s, ops[..j], signed), ops[j].name, ops[j].password, signed).1 == -1
  }

  ghost predicate Succeeds(s: Accounts, ops: seq<Op>, signed: bool, i: nat, j: nat)
    requires s.WellFormed()
  {
    LoginOn(s, ops, signed, i, j) && !Fails(s, ops, signed, i, j)
  }

  /** Increasing positions of failures of user i, with no success behind the first of them and before call n. */
  ghost predicate Streak(s: Accounts, ops: seq<Op>, signed: bool, i: nat, at: seq<nat>, n: nat)
    requires s.WellFormed()
  {
    && (forall k :: 0 <= k < |at| ==> at[k] < n && Fails(s, ops, signed, i, at[k]))
    && (forall k, l :: 0 <= k < l < |at| ==> at[k] < at[l])
    && (forall j: nat :: at != [] && at[0] < j < n ==> !Succeeds(s, ops, signed, i, j))
  }

  /** Five failures in a row, as far as the logins of this user go. */
  ghost predicate FiveInARow(s: Accounts, ops: seq<Op>, signed: bool, i: nat)
    requires s.WellFormed()
  {
    exists at: seq<nat>, n: nat :: |at| == MAX_FAILURES && n <= |ops| && Streak(s, ops, signed, i, at, n)
  }

  /** A failure adds one to the count, a success sets it to 0, and nothing else touches the user. */
  lemma LoginEffect(s: Accounts, op: Op, signed: bool, i: nat)
    requires Numbered(s) && LockInv(s) && i < |s.users|
    ensures var t := Step(s, op, signed);
            if op.VerifyOp? && Selected(s, i, op.name) then
              t.users[i].failedAttempts ==
                if Verify(s, op.name, op.password, signed).1 == -1 then s.users[i].failedAttempts + 1 else 0
            else t.users[i] == s.users[i]
  {
    hide Restore, Hash, Candidate, Selected, Chunks;
    if op.VerifyOp? {
      SelectedIff(s, i, op.name);
      AsInt32Injective(s.users[i].id, 0);
    }
  }

  lemma RunInvs(s: Accounts, ops: seq<Op>, signed: bool)
    requires Numbered(s) && LockInv(s)
    ensures Numbered(Run(s, ops, signed)) && LockInv(Run(s, ops, signed))
    ensures |s.users| <= |Run(s, ops, signed).users|
  {
    RunNumbered(s, ops, signed);
    RunLockInv(s, ops, signed);
  }

  /** The count after n calls, as one call more changes it. */
  lemma CountAfter(s: Accounts, ops: seq<Op>, signed: bool, i: nat, n: nat)
    requires Numbered(s) && LockInv(s) && i < |s.users| && n < |ops|
    ensures |s.users| <= |Run(s, ops[..n], signed).users| && |s.users| <= |Run(s, ops[..n + 1], signed).users|
    ensures var before, after := Run(s, ops[..n], signed).users[i], Run(s, ops[..n + 1], signed).users[i];
            if Fails(s, ops, signed, i, n) then after.failedAttempts == before.failedAttempts + 1
            else if Succeeds(s, ops, signed, i, n) then after.failedAttempts == 0
            else after == before
  {
    hide Step, Verify, Selected, LockInv;
    RunInvs(s, ops[..n], signed);
    assert ops[..n + 1][..n] == ops[..n];
    LoginEffect(Run(s, ops[..n], signed), ops[n], signed, i);
  }

  lemma RunNothing(s: Accounts, ops: seq<Op>, signed: bool)
    requires s.WellFormed()
    ensures Run(s, ops[..0], signed) == s
  {
  }

  lemma OneVerdict(s: Accounts, ops: seq<Op>, signed: bool, i: nat, j: nat)
    requires s.WellFormed()
    ensures !(Fails(s, ops, signed, i, j) && Succeeds(s, ops, signed, i, j))
  {
  }

  /** The failures counted for a user after n calls are a streak of that length. */
  lemma {:induction false} CountIsStreak(s: Accounts, ops: seq<Op>, signed: bool, i: nat, n: nat) returns (at: seq<nat>)
    requires Numbered(s) && LockInv(s) && i < |s.users| && s.users[i].failedAttempts == 0 && n <= |ops|
    ensures i < |Run(s, ops[..n], signed).users|
    ensures |at| == Run(s, ops[..n], signed).users[i].failedAttempts && Streak(s, ops, signed, i, at, n)
  {
    hide Fails, Succeeds, Run, LockInv;
    if n == 0 {
      at := [];
      RunNothing(s, ops, signed);
    } else {
      at := CountIsStreak(s, ops, signed, i, n - 1);
      CountAfter(s, ops, signed, i, n - 1);
      OneVerdict(s, ops, signed, i, n - 1);
      if Fails(s, ops, signed, i, n - 1) {
        at := at + [n - 1];
      } else if Succeeds(s, ops, signed, i, n - 1) {
        at := [];
      }
    }
  }

  /** After the k-th failure of a streak at least k are counted, up to the end of the streak. */
  lemma {:induction false} StreakCounts(s: Accounts, ops: seq<Op>, signed: bool, i: nat, at: seq<nat>, n: nat,
                                        k: nat, j: nat)
    requires Numbered(s) && LockInv(s) && i < |s.users| && n <= |ops| && Streak(s, ops, signed, i, at, n)
    requires k < |at| && at[k] < j <= n
    ensures i < |Run(s, ops[..j], signed).users| && Run(s, ops[..j], signed).users[i].failedAttempts >= k + 1
    decreases j
  {
    hide Fails, Succeeds, Run, Numbered, LockInv;
    CountAfter(s, ops, signed, i, j - 1);
    if j == at[k] + 1 {
      if k > 0 {
        StreakCounts(s, ops, signed, i, at, n, k - 1, j - 1);
      }
    } else {
      StreakCounts(s, ops, signed, i, at, n, k, j - 1);
      assert at[0] <= at[k];
    }
  }

  lemma StepStaysLocked(s: Accounts, op: Op, signed: bool, i: nat)
    requires s.WellFormed() && i < |s.users| && !s.users[i].enabled
    ensures !Step(s, op, signed).users[i].enabled
  {
    hide Restore, Hash, Candidate;
  }

  lemma {:induction false} StaysLocked(s: Accounts, ops: seq<Op>, signed: bool, i: nat, n: nat)
    requires s.WellFormed() && i < |s.users| && n <= |ops| && !Run(s, ops[..n], signed).users[i].enabled
    ensures !Run(s, ops, signed).users[i].enabled
  {
    hide Step;
    if n == |ops| {
      assert ops[..n] == ops;
    } else {
      var m := |ops| - 1;
      assert ops[..m][..n] == ops[..n];
      StaysLocked(s, ops[..m], signed, i, n);
      StepStaysLocked(Run(s, ops[..m], signed), ops[m], signed, i);
    }
  }

  lemma StreakLocks(s: Accounts, ops: seq<Op>, signed: bool, i: nat, at: seq<nat>, n: nat)
    requires Numbered(s) && LockInv(s) && i < |s.users| && n <= |ops|
    requires |at| == MAX_FAILURES && Streak(s, ops, signed, i, at, n)
    ensures !Run(s, ops, signed).users[i].enabled
  {
    hide Fails, Succeeds, Run, Numbered;
    var last := at[MAX_FAILURES - 1];
    StreakCounts(s, ops, signed, i, at, n, MAX_FAILURES - 1, last + 1);
    RunInvs(s, ops[..last + 1], signed);
    StaysLocked(s, ops, signed, i, last + 1);
  }

  /** A user without counted failures is locked by a run iff five of its logins fail without a success between. */
  lemma LockedIff(s: Accounts, ops: seq<Op>, signed: bool, i: nat)
    requires Numbered(s) && LockInv(s) && i < |s.users| && s.users[i].failedAttempts == 0
    ensures !Run(s, ops, signed).users[i].enabled <==> FiveInARow(s, ops, signed, i)
  {
    hide Streak, Run;
    RunInvs(s, ops, signed);
    assert ops[..|ops|] == ops;
    if !Run(s, ops, signed).users[i].enabled {
      var at := CountIsStreak(s, ops, signed, i, |ops|);
    }
    if at: seq<nat>, n: nat :| |at| == MAX_FAILURES && n <= |ops| && Streak(s, ops, signed, i, at, n) {
      StreakLocks(s, ops, signed, i, at, n);
    }
  }
}
