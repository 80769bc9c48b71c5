/**
 When a created user verifies, and what failed attempts do.
 */
module AccountsProperties {
  import opened Machine
  import opened CStrings
  import opened HashStorage
  import opened Accounts
  import opened PasswordHash

  /** Whether a hash stored by auth_create_user is the one auth_verify_user reads back. */
  predicate Survives(hash: bv32, signed: bool) {
    !signed || SignSafe(hash)
  }

  lemma StoredHashIff(hash: bv32, signed: bool)
    ensures Restore(Chunks(hash), 8, signed) == hash <==> Survives(hash, signed)
  {
    hide SignSafe, Restore;
    if signed {
      SignedRoundTripIff(hash);
    } else {
      UnsignedRoundTrip(hash);
    }
  }

  // ----- runs

  datatype Op =
    | CreateOp(name: CString, password: CString, uid: uint32, gid: uint32, admin: bool)
    | VerifyOp(name: CString, password: CString)

  function Step(s: Accounts, op: Op, signed: bool): (t: Accounts)
    requires s.WellFormed()
    ensures t.WellFormed() && |s.users| <= |t.users|
  {
    match op
    case CreateOp(name, password, uid, gid, admin) => Create(s, name, password, uid, gid, admin, signed).0
    case VerifyOp(name, password) => Verify(s, name, password, signed).0
  }

  function Run(s: Accounts, ops: seq<Op>, signed: bool): (t: Accounts)
    requires s.WellFormed()
    ensures t.WellFormed() && |s.users| <= |t.users|
  {
    if ops == [] then s else Step(Run(s, ops[..|ops| - 1], signed), ops[|ops| - 1], signed)
  }

  // ----- who verifies

  /** No enabled user among the first n has a name that starts with this one. */
  ghost predicate Unclaimed(s: Accounts, n: nat, name: CString)
    requires n <= |s.users|
  {
    forall k :: 0 <= k < n ==> !(s.users[k].enabled && name <= s.users[k].name)
  }

  /** User i is the one that a login under this name is decided on. */
  ghost predicate Selected(s: Accounts, i: nat, name: CString) {
    i < |s.users| && s.users[i].enabled && name <= s.users[i].name && Unclaimed(s, i, name)
  }

  /** No other user has the id of user i. */
  ghost predicate OwnId(s: Accounts, i: nat) {
    i < |s.users| && forall k :: 0 <= k < |s.users| && k != i ==> s.users[k].id != s.users[i].id
  }

  lemma SelectedIff(s: Accounts, i: nat, name: CString)
    ensures Selected(s, i, name) <==> Candidate(s.users, name) == i
  {
    hide Candidate;
    if Selected(s, i, name) {
      CandidateIs(s.users, name, i);
    }
  }

  lemma AsInt32Injective(a: uint32, b: uint32)
    ensures AsInt32(a) == AsInt32(b) <==> a == b
    ensures AsInt32(a) == -1 <==> a == TWO_32 - 1
  {
  }

  /**
   With the password it was created with, a user gets its own id iff it is enabled, its name starts with the name
   given, no earlier enabled user's name does, and the hash survives storage.
   */
  lemma VerifiesAsItselfIff(s: Accounts, i: nat, name: CString, password: CString, signed: bool)
    requires s.WellFormed() && OwnId(s, i) && s.users[i].id != TWO_32 - 1
    requires s.users[i].chunks == Chunks(Hash(password, signed))
    ensures Verify(s, name, password, signed).1 == AsInt32(s.users[i].id) <==>
            Selected(s, i, name) && Survives(Hash(password, signed), signed)
    ensures Selected(s, i, name) && !Survives(Hash(password, signed), signed) ==>
            Verify(s, name, password, signed).1 == -1
  {
    hide Restore, Hash, Survives, Candidate, Selected, AsInt32, Chunks;
    SelectedIff(s, i, name);
    StoredHashIff(Hash(password, signed), signed);
    var c := Candidate(s.users, name);
    AsInt32Injective(s.users[i].id, 0);
    if c != -1 {
      AsInt32Injective(s.users[c].id, s.users[i].id);
    }
  }

  /** A user that an earlier one hides logs in as that one: the verdict and the failure are the other's. */
  lemma HiddenLogin(s: Accounts, i: nat, k: nat, name: CString, password: CString, signed: bool)
    requires s.WellFormed() && i < |s.users| && Selected(s, k, name) && k != i
    ensures var (t, r) := Verify(s, name, password, signed);
            && t.users[i] == s.users[i]
            && (Restore(s.users[k].chunks, 8, signed) != Hash(password, signed) ==>
                  r == -1 && t.users[k].failedAttempts == Add32(s.users[k].failedAttempts, 1))
  {
    hide Restore, Hash, Candidate, Selected;
    SelectedIff(s, k, name);
  }

  /** Where the hash survives storage, a password that differs in one character is refused, and the failure counted. */
  lemma WrongCharacterRefused(s: Accounts, i: nat, name: CString, password: CString, k: nat, c: CChar, signed: bool)
    requires s.WellFormed() && Selected(s, i, name) && s.users[i].chunks == Chunks(Hash(password, signed))
    requires Survives(Hash(password, signed), signed) && k < |password| && c != password[k]
    ensures var (t, r) := Verify(s, name, password[k := c], signed);
            r == -1 && t.users[i].failedAttempts == Add32(s.users[i].failedAttempts, 1)
  {
    hide Restore, Hash, Survives, Candidate, Selected, Chunks;
    SelectedIff(s, i, name);
    StoredHashIff(Hash(password, signed), signed);
    OneCharMatters(password, k, c, signed);
  }

  // ----- what every run from auth_init keeps

  /** Ids count the users in table order, and names fit their buffers. */
  ghost predicate Numbered(s: Accounts) {
    && s.WellFormed() && |s.users| <= MAX_USERS && s.nextId == |s.users| + 1
    && forall i {:trigger s.users[i]} :: 0 <= i < |s.users| ==>
         s.users[i].id == i + 1 && |s.users[i].name| < USERNAME_BUFFER
  }

  lemma StepNumbered(s: Accounts, op: Op, signed: bool)
    requires Numbered(s)
    ensures Numbered(Step(s, op, signed))
  {
    hide Restore, Hash, Candidate;
  }

  lemma {:induction false} RunNumbered(s: Accounts, ops: seq<Op>, signed: bool)
    requires Numbered(s)
    ensures Numbered(Run(s, ops, signed))
  {
    hide Step;
    if ops != [] {
      RunNumbered(s, ops[..|ops| - 1], signed);
      StepNumbered(Run(s, ops[..|ops| - 1], signed), ops[|ops| - 1], signed);
    }
  }

  /** A run changes no user's id, name, password or privileges, and enables no disabled user. */
  lemma {:induction false} RunKeepsUser(s: Accounts, ops: seq<Op>, signed: bool, i: nat)
    requires s.WellFormed() && i < |s.users|
    ensures var before, after := s.users[i], Run(s, ops, signed).users[i];
            && after == before.(enabled := after.enabled, failedAttempts := after.failedAttempts)
            && (after.enabled ==> before.enabled)
  {
    hide Restore, Hash, Candidate;
    if ops != [] {
      RunKeepsUser(s, ops[..|ops| - 1], signed, i);
    }
  }

  /** auth_create_user returns 0 and changes nothing iff the table is full. */
  lemma FullTableIff(s: Accounts, name: CString, password: CString, uid: uint32, gid: uint32, admin: bool, signed: bool)
    requires Numbered(s)
    ensures var (t, id) := Create(s, name, password, uid, gid, admin, signed);
            (id == 0 <==> |s.users| == MAX_USERS) && (t == s <==> |s.users| == MAX_USERS)
  {
    hide Hash, Chunks;
  }

  /** The user that is added: id, name cut to 31 characters, hash and privileges as given, enabled, no failures. */
  lemma CreatedEntry(s: Accounts, name: CString, password: CString,
                     uid: uint32, gid: uint32, admin: bool, signed: bool)
    requires Numbered(s) && |s.users| < MAX_USERS
    ensures var (t, id) := Create(s, name, password, uid, gid, admin, signed);
            && t.WellFormed() && Numbered(t) && |t.users| == |s.users| + 1 && id == |s.users| + 1
            && var u := t.users[|s.users|];
            && u.id == id && u.chunks == Chunks(Hash(password, signed))
            && u.name == (if |name| < USERNAME_BUFFER then name else name[..USERNAME_BUFFER - 1])
            && (name <= u.name <==> |name| < USERNAME_BUFFER)
            && u.uid == uid && u.gid == gid && u.isAdmin == admin && u.enabled && u.failedAttempts == 0
            && (forall k :: 0 <= k < |s.users| ==> t.users[k] == s.users[k])
  {
    hide Hash;
    StepNumbered(s, CreateOp(name, password, uid, gid, admin), signed);
  }

  lemma OwnIdNumbered(s: Accounts, i: nat)
    requires Numbered(s) && i < |s.users|
    ensures OwnId(s, i) && s.users[i].id == i + 1 && i + 1 < TWO_32 - 1
  {
  }

  /**
   At any later time, whatever was created, verified or locked since, a created user gets its id back with its name
   and password iff it is still enabled, its name has at most 31 characters, no enabled user created before it has a
   name that starts with its name, and the hash survives storage.
   */
  lemma CreatedUserKeepsVerifying(s: Accounts, name: CString, password: CString,
                                  uid: uint32, gid: uint32, admin: bool, signed: bool, ops: seq<Op>)
    requires Numbered(s) && |s.users| < MAX_USERS
    ensures var (t, id) := Create(s, name, password, uid, gid, admin, signed);
            t.WellFormed() &&
            var u := Run(t, ops, signed);
            var claims := u.users[|s.users|].enabled && |name| < USERNAME_BUFFER && Unclaimed(u, |s.users|, name);
            && (Verify(u, name, password, signed).1 == AsInt32(id) <==>
                  claims && Survives(Hash(password, signed), signed))
            && (claims && !Survives(Hash(password, signed), signed) ==> Verify(u, name, password, signed).1 == -1)
  {
    hide Restore, Hash, Survives, Candidate, Verify, Run, Create, Chunks, Numbered, OwnId;
    var t := Create(s, name, password, uid, gid, admin, signed).0;
    var i := |s.users|;
    CreatedEntry(s, name, password, uid, gid, admin, signed);
    RunKeepsUser(t, ops, signed, i);
    RunNumbered(t, ops, signed);
    OwnIdNumbered(Run(t, ops, signed), i);
    VerifiesAsItselfIff(Run(t, ops, signed), i, name, password, signed);
  }

  /** At the moment of creation: iff the name fits, no enabled user's name starts with it, and the hash survives. */
  lemma CreatedUserVerifiesIff(s: Accounts, name: CString, password: CString,
                               uid: uint32, gid: uint32, admin: bool, signed: bool)
    requires Numbered(s) && |s.users| < MAX_USERS
    ensures var (t, id) := Create(s, name, password, uid, gid, admin, signed);
            t.WellFormed() &&
            var claims := |name| < USERNAME_BUFFER && Unclaimed(s, |s.users|, name);
            && (Verify(t, name, password, signed).1 == AsInt32(id) <==>
                  claims && Survives(Hash(password, signed), signed))
            && (claims && !Survives(Hash(password, signed), signed) ==> Verify(t, name, password, signed).1 == -1)
  {
    hide Restore, Hash, Survives, Candidate, Verify, Create, Chunks, Numbered, Step;
    CreatedEntry(s, name, password, uid, gid, admin, signed);
    CreatedUserKeepsVerifying(s, name, password, uid, gid, admin, signed, []);
  }

  /** Later users do not get in the way, whatever their names are: the first match still decides. */
  lemma LaterUsersIrrelevant(s: Accounts, name: CString,
                             other: CString, password: CString, uid: uint32, gid: uint32, admin: bool, signed: bool)
    requires Candidate(s.users, name) != -1
    ensures Candidate(Create(s, other, password, uid, gid, admin, signed).0.users, name) == Candidate(s.users, name)
  {
  }

  /** Stored names are cut to 31 characters, so a longer name never verifies. */
  lemma LongNameNeverVerifies(s: Accounts, name: CString, password: CString, signed: bool)
    requires s.WellFormed() && |name| >= USERNAME_BUFFER
    requires forall i :: 0 <= i < |s.users| ==> |s.users[i].name| < USERNAME_BUFFER
    ensures Verify(s, name, password, signed) == (s, -1)
  {
  }

  // ----- the default administrator

  lemma AdminHash(signed: bool)
    ensures Hash(ADMIN, signed) == 0x0F12_FC8E
  {
    var h := ADMIN;
    assert h[..4][..3] == h[..3] && h[..3][..2] == h[..2] && h[..2][..1] == h[..1] && h[..1][..0] == [];
    assert Hash(h[..0], signed) == 5381;
    assert Hash(h[..1], signed) == 0x2_B606;
    assert Hash(h[..2], signed) == 0x59_772A;
    assert Hash(h[..3], signed) == 0xB88_5CD7;
    assert Hash(h[..4], signed) == 0x7C93_F820;
  }

  lemma AdminHashNotSafe()
    ensures !SignSafe(0x0F12_FC8E)
  {
  }

  lemma InitNumbered(signed: bool)
    ensures Numbered(InitAccounts(signed)) && |InitAccounts(signed).users| == 1
    ensures var admin := InitAccounts(signed).users[0];
            && admin.name == ADMIN && admin.chunks == Chunks(Hash(ADMIN, signed))
            && admin.uid == 0 && admin.gid == 0 && admin.isAdmin && admin.enabled && admin.failedAttempts == 0
  {
    hide Hash, Chunks;
  }

  /** After auth_init the administrator can log in with the default password iff char is unsigned. */
  lemma DefaultAdminVerifiesIff(signed: bool)
    ensures Verify(InitAccounts(signed), ADMIN, ADMIN, signed).1 == if signed then -1 else 1
  {
    hide Restore, Hash, Verify, SignSafe, Chunks;
    CreatedUserVerifiesIff(Accounts([], 1), ADMIN, ADMIN, 0, 0, true, signed);
    AdminHash(signed);
    AdminHashNotSafe();
  }

  /** The letters of "adm", which "admin" starts with. */
  const ADM: CString := [97, 100, 109]

  /**
   A user created as "adm" after auth_init cannot log in with its password: the login is decided on "admin", and
   counts as a failure there, unless the password happens to hash to what is read back for "admin".
   */
  lemma ShadowedLogin(password: CString, uid: uint32, gid: uint32, admin: bool, signed: bool)
    requires Restore(Chunks(Hash(ADMIN, signed)), 8, signed) != Hash(password, signed)
    ensures var (t, id) := Create(InitAccounts(signed), ADM, password, uid, gid, admin, signed);
            t.WellFormed() &&
            var (u, r) := Verify(t, ADM, password, signed);
            && id == 2 && t.users[1].enabled && r == -1
            && u.users[0].failedAttempts == 1 && u.users[1] == t.users[1]
  {
    hide Restore, Hash, Verify, Candidate, Chunks, InitAccounts, Create, Numbered;
    var s := InitAccounts(signed);
    InitNumbered(signed);
    CreatedEntry(s, ADM, password, uid, gid, admin, signed);
    assert ADM <= ADMIN;
    HiddenLogin(Create(s, ADM, password, uid, gid, admin, signed).0, 1, 0, ADM, password, signed);
  }

  // ----- failed attempts

  /** A user is enabled until the fifth failure in a row, and no longer. */
  ghost predicate LockInv(s: Accounts) {
    s.WellFormed() &&
    forall i :: 0 <= i < |s.users| ==>
      s.users[i].failedAttempts <= MAX_FAILURES && (s.users[i].enabled <==> s.users[i].failedAttempts < MAX_FAILURES)
  }

  lemma {:induction false} RunLockInv(s: Accounts, ops: seq<Op>, signed: bool)
    requires LockInv(s)
    ensures LockInv(Run(s, ops, signed))
  {
    hide Restore, Hash, Candidate;
    if ops != [] {
      RunLockInv(s, ops[..|ops| - 1], signed);
    }
  }

  /** A locked user stays exactly as it is, whatever passwords are tried. */
  lemma {:induction false} LockedForever(s: Accounts, ops: seq<Op>, signed: bool, i: nat)
    requires s.WellFormed() && i < |s.users| && !s.users[i].enabled
    ensures Run(s, ops, signed).users[i] == s.users[i]
  {
    hide Restore, Hash, Candidate;
    if ops != [] {
      LockedForever(s, ops[..|ops| - 1], signed, i);
    }
  }

  /** The same wrong password k times in a row. */
  function Attempts(name: CString, password: CString, k: nat): seq<Op> {
    if k == 0 then [] else Attempts(name, password, k - 1) + [VerifyOp(name, password)]
  }

  /** The table with the failures of user i set to n. */
  function WithFailures(s: Accounts, i: nat, n: nat): Accounts
    requires i < |s.users| && n <= MAX_FAILURES
  {
    s.(users := s.users[i := s.users[i].(failedAttempts := n, enabled := n < MAX_FAILURES)])
  }

  lemma WithOwnFailures(s: Accounts, i: nat)
    requires LockInv(s) && i < |s.users|
    ensures WithFailures(s, i, s.users[i].failedAttempts) == s
  {
    assert s.users[i := s.users[i]] == s.users;
  }

  lemma OneWrongAttempt(s: Accounts, name: CString, password: CString, signed: bool, i: nat, n: nat)
    requires s.WellFormed() && i == Candidate(s.users, name) && n < MAX_FAILURES
    requires Restore(s.users[i].chunks, 8, signed) != Hash(password, signed)
    ensures WithFailures(s, i, n).WellFormed()
    ensures Verify(WithFailures(s, i, n), name, password, signed).0 == WithFailures(s, i, n + 1)
  {
    hide Restore, Hash, Candidate;
    CandidateIs(WithFailures(s, i, n).users, name, i);
  }

  lemma OneMoreAttempt(s: Accounts, name: CString, password: CString, signed: bool, k: nat)
    requires s.WellFormed() && k > 0
    ensures Run(s, Attempts(name, password, k), signed) ==
            Verify(Run(s, Attempts(name, password, k - 1), signed), name, password, signed).0
  {
    hide Verify;
    var ops := Attempts(name, password, k);
    assert ops[..|ops| - 1] == Attempts(name, password, k - 1);
  }

  /** k wrong attempts count on the user the name selects, and touch nobody else; the fifth failure locks it. */
  lemma {:induction false} WrongPasswordLocks(s: Accounts, name: CString, password: CString, signed: bool, k: nat)
    requires LockInv(s) && Candidate(s.users, name) != -1
    requires Restore(s.users[Candidate(s.users, name)].chunks, 8, signed) != Hash(password, signed)
    requires s.users[Candidate(s.users, name)].failedAttempts + k <= MAX_FAILURES
    ensures var i := Candidate(s.users, name);
            Run(s, Attempts(name, password, k), signed) == WithFailures(s, i, s.users[i].failedAttempts + k)
  {
    hide Restore, Hash, Candidate, Verify, WithFailures, Chunks;
    var i := Candidate(s.users, name);
    if k == 0 {
      WithOwnFailures(s, i);
    } else {
      assert s.WellFormed();
      hide Attempts, Run, LockInv;
      WrongPasswordLocks(s, name, password, signed, k - 1);
      OneMoreAttempt(s, name, password, signed, k);
      OneWrongAttempt(s, name, password, signed, i, s.users[i].failedAttempts + k - 1);
    }
  }
}
