/**
 The user table: the password hash, verification by name, and locking after failed attempts.
 Whether char is signed is a parameter.
 */
module Accounts {
  import opened Machine
  import opened CStrings
  import opened HashStorage

  const MAX_USERS := 64
  const USERNAME_BUFFER := 32
  const MAX_FAILURES := 5

  /** The letters of "admin". */
  const ADMIN: CString := [97, 100, 109, 105, 110]

  // ----- hashing

  function ShiftAdd(hash: bv32): bv32 {
    (hash << 5) + hash
  }

  function HashStep(hash: bv32, c: CChar, signed: bool): bv32 {
    ShiftAdd(hash) + Widen(c, signed)
  }

  function Hash(s: CString, signed: bool): bv32 {
    if s == [] then 5381 else HashStep(Hash(s[..|s| - 1], signed), s[|s| - 1], signed)
  }

  method SimpleHash(s: CString, signed: bool) returns (hash: bv32)
    ensures hash == Hash(s, signed)
  {
    hide HashStep;
    hash := 5381;
    for i := 0 to |s|
      invariant hash == Hash(s[..i], signed)
    {
      assert s[..i + 1][..i] == s[..i];
      hash := HashStep(hash, s[i], signed);
    }
    assert s[..|s|] == s;
  }

  // ----- users

  datatype User = User(
    id: uint32, name: CString, chunks: seq<bv8>, uid: uint32, gid: uint32,
    isAdmin: bool, enabled: bool, failedAttempts: uint32)

  datatype Accounts = Accounts(users: seq<User>, nextId: uint32) {
    ghost predicate WellFormed() {
      forall i :: 0 <= i < |users| ==> |users[i].chunks| == 8
    }
  }

  /** The table after auth_create_user, and the id it returns: 0 when the table is full. */
  function Create(s: Accounts, name: CString, password: CString, uid: uint32, gid: uint32, isAdmin: bool, signed: bool)
    : (Accounts, uint32)
  {
    if |s.users| >= MAX_USERS then (s, 0)
    else (Accounts(s.users + [User(s.nextId, Truncated(name, USERNAME_BUFFER - 1), Chunks(Hash(password, signed)),
                                   uid, gid, isAdmin, true, 0)],
                   Add32(s.nextId, 1)),
          s.nextId)
  }

  /** The table after auth_init. */
  function InitAccounts(signed: bool): (s: Accounts)
    ensures s.WellFormed()
  {
    Create(Accounts([], 1), ADMIN, ADMIN, 0, 0, true, signed).0
  }

  /** The first enabled user whose name starts with the name asked for, or -1. */
  function Candidate(users: seq<User>, name: CString): (r: int)
    ensures r == -1 <==> forall i :: 0 <= i < |users| ==> !(users[i].enabled && name <= users[i].name)
    ensures r != -1 ==> 0 <= r < |users| && users[r].enabled && name <= users[r].name &&
                        forall i :: 0 <= i < r ==> !(users[i].enabled && name <= users[i].name)
  {
    if users == [] then -1
    else
      var n := |users| - 1;
      var r := Candidate(users[..n], name);
      if r != -1 then r else if users[n].enabled && name <= users[n].name then n else -1
  }

  lemma CandidateIs(users: seq<User>, name: CString, i: nat)
    requires i < |users| && users[i].enabled && name <= users[i].name
    requires forall k :: 0 <= k < i ==> !(users[k].enabled && name <= users[k].name)
    ensures Candidate(users, name) == i
  {
  }

  /** The user after a wrong password. */
  function Failed(u: User): User {
    var n := Add32(u.failedAttempts, 1);
    u.(failedAttempts := n, enabled := u.enabled && n < MAX_FAILURES)
  }

  /** The table after auth_verify_user, and the user id it returns, or -1. */
  function Verify(s: Accounts, name: CString, password: CString, signed: bool): (r: (Accounts, int))
    requires s.WellFormed()
    ensures r.0.WellFormed() && |r.0.users| == |s.users|
  {
    var i := Candidate(s.users, name);
    if i == -1 then (s, -1)
    else if Restore(s.users[i].chunks, 8, signed) == Hash(password, signed) then
      (s.(users := s.users[i := s.users[i].(failedAttempts := 0)]), AsInt32(s.users[i].id))
    else (s.(users := s.users[i := Failed(s.users[i])]), -1)
  }

  // ----- the table itself

  /** A user as stored: the name is in a buffer of USERNAME_BUFFER chars. */
  datatype Entry = Entry(
    id: uint32, username: seq<bv8>, chunks: seq<bv8>, uid: uint32, gid: uint32,
    isAdmin: bool, enabled: bool, failedAttempts: uint32)
  {
    ghost predicate WellFormed() {
      |username| == USERNAME_BUFFER && 0 in username && |chunks| == 8
    }

    ghost function AsUser(): User {
      User(id, Text(username), chunks, uid, gid, isAdmin, enabled, failedAttempts)
    }
  }

  class UserTable {
    const users: array<Entry>
    const signed: bool
    var userCount: nat
    var nextUserId: uint32

    ghost predicate Valid()
      reads this, users
    {
      && users.Length == MAX_USERS && userCount <= MAX_USERS
      && forall i :: 0 <= i < MAX_USERS ==> users[i].WellFormed()
    }

    ghost function State(): (s: Accounts)
      requires Valid()
      reads this, users
      ensures s.WellFormed()
    {
      Accounts(seq(userCount, i requires 0 <= i < users.Length reads users => users[i].AsUser()), nextUserId)
    }

    constructor (signed: bool)
      ensures Valid() && State() == Accounts([], 1) && this.signed == signed && fresh(users)
    {
      this.signed := signed;
      users := new Entry[MAX_USERS](_ => Entry(0, seq(USERNAME_BUFFER, _ => 0), seq(8, _ => 0), 0, 0, false, false, 0));
      userCount, nextUserId := 0, 1;
      new;
      assert forall i :: 0 <= i < MAX_USERS ==> users[i].username[0] == 0;
      assert |State().users| == 0;
    }

    method CreateUser(name: CString, password: CString, uid: uint32, gid: uint32, isAdmin: bool) returns (id: uint32)
      requires Valid()
      modifies this, users
      ensures Valid() && (State(), id) == Create(old(State()), name, password, uid, gid, isAdmin, signed)
    {
      if userCount >= MAX_USERS {
        return 0;
      }
      id := nextUserId;
      nextUserId := Add32(nextUserId, 1);
      var username := CopyTruncated(users[userCount].username, name, USERNAME_BUFFER - 1);
      var hash := SimpleHash(password, signed);
      var chunks := users[userCount].chunks;
      for i := 0 to 8
        invariant |chunks| == 8
        invariant forall k :: 0 <= k < i ==> chunks[k] == Chunk(hash, k)
      {
        chunks := chunks[i := Chunk(hash, i)];
      }
      assert chunks == Chunks(hash);
      users[userCount] := Entry(id, username, chunks, uid, gid, isAdmin, true, 0);
      userCount := userCount + 1;
      assert State().users == old(State()).users + [users[userCount - 1].AsUser()];
    }

    /** auth_init: an empty table, then the default administrator. */
    method Init()
      requires Valid()
      modifies this, users
      ensures Valid() && State() == InitAccounts(signed)
    {
      userCount, nextUserId := 0, 1;
      assert |State().users| == 0;
      var _ := CreateUser(ADMIN, ADMIN, 0, 0, true);
    }

    method RestoreHash(i: nat) returns (stored: bv32)
      requires Valid() && i < userCount
      ensures stored == Restore(users[i].chunks, 8, signed)
    {
      hide RestoreStep;
      stored := 0;
      for j := 0 to 8
        invariant stored == Restore(users[i].chunks, j, signed)
      {
        stored := RestoreStep(stored, users[i].chunks[j], j, signed);
      }
    }

    /** The decision on the user whose name matched. */
    method Decide(i: nat, passwordHash: bv32) returns (r: int)
      requires Valid() && i < userCount && users[i].enabled
      modifies users
      ensures Valid()
      ensures var u := old(State()).users[i];
              var ok := Restore(u.chunks, 8, signed) == passwordHash;
              && r == (if ok then AsInt32(u.id) else -1)
              && State() == old(State()).(users := old(State()).users[i :=
                              if ok then u.(failedAttempts := 0) else Failed(u)])
    {
      hide Restore;
      ghost var s := State();
      var stored := RestoreHash(i);
      if stored == passwordHash {
        users[i] := users[i].(failedAttempts := 0);
        assert State().users == s.users[i := users[i].AsUser()];
        return AsInt32(users[i].id);
      }
      users[i] := users[i].(failedAttempts := Add32(users[i].failedAttempts, 1));
      if users[i].failedAttempts >= MAX_FAILURES {
        users[i] := users[i].(enabled := false);
      }
      assert State().users == s.users[i := users[i].AsUser()];
      return -1;
    }

    method VerifyUser(name: CString, password: CString) returns (r: int)
      requires Valid()
      modifies users
      ensures Valid() && (State(), r) == Verify(old(State()), name, password, signed)
    {
      hide Restore, Hash, Candidate, Failed, Text;
      var passwordHash := SimpleHash(password, signed);
      ghost var s := State();
      for i := 0 to userCount
        invariant Valid() && State() == s
        invariant forall k :: 0 <= k < i ==> !(s.users[k].enabled && name <= s.users[k].name)
      {
        assert s.users[i] == users[i].AsUser();
        if users[i].enabled {
          var matches := MatchesQuery(users[i].username, name);
          if matches {
            CandidateIs(s.users, name, i);
            r := Decide(i, passwordHash);
            return;
          }
        }
      }
      return -1;
    }
  }
}
