/**
 NUL-terminated strings in fixed char buffers: the bounded copy loop that stores a string, and the
 comparison loop that stops at the end of the string looked for.
 */
module CStrings {

  type CChar = c: bv8 | c != 0 witness 1

  /** A string without its terminator. */
  type CString = seq<CChar>

  /** The string a buffer holds: what comes before its first NUL. */
  ghost function Text(buffer: seq<bv8>): CString {
    if buffer == [] || buffer[0] == 0 then [] else [buffer[0]] + Text(buffer[1..])
  }

  ghost predicate Holds(buffer: seq<bv8>, s: CString) {
    |s| < |buffer| && buffer[|s|] == 0 && forall i :: 0 <= i < |s| ==> buffer[i] == s[i]
  }

  lemma {:induction false} HoldsText(buffer: seq<bv8>, s: CString)
    requires Holds(buffer, s)
    ensures Text(buffer) == s
  {
    if s != [] {
      HoldsText(buffer[1..], s[1..]);
      assert s == [s[0]] + s[1..];
    }
  }

  lemma {:induction false} TextHolds(buffer: seq<bv8>)
    requires 0 in buffer
    ensures Holds(buffer, Text(buffer))
  {
    if buffer[0] != 0 {
      TextHolds(buffer[1..]);
    }
  }

  function Truncated(s: CString, limit: nat): CString {
    if |s| <= limit then s else s[..limit]
  }

  /** The copy loop: at most `limit` characters, then a NUL; what is behind it stays. */
  method CopyTruncated(buffer: seq<bv8>, s: CString, limit: nat) returns (copy: seq<bv8>)
    requires limit < |buffer|
    ensures |copy| == |buffer| && 0 in copy
    ensures Text(copy) == Truncated(s, limit)
    ensures forall k :: |Truncated(s, limit)| < k < |buffer| ==> copy[k] == buffer[k]
  {
    copy := buffer;
    var i := 0;
    while i < limit && i < |s|
      invariant 0 <= i <= limit && i <= |s| && |copy| == |buffer|
      invariant forall k :: 0 <= k < i ==> copy[k] == s[k]
      invariant forall k :: i <= k < |buffer| ==> copy[k] == buffer[k]
    {
      copy := copy[i := s[i]];
      i := i + 1;
    }
    copy := copy[i := 0];
    assert copy[i] == 0;
    HoldsText(copy, Truncated(s, limit));
  }

  /** The comparison loop: whether the query is a prefix of the string in the buffer, not whether they are equal. */
  method MatchesQuery(buffer: seq<bv8>, query: CString) returns (m: bool)
    requires 0 in buffer
    ensures m <==> query <= Text(buffer)
  {
    TextHolds(buffer);
    ghost var s := Text(buffer);
    var j := 0;
    while j < |buffer| && j < |query|
      invariant 0 <= j <= |query| && j <= |s|
      invariant forall k :: 0 <= k < j ==> query[k] == s[k]
    {
      if buffer[j] != query[j] {
        return false;
      }
      j := j + 1;
    }
    return true;
  }

  /** Within a set of names of which none is a proper prefix of another, a prefix match is equality. */
  ghost predicate PrefixFree(names: set<CString>) {
    forall a, b :: a in names && b in names && a <= b ==> a == b
  }
}
