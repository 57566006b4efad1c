/** NUL-terminated byte strings and the hand-written strlen of src/kernel.cpp. */
module CString {
  import opened VgaCell

  /** A C string is readable up to its terminator: some byte of it is zero. */
  predicate Terminated(s: seq<byte>) { 0 in s }

  /** The index of the first zero byte: the length of the C string held in `s`. */
  function Length(s: seq<byte>): (n: nat)
    requires Terminated(s)
    ensures n < |s| && s[n] == 0
    ensures forall i :: 0 <= i < n ==> s[i] != 0
  {
    if s[0] == 0 then 0
    else
      assert s == [s[0]] + s[1..];
      1 + Length(s[1..])
  }

  /** The bytes of the C string held in `s`, without its terminator. */
  function Contents(s: seq<byte>): (t: seq<byte>)
    requires Terminated(s)
    ensures 0 !in t && t + [0] <= s
  {
    s[..Length(s)]
  }

  /** A string literal, the bytes `t` followed by the NUL the compiler appends, holds exactly `t`. */
  lemma ContentsOfLiteral(t: seq<byte>)
    requires 0 !in t
    ensures Terminated(t + [0])
    ensures Length(t + [0]) == |t| && Contents(t + [0]) == t
  {
    var s := t + [0];
    assert s[|t|] == 0;
    assert forall i :: 0 <= i < |t| ==> s[i] == t[i];
  }

  /** strlen: counts the bytes before the first zero with a while loop. */
  method Strlen(s: seq<byte>) returns (n: nat)
    requires Terminated(s)
    ensures n == Length(s)
    ensures n < |s| && s[n] == 0 && forall i :: 0 <= i < n ==> s[i] != 0
  {
    n := 0;
    while s[n] != 0
      invariant n < |s| && 0 in s[n..]
      invariant forall i :: 0 <= i < n ==> s[i] != 0
      decreases |s| - n
    {
      assert s[n..] == [s[n]] + s[n + 1..];
      n := n + 1;
    }
  }
}
