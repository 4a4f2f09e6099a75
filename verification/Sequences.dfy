/** Sequences: distinct elements, and C strings. */
module Sequences {

  ghost predicate Distinct<T>(s: seq<T>) {
    forall i, j | 0 <= i < j < |s| :: s[i] != s[j]
  }

  lemma DistinctConcat<T>(s: seq<T>, t: seq<T>)
    requires Distinct(s) && Distinct(t) && forall c | c in t :: c !in s
    ensures Distinct(s + t)
  {
    forall i, j | 0 <= i < j < |s + t| ensures (s + t)[i] != (s + t)[j] {
      if i < |s| <= j { assert t[j - |s|] in t && s[i] in s; }
    }
  }

  /** Prefixes agree when their heads and the prefixes of the tails do. */
  lemma PrefixesAgree<T>(s: seq<T>, t: seq<T>, k: nat)
    requires k < |s| && k < |t|
    ensures s[..k + 1] == t[..k + 1] <==> s[0] == t[0] && s[1..][..k] == t[1..][..k]
  {
    assert s[..k + 1] == [s[0]] + s[1..][..k];
    assert t[..k + 1] == [t[0]] + t[1..][..k];
  }

  lemma SliceOfSlice<T>(s: seq<T>, start: nat, end: nat, i: nat, j: nat)
    requires i <= j && start + j <= end <= |s|
    ensures s[start..end][i..j] == s[start + i..start + j]
  {
    var t, u := s[start..end][i..j], s[start + i..start + j];
    assert |t| == |u| && forall k | 0 <= k < |t| :: t[k] == u[k];
  }

  /** The bytes of a C string: everything before the first null byte. */
  function CString(s: string): (r: string) {
    if s == [] || s[0] == '\0' then [] else [s[0]] + CString(s[1..])
  }

  predicate NulFree(s: string) { '\0' !in s }

  lemma {:induction false} CStringOfNulFree(s: string)
    ensures |CString(s)| <= |s|
    ensures CString(s) == s <==> NulFree(s)
    ensures !NulFree(s) ==> |CString(s)| < |s|
  {
    if s != [] {
      CStringOfNulFree(s[1..]);
      assert s == [s[0]] + s[1..];
    }
  }

  /** A terminated string reads as the bytes in front of the first null byte, whatever follows it. */
  lemma {:induction false} CStringOfTerminated(t: string, rest: string)
    requires NulFree(t)
    ensures CString(t + ['\0'] + rest) == t
  {
    var s := t + ['\0'] + rest;
    if t != [] {
      assert s[1..] == t[1..] + ['\0'] + rest;
      CStringOfTerminated(t[1..], rest);
    }
  }
}
