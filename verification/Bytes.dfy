/** Byte strings and substring search. */
module Bytes {

  type byte = x: int | 0 <= x < 256
  type bytes = seq<byte>

  predicate OccursAt(s: bytes, pattern: bytes, i: int) {
    0 <= i <= |s| - |pattern| && s[i..i + |pattern|] == pattern
  }

  ghost predicate Contains(s: bytes, pattern: bytes) {
    exists i :: OccursAt(s, pattern, i)
  }

  /** The first occurrence of `pattern` in `s`, or -1. */
  method Index(s: bytes, pattern: bytes) returns (index: int)
    ensures index < 0 <==> !Contains(s, pattern)
    ensures 0 <= index ==> OccursAt(s, pattern, index)
    ensures forall j :: j < index ==> !OccursAt(s, pattern, j)
  {
    index := 0;
    while index + |pattern| <= |s|
      invariant 0 <= index
      invariant forall j :: j < index ==> !OccursAt(s, pattern, j)
    {
      if s[index..index + |pattern|] == pattern {
        assert OccursAt(s, pattern, index);
        return;
      }
      index := index + 1;
    }
    return -1;
  }

  /** The last occurrence of `pattern` in `s`, or -1. */
  method LastIndex(s: bytes, pattern: bytes) returns (index: int)
    ensures index < 0 <==> !Contains(s, pattern)
    ensures 0 <= index ==> OccursAt(s, pattern, index)
    ensures forall j :: index < j ==> !OccursAt(s, pattern, j)
  {
    index := |s| - |pattern|;
    while 0 <= index
      invariant forall j :: index < j ==> !OccursAt(s, pattern, j)
    {
      if s[index..index + |pattern|] == pattern {
        assert OccursAt(s, pattern, index);
        return;
      }
      index := index - 1;
    }
    return -1;
  }

  /** An occurrence in a piece of a string is an occurrence in the string, shifted. */
  lemma OccursInSlice(s: bytes, pattern: bytes, lo: nat, hi: nat, i: int)
    requires lo <= hi <= |s|
    ensures OccursAt(s[lo..hi], pattern, i) <==> 0 <= i && OccursAt(s, pattern, lo + i) && lo + i + |pattern| <= hi
  {
    if 0 <= i && lo + i + |pattern| <= hi {
      var piece := s[lo..hi][i..i + |pattern|];
      var whole := s[lo + i..lo + i + |pattern|];
      assert forall k :: 0 <= k < |pattern| ==> piece[k] == whole[k];
      assert piece == whole;
    }
  }

  lemma OccursInside(s: bytes, pattern: bytes, i: int)
    ensures OccursAt(s, pattern, i) ==> 0 <= i <= |s| - |pattern|
  {
  }

  /** The last bytes of a string, at most `keep` of them. */
  ghost function Tail(s: bytes, keep: nat): bytes {
    if |s| > keep then s[|s| - keep..] else s
  }

  lemma TailOfTail(s: bytes, p: bytes, keep: nat)
    ensures Tail(Tail(s, keep) + p, keep) == Tail(s + p, keep)
  {
  }

  /** Searching a long enough tail and the new bytes is searching everything, when nothing was found before. */
  lemma AcrossTail(s: bytes, p: bytes, pattern: bytes, keep: nat, i: int)
    requires |pattern| - 1 <= keep && !Contains(s, pattern)
    ensures var skip := |s| - |Tail(s, keep)|;
      && (OccursAt(Tail(s, keep) + p, pattern, i - skip) <==> OccursAt(s + p, pattern, i))
      && (OccursAt(s + p, pattern, i) ==> |s| < i + |pattern|)
  {
    hide OccursAt;
    var all := s + p;
    var skip := |s| - |Tail(s, keep)|;
    assert all[skip..|all|] == Tail(s, keep) + p;
    assert all[0..|s|] == s;
    OccursInSlice(all, pattern, 0, |s|, i);
    OccursInSlice(all, pattern, skip, |all|, i - skip);
    OccursInside(all, pattern, i);
    OccursInside(Tail(s, keep) + p, pattern, i - skip);
  }
}
