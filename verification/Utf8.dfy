/** The UTF-8 grammar of section 4 of RFC 3629, and the scan the relay and the truncation share. */
module Utf8 {
  import opened Bytes

  /** Length of the character that a lead byte announces; 0 when no character starts with it. */
  function LeadLength(lead: byte): (n: nat)
    ensures n <= 4
  {
    if lead < 0x80 then 1
    else if 0xC2 <= lead <= 0xDF then 2
    else if 0xE0 <= lead <= 0xEF then 3
    else if 0xF0 <= lead <= 0xF4 then 4
    else 0
  }

  predicate Continuation(b: byte) {
    0x80 <= b <= 0xBF
  }

  /** The grammar narrows the second byte after E0, ED, F0 and F4. */
  predicate SecondFits(lead: byte, second: byte) {
    && Continuation(second)
    && (lead == 0xE0 ==> 0xA0 <= second)
    && (lead == 0xED ==> second <= 0x9F)
    && (lead == 0xF0 ==> 0x90 <= second)
    && (lead == 0xF4 ==> second <= 0x8F)
  }

  /** The bytes of `s` so far agree with the character its first byte announces. */
  predicate Conforms(s: bytes) {
    && 0 < |s| <= LeadLength(s[0])
    && (2 <= |s| ==> SecondFits(s[0], s[1]))
    && (3 <= |s| ==> Continuation(s[2]))
    && (4 <= |s| ==> Continuation(s[3]))
  }

  /** Exactly one character. */
  predicate Character(s: bytes) {
    Conforms(s) && |s| == LeadLength(s[0])
  }

  /** A character cut short: nonempty, and some continuation completes it. */
  predicate Partial(s: bytes) {
    Conforms(s) && |s| < LeadLength(s[0])
  }

  /** Go's utf8.FullRune: false only when more bytes could still complete a character. */
  predicate FullRune(s: bytes) {
    |s| > 0 && !Partial(s)
  }

  /** The size of the character at the head of `s`; 0 stands for Go's (RuneError, 1) and for empty input. */
  function RuneLength(s: bytes): (n: nat)
    ensures n <= |s|
  {
    if |s| == 0 then 0
    else
      var n := LeadLength(s[0]);
      if 0 < n <= |s| && Character(s[..n]) then n else 0
  }

  /** Well-formed UTF-8: a concatenation of characters. */
  predicate WellFormed(s: bytes) {
    s == [] || (RuneLength(s) > 0 && WellFormed(s[RuneLength(s)..]))
  }

  predicate NulFree(s: bytes) {
    forall i :: 0 <= i < |s| ==> s[i] != 0
  }

  /** Length of the whole NUL-free characters at the head of `s`. */
  function WholePrefix(s: bytes): (n: nat)
    ensures n <= |s|
  {
    if RuneLength(s) > 0 && s[0] != 0 then RuneLength(s) + WholePrefix(s[RuneLength(s)..]) else 0
  }

  /** `s` is made of whole NUL-free characters, possibly followed by one cut short. */
  predicate Extensible(s: bytes) {
    var rest := s[WholePrefix(s)..];
    rest == [] || Partial(rest)
  }

  /** A character cut short has at most three bytes. */
  lemma PartialIsShort(s: bytes)
    ensures Extensible(s) ==> |s| <= WholePrefix(s) + 3
  {
    hide WholePrefix;
  }

  /** A character in front of anything is recognised as such. */
  lemma HeadCharacter(c: bytes, t: bytes)
    requires Character(c)
    ensures RuneLength(c + t) == |c|
  {
    assert (c + t)[..|c|] == c;
  }

  /** No character starts with a partial one, whatever follows, unless the continuation completes it. */
  lemma RuneLengthExtends(s: bytes, t: bytes)
    ensures RuneLength(s) > 0 ==> RuneLength(s + t) == RuneLength(s)
    ensures |s| > 0 && RuneLength(s) == 0 && !Partial(s) ==> RuneLength(s + t) == 0 && !Partial(s + t)
  {
  }

  /** Scanning resumes at a character boundary without looking back. */
  lemma {:induction false} ScanResumes(s: bytes, t: bytes)
    requires WholePrefix(s) == |s|
    ensures WholePrefix(s + t) == |s| + WholePrefix(t)
    decreases |s|
  {
    if s == [] {
      assert s + t == t;
    } else {
      var n := RuneLength(s);
      RuneLengthExtends(s, t);
      assert (s + t)[n..] == s[n..] + t;
      ScanResumes(s[n..], t);
    }
  }

  /** What a scan accepts is well formed, is NUL free and is rescanned in full. */
  lemma {:induction false} WholePrefixIsWhole(s: bytes)
    ensures WholePrefix(s[..WholePrefix(s)]) == WholePrefix(s)
    ensures WellFormed(s[..WholePrefix(s)]) && NulFree(s[..WholePrefix(s)])
    decreases |s|
  {
    hide Conforms, LeadLength, NulFree;
    var k := WholePrefix(s);
    if k == 0 {
      assert s[..k] == [];
      EmptyIsWhole();
    } else {
      var c, rest := s[..RuneLength(s)], s[RuneLength(s)..];
      WholePrefixIsWhole(rest);
      CharacterThenWhole(c, rest[..WholePrefix(rest)]);
      assert s[..k] == c + rest[..WholePrefix(rest)];
    }
  }

  lemma EmptyIsWhole()
    ensures WholePrefix([]) == 0 && WellFormed([]) && NulFree([])
  {
  }

  lemma CharacterThenWhole(c: bytes, t: bytes)
    requires Character(c) && c[0] != 0 && WholePrefix(t) == |t| && WellFormed(t) && NulFree(t)
    ensures WholePrefix(c + t) == |c + t| && WellFormed(c + t) && NulFree(c + t)
  {
    HeadCharacter(c, t);
    CharacterNulFree(c);
    assert (c + t)[|c|..] == t;
  }

  lemma CharacterNulFree(c: bytes)
    requires Character(c) && c[0] != 0
    ensures NulFree(c)
  {
  }

  /** A well-formed NUL-free string is scanned in full, so it is always the longest such prefix. */
  lemma {:induction false} WellFormedIsWhole(s: bytes)
    requires WellFormed(s) && NulFree(s)
    ensures WholePrefix(s) == |s|
    decreases |s|
  {
    if s != [] {
      assert NulFree(s[RuneLength(s)..]);
      WellFormedIsWhole(s[RuneLength(s)..]);
    }
  }

  /** Appending bytes never shortens the scan, and a malformed scan stays exactly where it stopped. */
  lemma {:induction false} ScanMonotone(s: bytes, t: bytes)
    ensures WholePrefix(s) <= WholePrefix(s + t)
    ensures !Extensible(s) ==> !Extensible(s + t) && WholePrefix(s + t) == WholePrefix(s)
  {
    hide Conforms, LeadLength, RuneLength, WellFormed, NulFree, Partial;
    var k := WholePrefix(s);
    WholePrefixIsWhole(s);
    assert s + t == s[..k] + (s[k..] + t);
    ScanResumes(s[..k], s[k..] + t);
    if !Extensible(s) {
      StoppedScan(s);
      RuneLengthExtends(s[k..], t);
      StopsThere(s[k..] + t);
      assert (s + t)[k..] == s[k..] + t;
    }
  }

  lemma StopsThere(s: bytes)
    ensures s != [] && (s[0] == 0 || RuneLength(s) == 0) ==> WholePrefix(s) == 0
    ensures s != [] && s[0] == 0 ==> !Partial(s)
  {
  }

  /** Where a scan stops, no NUL-free character starts. */
  lemma {:induction false} StoppedScan(s: bytes)
    ensures var rest := s[WholePrefix(s)..]; rest == [] || rest[0] == 0 || RuneLength(rest) == 0
    decreases |s|
  {
    if WholePrefix(s) > 0 {
      var n := RuneLength(s);
      StoppedScan(s[n..]);
      assert s[WholePrefix(s)..] == s[n..][WholePrefix(s) - n..];
    }
  }

  /** Extensible means what it says: some continuation makes the string well-formed NUL-free UTF-8. */
  lemma {:induction false} ExtensibleMeaning(s: bytes)
    ensures Extensible(s) <==> exists t :: WellFormed(s + t) && NulFree(s + t)
  {
    if Extensible(s) {
      CompletionCompletes(s);
    }
    if t :| WellFormed(s + t) && NulFree(s + t) {
      if !Extensible(s) {
        ScanMonotone(s, t);
        WellFormedIsWhole(s + t);
      }
    }
  }

  lemma CompletionCompletes(s: bytes)
    requires Extensible(s)
    ensures exists t :: WellFormed(s + t) && NulFree(s + t)
  {
    var k := WholePrefix(s);
    WholePrefixIsWhole(s);
    if k == |s| {
      assert s[..k] == s && s + [] == s;
    } else {
      CompletePiece(s[..k], s[k..], Completion(s[k..]));
      assert s == s[..k] + s[k..];
    }
  }

  lemma CompletePiece(whole: bytes, rest: bytes, t: bytes)
    requires WholePrefix(whole) == |whole| && Partial(rest) && Character(rest + t)
    ensures WellFormed(whole + rest + t) && NulFree(whole + rest + t)
  {
    AppendCharacter(whole, rest + t);
    assert whole + rest + t == whole + (rest + t);
  }

  lemma AppendCharacter(s: bytes, c: bytes)
    requires WholePrefix(s) == |s| && Character(c) && c[0] != 0
    ensures WellFormed(s + c) && NulFree(s + c)
  {
    hide Conforms, LeadLength, RuneLength, WholePrefix, WellFormed, NulFree;
    EmptyIsWhole();
    CharacterThenWhole(c, []);
    assert c + [] == c;
    ScanResumes(s, c);
    WholePrefixIsWhole(s + c);
    assert (s + c)[..|s + c|] == s + c;
  }

  /** Bytes that complete a partial character. */
  ghost function Completion(s: bytes): (t: bytes)
    ensures Partial(s) ==> Character(s + t)
    ensures !Partial(s) ==> t == []
  {
    if !Partial(s) then []
    else
      var second := if s[0] == 0xE0 then 0xA0 else if s[0] == 0xF0 then 0x90 else 0x80;
      if |s| == 1 then [second, 0x80, 0x80][..LeadLength(s[0]) - 1] else [0x80, 0x80][..LeadLength(s[0]) - |s|]
  }
}
