/** Truncation of provider text at a character boundary (internal/product/normalize.go). */
module BoundedText {
  import opened Bytes
  import opened Utf8
  import opened Wrappers

  /** "…[truncated]": the ellipsis takes three bytes. */
  const MARKER: bytes := [0xE2, 0x80, 0xA6, 0x5B, 0x74, 0x72, 0x75, 0x6E, 0x63, 0x61, 0x74, 0x65, 0x64, 0x5D]

  predicate ValidText(value: bytes, required: bool) {
    (required ==> value != []) && WellFormed(value) && NulFree(value)
  }

  /** Room that the marker leaves under a limit. */
  function Room(maxBytes: int): nat {
    if maxBytes < |MARKER| then 0 else maxBytes - |MARKER|
  }

  /** A text within the limit is kept; a longer one keeps its longest whole-character prefix that leaves room for the marker. */
  function Bounded(value: bytes, maxBytes: int): (text: bytes) {
    if maxBytes < 0 || |value| <= maxBytes then value
    else value[..WholePrefix(value[..Room(maxBytes)])] + MARKER
  }

  predicate Cut(value: bytes, maxBytes: int) {
    0 <= maxBytes < |value|
  }

  /** In well-formed text a byte starts a character exactly when the bytes before it are whole characters. */
  lemma {:induction false} RuneStartIsBoundary(s: bytes, i: nat)
    requires WellFormed(s) && NulFree(s) && i < |s|
    ensures !Continuation(s[i]) <==> WholePrefix(s[..i]) == i
    decreases |s|
  {
    var n := RuneLength(s);
    if i > 0 && i < n {
      InsideCharacter(s, i);
    } else if n <= i {
      RuneStartIsBoundary(s[n..], i - n);
      assert s[..i] == s[..n] + s[n..][..i - n];
      CharacterIsWhole(s[..n]);
      ScanResumes(s[..n], s[n..][..i - n]);
    }
  }

  /** A character cut short is scanned as nothing. */
  lemma InsideCharacter(s: bytes, i: nat)
    requires 0 < i < RuneLength(s) && s[0] != 0
    ensures Continuation(s[i]) && WholePrefix(s[..i]) == 0
  {
  }

  lemma CharacterIsWhole(c: bytes)
    requires Character(c) && c[0] != 0
    ensures WholePrefix(c) == |c|
  {
  }

  /** Walking back to the start of a character finds the longest whole-character prefix. */
  method BoundText(value: bytes, maxBytes: int, required: bool) returns (r: Option<bytes>, cut: bool)
    ensures r.Some? <==> ValidText(value, required)
    ensures r.Some? ==> r.value == Bounded(value, maxBytes) && cut == Cut(value, maxBytes)
  {
    hide WellFormed, NulFree, WholePrefix;
    if !ValidText(value, required) {
      return None, false;
    }
    if maxBytes < 0 || |value| <= maxBytes {
      return Some(value), false;
    }
    var at := if maxBytes < |MARKER| then 0 else maxBytes - |MARKER|;
    ghost var room := at;
    BoundaryBelow(value, room);
    while at > 0 && Continuation(value[at])
      invariant WholePrefix(value[..room]) <= at <= room
    {
      RuneStartIsBoundary(value, at);
      BoundaryAgain(value, room);
      at := at - 1;
    }
    RuneStartIsBoundary(value, at);
    BoundaryAgain(value, room);
    ScanPrefix(value, at, room);
    return Some(value[..at] + MARKER), true;
  }

  lemma BoundaryBelow(s: bytes, room: nat)
    requires room <= |s|
    ensures WholePrefix(s[..room]) <= room
  {
  }

  /** The longest whole-character prefix is itself scanned in full. */
  lemma BoundaryAgain(s: bytes, room: nat)
    requires room <= |s|
    ensures WholePrefix(s[..WholePrefix(s[..room])]) == WholePrefix(s[..room])
  {
    WholePrefixIsWhole(s[..room]);
    assert s[..room][..WholePrefix(s[..room])] == s[..WholePrefix(s[..room])];
  }

  lemma ScanPrefix(s: bytes, k: nat, room: nat)
    requires k <= room <= |s|
    ensures WholePrefix(s[..k]) <= WholePrefix(s[..room])
    ensures WholePrefix(s[..0]) == 0
  {
    ScanMonotone(s[..k], s[k..room]);
    assert s[..k] + s[k..room] == s[..room];
  }

  /** What a bounded text promises: valid, within the limit once the marker fits, and unchanged when it fits as it is. */
  lemma BoundedPromises(value: bytes, maxBytes: int)
    requires ValidText(value, false)
    ensures var text := Bounded(value, maxBytes);
      && WellFormed(text) && NulFree(text) && (value != [] ==> text != [])
      && (|MARKER| <= maxBytes ==> |text| <= maxBytes)
      && (|value| <= maxBytes ==> text == value)
  {
    hide WellFormed, NulFree, WholePrefix;
    if Cut(value, maxBytes) {
      CutIsWhole(value, Room(maxBytes));
    }
  }

  lemma CutIsWhole(value: bytes, room: nat)
    requires room <= |value|
    ensures var text := value[..WholePrefix(value[..room])] + MARKER; WellFormed(text) && NulFree(text)
  {
    hide *;
    BoundaryAgain(value, room);
    MarkerFits(value[..WholePrefix(value[..room])]);
  }

  lemma MarkerFits(kept: bytes)
    requires WholePrefix(kept) == |kept|
    ensures WellFormed(kept + MARKER) && NulFree(kept + MARKER)
  {
    hide *;
    var text := kept + MARKER;
    MarkerIsWhole();
    ScanResumes(kept, MARKER);
    WholePrefixIsWhole(text);
    assert text[..|text|] == text;
  }

  /** A cut text keeps as much as the limit allows: no longer whole-character prefix leaves room for the marker. */
  lemma CutKeepsTheMost(value: bytes, maxBytes: int, k: nat)
    requires ValidText(value, false) && Cut(value, maxBytes) && k <= Room(maxBytes) && WellFormed(value[..k])
    ensures var text := Bounded(value, maxBytes); var kept := |text| - |MARKER|;
      0 <= kept && text == value[..kept] + MARKER && k <= kept
  {
    hide WellFormed, WholePrefix;
    WellFormedIsWhole(value[..k]);
    ScanPrefix(value, k, Room(maxBytes));
  }

  /** A cut text is a beginning with the marker, and at most three bytes short of the limit. */
  lemma CutLosesLittle(value: bytes, maxBytes: int)
    requires ValidText(value, false) && Cut(value, maxBytes) && |MARKER| <= maxBytes
    ensures var text := Bounded(value, maxBytes); var kept := |text| - |MARKER|;
      maxBytes - 3 <= |text| <= maxBytes && 0 <= kept <= |value| && text == value[..kept] + MARKER
  {
    hide WellFormed, NulFree, WholePrefix, Extensible;
    var room := Room(maxBytes);
    assert value[..room] + value[room..] == value;
    ExtensibleMeaning(value[..room]);
    PartialIsShort(value[..room]);
  }

  lemma MarkerIsWhole()
    ensures WholePrefix(MARKER) == |MARKER|
  {
    var ellipsis := MARKER[..3];
    var ascii := MARKER[3..];
    CharacterIsWhole(ellipsis);
    AsciiIsWhole(ascii);
    ScanResumes(ellipsis, ascii);
    assert MARKER == ellipsis + ascii;
  }

  lemma {:induction false} AsciiIsWhole(s: bytes)
    requires forall i :: 0 <= i < |s| ==> 0 < s[i] < 0x80
    ensures WholePrefix(s) == |s|
  {
    if s != [] {
      AsciiIsWhole(s[1..]);
    }
  }
}
