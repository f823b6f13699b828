/** The bounded central-directory check `validateZIPDirectory` of internal/safedownload/download.go. */
module ZipDirectory {
  import opened Bytes

  const MAX_ENTRIES := 1000
  const MAX_TAIL := 65557
  const EOCD_SIGNATURE: bytes := [0x50, 0x4B, 0x05, 0x06]
  const HEADER_SIGNATURE: bytes := [0x50, 0x4B, 0x01, 0x02]

  /** Little-endian fields. */
  function Uint16(data: bytes, at: nat): (n: nat)
    requires at + 2 <= |data|
    ensures n < 0x1_0000
  {
    (data[at] as int) + 0x100 * (data[at + 1] as int)
  }

  function Uint32(data: bytes, at: nat): (n: nat)
    requires at + 4 <= |data|
    ensures n < 0x1_0000_0000
  {
    Uint16(data, at) + 0x1_0000 * Uint16(data, at + 2)
  }

  // ----- the format

  /** A central header starts at `pos` and is followed by something no later than `end` allows it to start. */
  predicate HeaderAt(data: bytes, pos: nat, end: nat) {
    pos + 46 <= end <= |data| && OccursAt(data, HEADER_SIGNATURE, pos)
  }

  /** A header with its name, extra field and comment (section 4.3.12 of PKWARE's .ZIP File Format Specification). */
  function HeaderLength(data: bytes, pos: nat): nat
    requires pos + 46 <= |data|
  {
    46 + Uint16(data, pos + 28) + Uint16(data, pos + 30) + Uint16(data, pos + 32)
  }

  /** `starts` lists where `count` consecutive headers start; the last entry is where they all end. */
  ghost predicate Tiling(data: bytes, starts: seq<nat>, offset: nat, end: nat, count: nat) {
    && |starts| == count + 1 && starts[0] == offset && starts[count] == end
    && forall i :: 0 <= i < count ==> HeaderAt(data, starts[i], end) && starts[i + 1] == starts[i] + HeaderLength(data, starts[i])
  }

  /** `count` central headers tile [offset, end) with no gap or excess. */
  ghost predicate Tiles(data: bytes, offset: nat, end: nat, count: nat) {
    exists starts: seq<nat> :: Tiling(data, starts, offset, end, count)
  }

  /** The last end-of-central-directory record of the whole file starts at `at`. */
  ghost predicate LastRecord(data: bytes, at: int) {
    OccursAt(data, EOCD_SIGNATURE, at) && forall j :: at < j ==> !OccursAt(data, EOCD_SIGNATURE, j)
  }

  /** The record at `at` and its comment end the file, it names one disk and a bounded count (section 4.3.16). */
  predicate RecordFits(data: bytes, at: nat) {
    && at + 22 <= |data|
    && at + 22 + Uint16(data, at + 20) == |data|
    && Uint32(data, at + 4) == 0
    && Uint16(data, at + 8) == Uint16(data, at + 10)
    && 0 < Uint16(data, at + 10) <= MAX_ENTRIES
    && Uint32(data, at + 16) + Uint32(data, at + 12) == at
  }

  /** The declared number of central headers tiles the directory without gap or excess, right up to the record. */
  ghost predicate Acceptable(data: bytes) {
    exists at: nat :: LastRecord(data, at) && RecordFits(data, at) && Tiles(data, Uint32(data, at + 16), at, Uint16(data, at + 10))
  }

  // ----- the check

  /** The record the tail search finds is the last of the file, whenever it matters. */
  lemma TailSearchSuffices(data: bytes, start: nat, found: int)
    requires start == (if |data| > MAX_TAIL then |data| - MAX_TAIL else 0)
    requires found < 0 <==> !Contains(data[start..], EOCD_SIGNATURE)
    requires 0 <= found ==> OccursAt(data[start..], EOCD_SIGNATURE, found)
    requires forall j :: found < j ==> !OccursAt(data[start..], EOCD_SIGNATURE, j)
    ensures 0 <= found ==> LastRecord(data, start + found)
    ensures found < 0 ==> forall at: nat :: LastRecord(data, at) ==> !RecordFits(data, at)
  {
    assert data[start..] == data[start..|data|];
    forall i: int ensures OccursAt(data[start..], EOCD_SIGNATURE, i) <==> 0 <= i && OccursAt(data, EOCD_SIGNATURE, start + i) {
      OccursInSlice(data, EOCD_SIGNATURE, start, |data|, i);
    }
    if 0 <= found {
      forall j | start + found < j ensures !OccursAt(data, EOCD_SIGNATURE, j) {
        assert !OccursAt(data[start..], EOCD_SIGNATURE, j - start);
      }
    } else {
      forall at: nat | LastRecord(data, at) ensures !RecordFits(data, at) {
        assert !OccursAt(data[start..], EOCD_SIGNATURE, at - start);
      }
    }
  }

  method ValidateZipDirectory(data: bytes) returns (ok: bool)
    ensures ok <==> Acceptable(data)
  {
    hide LastRecord, Contains;
    var start := if |data| > MAX_TAIL then |data| - MAX_TAIL else 0;
    var found := LastIndex(data[start..], EOCD_SIGNATURE);
    TailSearchSuffices(data, start, found);
    if found < 0 {
      return false;
    }
    var end := found + start;
    OnlyRecord(data, end);
    if end + 22 > |data| {
      return false;
    }
    if end + 22 + Uint16(data, end + 20) != |data| || Uint32(data, end + 4) != 0 {
      return false;
    }
    var count := Uint16(data, end + 10);
    if count == 0 || count > MAX_ENTRIES || Uint16(data, end + 8) != count {
      return false;
    }
    var size, offset := Uint32(data, end + 12), Uint32(data, end + 16);
    if offset + size != end {
      return false;
    }
    ok := TilesDirectory(data, offset, end, count);
  }

  /** Acceptance is decided by the one last record. */
  lemma OnlyRecord(data: bytes, end: nat)
    requires LastRecord(data, end)
    ensures Acceptable(data) <==>
      RecordFits(data, end) && Tiles(data, Uint32(data, end + 16), end, Uint16(data, end + 10))
  {
  }

  /** Walks the headers from `offset`; never looks at a byte outside the directory. */
  method TilesDirectory(data: bytes, offset: nat, end: nat, count: nat) returns (ok: bool)
    requires offset <= end <= |data|
    ensures ok <==> Tiles(data, offset, end, count)
  {
    var pos := offset;
    ghost var starts: seq<nat> := [offset];
    for i := 0 to count
      invariant |starts| == i + 1 && starts[0] == offset && starts[i] == pos
      invariant forall k :: 0 <= k < i ==> HeaderAt(data, starts[k], end) && starts[k + 1] == starts[k] + HeaderLength(data, starts[k])
    {
      if pos + 46 > end || data[pos..pos + 4] != HEADER_SIGNATURE {
        forall other: seq<nat> ensures !Tiling(data, other, offset, end, count) {
          if Tiling(data, other, offset, end, count) {
            SameStart(data, starts, other, offset, end, i, count);
          }
        }
        return false;
      }
      assert OccursAt(data, HEADER_SIGNATURE, pos);
      pos := pos + HeaderLength(data, pos);
      starts := starts + [pos];
    }
    if pos != end {
      forall other: seq<nat> ensures !Tiling(data, other, offset, end, count) {
        if Tiling(data, other, offset, end, count) {
          SameStart(data, starts, other, offset, end, count, count);
        }
      }
      return false;
    }
    assert Tiling(data, starts, offset, end, count);
    return true;
  }

  /** A tiling agrees with the walk for as far as the walk has gone. */
  lemma {:induction false} SameStart(data: bytes, walk: seq<nat>, tiling: seq<nat>, offset: nat, end: nat, i: nat, count: nat)
    requires Tiling(data, tiling, offset, end, count) && i <= count
    requires |walk| > i && walk[0] == offset
    requires forall k :: 0 <= k < i ==> HeaderAt(data, walk[k], end) && walk[k + 1] == walk[k] + HeaderLength(data, walk[k])
    ensures walk[i] == tiling[i] && (i < count ==> HeaderAt(data, walk[i], end))
  {
    if i > 0 {
      SameStart(data, walk, tiling, offset, end, i - 1, count);
    }
  }

  predicate Covers(data: bytes, pos: nat, at: nat) {
    pos + 46 <= |data| && pos <= at < pos + HeaderLength(data, pos)
  }

  /** The headers of a tiling do not overlap and leave no byte of the directory uncovered. */
  lemma {:induction false} TilingCovers(data: bytes, starts: seq<nat>, offset: nat, end: nat, count: nat, at: nat)
    requires Tiling(data, starts, offset, end, count) && offset <= at < end
    ensures exists i: nat :: i < count && Covers(data, starts[i], at)
    ensures forall i, k :: 0 <= i < k < count ==> !(Covers(data, starts[i], at) && Covers(data, starts[k], at))
  {
    var i: nat := 0;
    while starts[i + 1] <= at
      invariant i < count && starts[i] <= at
      decreases count - i
    {
      i := i + 1;
    }
    assert Covers(data, starts[i], at);
    forall i, k | 0 <= i < k < count ensures !(Covers(data, starts[i], at) && Covers(data, starts[k], at)) {
      StartsGrow(data, starts, offset, end, count, i + 1, k);
    }
  }

  lemma {:induction false} StartsGrow(data: bytes, starts: seq<nat>, offset: nat, end: nat, count: nat, i: nat, j: nat)
    requires Tiling(data, starts, offset, end, count) && i <= j <= count
    ensures starts[i] <= starts[j]
    decreases j
  {
    if i < j {
      StartsGrow(data, starts, offset, end, count, i, j - 1);
    }
  }

  // ----- the format as it is written

  function Field16(n: nat): (b: bytes)
    requires n < 0x1_0000
    ensures |b| == 2 && Uint16(b, 0) == n
  {
    [n % 0x100, n / 0x100]
  }

  function Field32(n: nat): (b: bytes)
    requires n < 0x1_0000_0000
    ensures |b| == 4 && Uint32(b, 0) == n
  {
    Field16(n % 0x1_0000) + Field16(n / 0x1_0000)
  }

  /** A field is read from wherever its bytes are. */
  lemma ReadIn(data: bytes, at: nat, end: nat, k: nat)
    requires at <= end <= |data|
    ensures at + k + 2 <= end ==> Uint16(data, at + k) == Uint16(data[at..end], k)
    ensures at + k + 4 <= end ==> Uint32(data, at + k) == Uint32(data[at..end], k)
  {
  }

  lemma Halves(low: nat, high: nat)
    requires low < 0x1_0000
    ensures (low + 0x1_0000 * high) % 0x1_0000 == low && (low + 0x1_0000 * high) / 0x1_0000 == high
  {
  }

  /** The bytes of a field are those its value is written as. */
  lemma Field16Bytes(data: bytes, at: nat)
    requires at + 2 <= |data|
    ensures data[at..at + 2] == Field16(Uint16(data, at))
  {
  }

  lemma Field32Bytes(data: bytes, at: nat)
    requires at + 4 <= |data|
    ensures data[at..at + 4] == Field32(Uint32(data, at))
  {
    hide Uint16, Field16;
    Halves(Uint16(data, at), Uint16(data, at + 2));
    Field16Bytes(data, at);
    Field16Bytes(data, at + 2);
    Joined(data, at, at + 2, at + 4);
  }

  lemma Joined(data: bytes, a: nat, b: nat, c: nat)
    requires a <= b <= c <= |data|
    ensures data[a..b] + data[b..c] == data[a..c]
  {
  }

  /** A central header, in parts: versions, times, checksum and sizes; then the three texts; then attributes and offset. */
  datatype Header = Header(about: bytes, name: bytes, extra: bytes, comment: bytes, attributes: bytes)

  ghost predicate HeaderFits(h: Header) {
    |h.about| == 24 && |h.name| < 0x1_0000 && |h.extra| < 0x1_0000 && |h.comment| < 0x1_0000 && |h.attributes| == 12
  }

  function WriteLengths(name: nat, extra: nat, comment: nat): (b: bytes)
    requires name < 0x1_0000 && extra < 0x1_0000 && comment < 0x1_0000
    ensures |b| == 6 && Uint16(b, 0) == name && Uint16(b, 2) == extra && Uint16(b, 4) == comment
  {
    Field16(name) + Field16(extra) + Field16(comment)
  }

  ghost function WriteHeader(h: Header): (b: bytes)
    requires HeaderFits(h)
  {
    HEADER_SIGNATURE + h.about + WriteLengths(|h.name|, |h.extra|, |h.comment|) + h.attributes + (h.name + h.extra + h.comment)
  }

  ghost function WriteDirectory(headers: seq<Header>): bytes
    requires forall i :: 0 <= i < |headers| ==> HeaderFits(headers[i])
  {
    if headers == [] then [] else WriteHeader(headers[0]) + WriteDirectory(headers[1..])
  }

  function WriteCounts(count: nat, size: nat, offset: nat, comment: nat): (b: bytes)
    requires count < 0x1_0000 && size < 0x1_0000_0000 && offset < 0x1_0000_0000 && comment < 0x1_0000
    ensures |b| == 18 && Uint32(b, 0) == 0 && Uint16(b, 4) == Uint16(b, 6) == count
    ensures Uint32(b, 8) == size && Uint32(b, 12) == offset && Uint16(b, 16) == comment
  {
    [0, 0, 0, 0] + Field16(count) + Field16(count) + Field32(size) + Field32(offset) + Field16(comment)
  }

  /** What precedes the directory, the headers of the entries, and the comment on the archive. */
  datatype Zip = Zip(body: bytes, headers: seq<Header>, comment: bytes)

  ghost predicate ZipFits(z: Zip) {
    && 0 < |z.headers| <= MAX_ENTRIES && |z.body| < 0x1_0000_0000 && |z.comment| < 0x1_0000
    && (forall i :: 0 <= i < |z.headers| ==> HeaderFits(z.headers[i]))
    && |WriteDirectory(z.headers)| < 0x1_0000_0000
  }

  ghost function WriteRecord(z: Zip): bytes
    requires ZipFits(z)
  {
    EOCD_SIGNATURE + WriteCounts(|z.headers|, |WriteDirectory(z.headers)|, |z.body|, |z.comment|) + z.comment
  }

  ghost function WriteZip(z: Zip): bytes
    requires ZipFits(z)
  {
    z.body + WriteDirectory(z.headers) + WriteRecord(z)
  }

  /** `data` is an archive that fits, written out, and nothing in its record looks like a later one. */
  ghost predicate Written(data: bytes, z: Zip) {
    ZipFits(z) && data == WriteZip(z) && !Contains(WriteRecord(z)[1..], EOCD_SIGNATURE)
  }

  lemma HeaderWritten(h: Header)
    requires HeaderFits(h)
    ensures var b := WriteHeader(h);
      && |b| >= 46 && b[..4] == HEADER_SIGNATURE && HeaderLength(b, 0) == |b|
  {
    var b, lengths := WriteHeader(h), WriteLengths(|h.name|, |h.extra|, |h.comment|);
    assert b[28..34] == lengths;
    ReadIn(b, 28, 34, 0);
    ReadIn(b, 28, 34, 2);
    ReadIn(b, 28, 34, 4);
  }

  /** Bytes that start with the signature and have the length they declare are a header written out. */
  lemma HeaderForm(b: bytes) returns (h: Header)
    requires |b| >= 46 && b[..4] == HEADER_SIGNATURE && HeaderLength(b, 0) == |b|
    ensures HeaderFits(h) && WriteHeader(h) == b
  {
    var n, e, c := Uint16(b, 28), Uint16(b, 30), Uint16(b, 32);
    h := Header(b[4..28], b[46..46 + n], b[46 + n..46 + n + e], b[46 + n + e..], b[34..46]);
    LengthsForm(b[28..34]);
    ReadIn(b, 28, 34, 0);
    ReadIn(b, 28, 34, 2);
    ReadIn(b, 28, 34, 4);
    TextsForm(b, n, e);
    assert WriteHeader(h) == b[..4] + b[4..28] + b[28..34] + b[34..46] + b[46..];
    FiveParts(b);
  }

  lemma LengthsForm(b: bytes)
    requires |b| == 6
    ensures b == WriteLengths(Uint16(b, 0), Uint16(b, 2), Uint16(b, 4))
  {
    hide Uint16, Field16;
    Field16Bytes(b, 0);
    Field16Bytes(b, 2);
    Field16Bytes(b, 4);
    Joined(b, 0, 2, 4);
    Joined(b, 0, 4, 6);
    assert b[0..6] == b;
  }

  lemma TextsForm(b: bytes, n: nat, e: nat)
    requires 46 + n + e <= |b|
    ensures b[46..46 + n] + b[46 + n..46 + n + e] + b[46 + n + e..] == b[46..]
  {
    Joined(b, 46, 46 + n, 46 + n + e);
    Joined(b, 46, 46 + n + e, |b|);
  }

  lemma FiveParts(b: bytes)
    requires |b| >= 46
    ensures b[..4] + b[4..28] + b[28..34] + b[34..46] + b[46..] == b
  {
    Joined(b, 0, 4, 28);
    Joined(b, 0, 28, 34);
    Joined(b, 0, 34, 46);
    Joined(b, 0, 46, |b|);
    assert b[0..|b|] == b;
  }

  lemma {:induction false} DirectoryTiles(data: bytes, headers: seq<Header>, offset: nat, end: nat)
    requires forall i :: 0 <= i < |headers| ==> HeaderFits(headers[i])
    requires offset <= end <= |data| && data[offset..end] == WriteDirectory(headers)
    ensures Tiles(data, offset, end, |headers|)
    decreases |headers|
  {
    hide WriteHeader;
    if headers == [] {
      assert Tiling(data, [offset], offset, end, 0);
    } else {
      var b := WriteHeader(headers[0]);
      HeaderWritten(headers[0]);
      var next := offset + |b|;
      assert data[offset..next] == data[offset..end][..|b|] == b;
      assert data[next..end] == data[offset..end][|b|..] == WriteDirectory(headers[1..]);
      HeaderInData(data, offset, next, end);
      DirectoryTiles(data, headers[1..], next, end);
      var rest: seq<nat> :| Tiling(data, rest, next, end, |headers| - 1);
      TilingStep(data, rest, offset, next, end, |headers| - 1);
    }
  }

  lemma TilingStep(data: bytes, rest: seq<nat>, offset: nat, next: nat, end: nat, count: nat)
    requires HeaderAt(data, offset, end) && next == offset + HeaderLength(data, offset) && Tiling(data, rest, next, end, count)
    ensures Tiles(data, offset, end, count + 1)
  {
    hide HeaderAt, HeaderLength;
    var starts := [offset] + rest;
    assert Tiling(data, starts, offset, end, count + 1);
  }

  lemma HeaderInData(data: bytes, offset: nat, next: nat, end: nat)
    requires offset + 46 <= next <= end <= |data|
    ensures var b := data[offset..next];
      (b[..4] == HEADER_SIGNATURE && HeaderLength(b, 0) == |b|) <==> HeaderAt(data, offset, end) && next == offset + HeaderLength(data, offset)
  {
    hide Uint16;
    ReadIn(data, offset, next, 28);
    ReadIn(data, offset, next, 30);
    ReadIn(data, offset, next, 32);
    assert data[offset..next][..4] == data[offset..offset + 4];
  }

  lemma {:induction false} TilingWritten(data: bytes, starts: seq<nat>, offset: nat, end: nat, count: nat) returns (headers: seq<Header>)
    requires Tiling(data, starts, offset, end, count) && end <= |data|
    ensures |headers| == count && (forall i :: 0 <= i < |headers| ==> HeaderFits(headers[i]))
    ensures offset <= end && data[offset..end] == WriteDirectory(headers)
    decreases count
  {
    hide HeaderFits, WriteHeader;
    StartsGrow(data, starts, offset, end, count, 0, count);
    if count == 0 {
      headers := [];
    } else {
      var next := starts[1];
      StartsGrow(data, starts, offset, end, count, 1, count);
      HeaderInData(data, offset, next, end);
      var h := HeaderForm(data[offset..next]);
      var rest := TilingWritten(data, starts[1..], next, end, count - 1);
      headers := [h] + rest;
      assert headers[1..] == rest && data[offset..end] == data[offset..next] + data[next..end];
    }
  }

  /** Where the record of a written archive starts, and what it says. */
  lemma WrittenRecord(z: Zip)
    requires ZipFits(z)
    ensures var data, directory := WriteZip(z), WriteDirectory(z.headers); var at := |z.body| + |directory|;
      && RecordFits(data, at) && Uint32(data, at + 16) == |z.body| && Uint16(data, at + 10) == |z.headers|
      && OccursAt(data, EOCD_SIGNATURE, at) && data[at..] == WriteRecord(z) && data[|z.body|..at] == directory
  {
    hide WriteDirectory, Uint16, Uint32, WriteCounts;
    var data, record, at := WriteZip(z), WriteRecord(z), |z.body| + |WriteDirectory(z.headers)|;
    var counts := WriteCounts(|z.headers|, |WriteDirectory(z.headers)|, |z.body|, |z.comment|);
    assert data[at + 4..at + 22] == counts;
    assert data[at..at + 4] == EOCD_SIGNATURE;
    ReadIn(data, at + 4, at + 22, 0);
    ReadIn(data, at + 4, at + 22, 4);
    ReadIn(data, at + 4, at + 22, 6);
    ReadIn(data, at + 4, at + 22, 8);
    ReadIn(data, at + 4, at + 22, 12);
    ReadIn(data, at + 4, at + 22, 16);
  }

  lemma CountsForm(b: bytes)
    requires |b| == 18 && Uint32(b, 0) == 0 && Uint16(b, 4) == Uint16(b, 6)
    ensures b == WriteCounts(Uint16(b, 6), Uint32(b, 8), Uint32(b, 12), Uint16(b, 16))
  {
    hide Uint16, Uint32, Field16, Field32;
    NoDisk(b);
    Field16Bytes(b, 4);
    Field16Bytes(b, 6);
    Field32Bytes(b, 8);
    Field32Bytes(b, 12);
    Field16Bytes(b, 16);
    Joined(b, 0, 4, 6);
    Joined(b, 0, 6, 8);
    Joined(b, 0, 8, 12);
    Joined(b, 0, 12, 16);
    Joined(b, 0, 16, 18);
    assert b[0..18] == b;
  }

  lemma NoDisk(b: bytes)
    requires |b| >= 4 && Uint32(b, 0) == 0
    ensures b[0..4] == [0, 0, 0, 0]
  {
  }

  /** A record that fits is one written out. */
  lemma RecordForm(data: bytes, at: nat)
    requires RecordFits(data, at) && OccursAt(data, EOCD_SIGNATURE, at)
    ensures data[at..] == EOCD_SIGNATURE
      + WriteCounts(Uint16(data, at + 10), Uint32(data, at + 12), Uint32(data, at + 16), Uint16(data, at + 20)) + data[at + 22..]
  {
    hide Uint16, Uint32, WriteCounts;
    ReadIn(data, at + 4, at + 22, 0);
    ReadIn(data, at + 4, at + 22, 4);
    ReadIn(data, at + 4, at + 22, 6);
    ReadIn(data, at + 4, at + 22, 8);
    ReadIn(data, at + 4, at + 22, 12);
    ReadIn(data, at + 4, at + 22, 16);
    CountsForm(data[at + 4..at + 22]);
    Joined(data, at, at + 4, at + 22);
    Joined(data, at, at + 22, |data|);
  }

  lemma OccursLater(data: bytes, at: nat, j: int)
    requires at < j && at < |data|
    ensures OccursAt(data[at..][1..], EOCD_SIGNATURE, j - at - 1) <==> OccursAt(data, EOCD_SIGNATURE, j)
  {
    assert data[at..][1..] == data[at + 1..|data|];
    OccursInSlice(data, EOCD_SIGNATURE, at + 1, |data|, j - at - 1);
  }

  /** Nothing after its first byte looks like a record exactly if no later record starts in the file. */
  lemma NoLaterRecord(data: bytes, at: nat)
    requires OccursAt(data, EOCD_SIGNATURE, at)
    ensures LastRecord(data, at) <==> !Contains(data[at..][1..], EOCD_SIGNATURE)
  {
    if !LastRecord(data, at) {
      var j :| at < j && OccursAt(data, EOCD_SIGNATURE, j);
      OccursLater(data, at, j);
    } else if Contains(data[at..][1..], EOCD_SIGNATURE) {
      var i :| OccursAt(data[at..][1..], EOCD_SIGNATURE, i);
      OccursLater(data, at, at + 1 + i);
    }
  }

  /** Exactly the archives that a writer of the format writes, within the bounds, are accepted. */
  lemma AcceptableIsWritten(data: bytes)
    ensures Acceptable(data) <==> exists z :: Written(data, z)
  {
    if Acceptable(data) {
      var z := AcceptedWritten(data);
    }
    if z :| Written(data, z) {
      WrittenAccepted(data, z);
    }
  }

  lemma WrittenAccepted(data: bytes, z: Zip)
    requires Written(data, z)
    ensures Acceptable(data)
  {
    hide WriteDirectory, WriteRecord, WriteZip, LastRecord, Contains, HeaderFits;
    WrittenRecord(z);
    var at := |z.body| + |WriteDirectory(z.headers)|;
    NoLaterRecord(data, at);
    DirectoryTiles(data, z.headers, |z.body|, at);
  }

  lemma AcceptedWritten(data: bytes) returns (z: Zip)
    requires Acceptable(data)
    ensures Written(data, z)
  {
    hide WriteDirectory, LastRecord, Contains, HeaderFits, WriteCounts, Uint16, Uint32, Tiling;
    var at: nat :| LastRecord(data, at) && RecordFits(data, at) && Tiles(data, Uint32(data, at + 16), at, Uint16(data, at + 10));
    var offset, size, count := Uint32(data, at + 16), Uint32(data, at + 12), Uint16(data, at + 10);
    var starts: seq<nat> :| Tiling(data, starts, offset, at, count);
    LastOccurs(data, at);
    var headers := TilingWritten(data, starts, offset, at, count);
    z := Zip(data[..offset], headers, data[at + 22..]);
    RecordForm(data, at);
    NoLaterRecord(data, at);
    Joined(data, 0, offset, at);
    Joined(data, 0, at, |data|);
    assert data[0..|data|] == data;
  }

  lemma LastOccurs(data: bytes, at: nat)
    requires LastRecord(data, at)
    ensures OccursAt(data, EOCD_SIGNATURE, at)
  {
  }
}
