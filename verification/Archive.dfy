/** The archive inspection `inspectArchive` of internal/safedownload/download.go and the tree its acceptance guarantees. */
module Archive {
  import opened Bytes
  import opened Sorting
  import opened Fields
  import opened Paths
  import ZipDirectory
  import opened Wrappers

  const MAX_ARCHIVE_BYTES := 67108864
  const MAX_EXPANDED_BYTES := 268435456
  const MAX_DIRECTORIES := 128
  const MAX_NAME := 1024

  /** One entry as archive/zip reports it: `plain` is a regular file or directory mode, `actual` what reading it yields. */
  datatype ZipFile = ZipFile(name: string, dir: bool, plain: bool, encrypted: bool, compressed: nat, uncompressed: nat, readable: bool, actual: nat)

  datatype Entry = Entry(name: string, dir: bool)

  datatype Receipt = Receipt(files: nat, bytes: nat)

  /** A context that is found canceled after some number of checks. */
  class Context {
    var checks: nat
    var canceled: bool

    constructor (checks: nat)
      ensures this.checks == checks && !canceled
    {
      this.checks, canceled := checks, false;
    }

    method Err() returns (stop: bool)
      modifies this
      ensures stop == canceled && (old(canceled) ==> canceled)
    {
      if checks == 0 {
        canceled := true;
      } else {
        checks := checks - 1;
      }
      return canceled;
    }
  }

  /** A name accepted for a single staged file. */
  predicate PlainName(name: string) {
    ValidName(name) && '/' !in name
  }

  // ----- the paths an archive mentions

  /** A path that creating an entry mentions: its ancestors, as directories, and itself. */
  datatype Mention = Mention(path: string, dir: bool, explicit: bool)

  function Mentions(e: Entry): (ms: seq<Mention>)
    ensures |ms| == |Split(e.name)|
    ensures forall i :: 0 <= i < |ms| ==> ms[i] == Mention(Ancestor(e.name, i + 1), i + 1 < |ms| || e.dir, i + 1 == |ms|)
  {
    var n := |Split(e.name)|;
    seq(n, i requires 0 <= i < n => Mention(Ancestor(e.name, i + 1), i + 1 < n || e.dir, i + 1 == n))
  }

  function AllMentions(entries: seq<Entry>): seq<Mention> {
    if entries == [] then [] else AllMentions(entries[..|entries| - 1]) + Mentions(entries[|entries| - 1])
  }

  /** Two mentions collide when they agree up to case but not in spelling or kind, or are both entries of their own. */
  predicate Collide(a: Mention, b: Mention) {
    Lower(a.path) == Lower(b.path) && (a.path != b.path || a.dir != b.dir || (a.explicit && b.explicit))
  }

  ghost predicate Consistent(ms: seq<Mention>) {
    forall i, j :: 0 <= i < j < |ms| ==> !Collide(ms[i], ms[j])
  }

  // ----- the collision table

  datatype Seen = Seen(name: string, dir: bool, explicit: bool)

  ghost predicate Known(seen: map<string, Seen>, m: Mention) {
    var key := Lower(m.path);
    key in seen && seen[key].name == m.path && seen[key].dir == m.dir && (m.explicit ==> seen[key].explicit)
  }

  ghost predicate Witnessed(seen: map<string, Seen>, ms: seq<Mention>, key: string)
    requires key in seen
  {
    exists i :: 0 <= i < |ms| && Lower(ms[i].path) == key && (seen[key].explicit ==> ms[i].explicit)
  }

  /** The table records exactly the mentions made so far. */
  ghost predicate Table(seen: map<string, Seen>, ms: seq<Mention>) {
    && (forall i :: 0 <= i < |ms| ==> Known(seen, ms[i]))
    && (forall key :: key in seen ==> Witnessed(seen, ms, key))
  }

  predicate Rejected(seen: map<string, Seen>, m: Mention) {
    var key := Lower(m.path);
    key in seen && (seen[key].name != m.path || seen[key].dir != m.dir || (m.explicit && seen[key].explicit))
  }

  function Record(seen: map<string, Seen>, m: Mention): map<string, Seen> {
    var key := Lower(m.path);
    seen[key := Seen(m.path, m.dir, m.explicit || (key in seen && seen[key].explicit))]
  }

  /** The table rejects a mention exactly when it collides with one made before. */
  lemma TableDecides(seen: map<string, Seen>, ms: seq<Mention>, m: Mention)
    requires Table(seen, ms)
    ensures Rejected(seen, m) <==> exists i :: 0 <= i < |ms| && Collide(ms[i], m)
  {
  }

  lemma TableRecords(seen: map<string, Seen>, ms: seq<Mention>, m: Mention)
    requires Table(seen, ms) && !Rejected(seen, m)
    ensures Table(Record(seen, m), ms + [m])
  {
    var seen', ms' := Record(seen, m), ms + [m];
    forall i | 0 <= i < |ms'| ensures Known(seen', ms'[i]) {
      if i < |ms| { assert Known(seen, ms[i]); }
    }
    forall key | key in seen' ensures Witnessed(seen', ms', key) {
      if key in seen && (key != Lower(m.path) || seen[key].explicit) {
        assert Witnessed(seen, ms, key);
        var i :| 0 <= i < |ms| && Lower(ms[i].path) == key && (seen[key].explicit ==> ms[i].explicit);
        assert ms'[i] == ms[i];
      } else {
        assert ms'[|ms|] == m;
      }
    }
  }

  lemma ConsistentSnoc(ms: seq<Mention>, m: Mention)
    ensures Consistent(ms + [m]) <==> Consistent(ms) && forall i :: 0 <= i < |ms| ==> !Collide(ms[i], m)
  {
    var all := ms + [m];
    if Consistent(all) {
      forall i | 0 <= i < |ms| ensures !Collide(ms[i], m) {
        assert !Collide(all[i], all[|ms|]);
      }
      forall i, j | 0 <= i < j < |ms| ensures !Collide(ms[i], ms[j]) {
        assert !Collide(all[i], all[j]);
      }
    }
  }

  lemma ConsistentPrefix(a: seq<Mention>, b: seq<Mention>)
    requires Consistent(a + b)
    ensures Consistent(a)
  {
    forall i, j | 0 <= i < j < |a| ensures !Collide(a[i], a[j]) {
      assert !Collide((a + b)[i], (a + b)[j]);
    }
  }

  /** Enters the paths of one entry into the table, ancestors first. */
  method RecordPaths(seen: map<string, Seen>, entry: Entry, ghost before: seq<Mention>) returns (ok: bool, seen': map<string, Seen>)
    requires Table(seen, before) && Consistent(before)
    ensures ok <==> Consistent(before + Mentions(entry))
    ensures ok ==> Table(seen', before + Mentions(entry))
  {
    hide Table, Rejected, Record, Collide, Consistent;
    var parts := Split(entry.name);
    ghost var ms := Mentions(entry);
    ok, seen' := true, seen;
    assert before + ms[..0] == before;
    for i := 1 to |parts| + 1
      invariant Table(seen', before + ms[..i - 1]) && Consistent(before + ms[..i - 1])
    {
      var m := Mention(Join(parts[..i]), i < |parts| || entry.dir, i == |parts|);
      ghost var done := before + ms[..i - 1];
      assert m == ms[i - 1] && done + [m] == before + ms[..i];
      TableDecides(seen', done, m);
      ConsistentSnoc(done, m);
      if Rejected(seen', m) {
        assert before + ms == (done + [m]) + ms[i..];
        if Consistent(before + ms) { ConsistentPrefix(done + [m], ms[i..]); }
        return false, seen';
      }
      TableRecords(seen', done, m);
      seen' := Record(seen', m);
    }
    assert ms[..|parts|] == ms;
  }

  // ----- what acceptance guarantees

  lemma {:induction false} MentionAt(entries: seq<Entry>, e: nat, n: nat) returns (at: nat)
    requires e < |entries| && 0 < n <= |Split(entries[e].name)|
    ensures at == Offset(entries, e) + n - 1 < |AllMentions(entries)| && AllMentions(entries)[at] == Mentions(entries[e])[n - 1]
    decreases |entries|
  {
    var last := |entries| - 1;
    if e == last {
      at := |AllMentions(entries[..last])| + n - 1;
    } else {
      at := MentionAt(entries[..last], e, n);
      assert entries[..last][..e] == entries[..e];
    }
  }

  /** Where the mentions of entry `e` start. */
  ghost function Offset(entries: seq<Entry>, e: nat): nat
    requires e <= |entries|
  {
    |AllMentions(entries[..e])|
  }

  lemma {:induction false} OffsetsGrow(entries: seq<Entry>, a: nat, b: nat)
    requires a < b <= |entries|
    ensures Offset(entries, a) + |Split(entries[a].name)| <= Offset(entries, b)
    decreases b
  {
    assert entries[..b][..b - 1] == entries[..b - 1];
    assert entries[..b][b - 1] == entries[b - 1];
    if a < b - 1 {
      OffsetsGrow(entries, a, b - 1);
    }
  }

  /** Different mentions of a consistent archive do not collide, whichever entries they come from. */
  lemma NoCollision(entries: seq<Entry>, a: nat, m: nat, b: nat, n: nat)
    requires Consistent(AllMentions(entries)) && a < |entries| && b < |entries|
    requires 0 < m <= |Split(entries[a].name)| && 0 < n <= |Split(entries[b].name)| && (a != b || m != n)
    ensures !Collide(Mentions(entries[a])[m - 1], Mentions(entries[b])[n - 1])
  {
    hide Consistent;
    var i := MentionAt(entries, a, m);
    var j := MentionAt(entries, b, n);
    if a < b {
      OffsetsGrow(entries, a, b);
    } else if b < a {
      OffsetsGrow(entries, b, a);
    }
    DistinctDoNotCollide(AllMentions(entries), i, j);
  }

  lemma DistinctDoNotCollide(ms: seq<Mention>, i: nat, j: nat)
    requires Consistent(ms) && i < |ms| && j < |ms| && i != j
    ensures !Collide(ms[i], ms[j])
  {
  }

  /** An accepted archive is a tree even when letter case is ignored. */
  ghost predicate IsTree(entries: seq<Entry>) {
    // no two entries are equal
    && (forall a, b :: 0 <= a < b < |entries| ==> Lower(entries[a].name) != Lower(entries[b].name))
    // an entry that is an ancestor of another is a directory, spelled alike
    && (forall a, b, n :: 0 <= a < |entries| && 0 <= b < |entries| && 0 < n < |Split(entries[b].name)|
          && Lower(entries[a].name) == Lower(Ancestor(entries[b].name, n))
          ==> entries[a].dir && entries[a].name == Ancestor(entries[b].name, n))
    // shared directories have one spelling
    && (forall a, b, m, n :: 0 <= a < |entries| && 0 <= b < |entries| && 0 < m < |Split(entries[a].name)| && 0 < n < |Split(entries[b].name)|
          && Lower(Ancestor(entries[a].name, m)) == Lower(Ancestor(entries[b].name, n))
          ==> Ancestor(entries[a].name, m) == Ancestor(entries[b].name, n))
  }

  lemma ConsistentIsTree(entries: seq<Entry>)
    requires Consistent(AllMentions(entries))
    ensures IsTree(entries)
  {
    forall a, b | 0 <= a < b < |entries| ensures Lower(entries[a].name) != Lower(entries[b].name) {
      AncestorParts(entries[a].name, |Split(entries[a].name)|);
      AncestorParts(entries[b].name, |Split(entries[b].name)|);
      NoCollision(entries, a, |Split(entries[a].name)|, b, |Split(entries[b].name)|);
    }
    forall a, b, n | 0 <= a < |entries| && 0 <= b < |entries| && 0 < n < |Split(entries[b].name)|
          && Lower(entries[a].name) == Lower(Ancestor(entries[b].name, n))
      ensures entries[a].dir && entries[a].name == Ancestor(entries[b].name, n)
    {
      var m := |Split(entries[a].name)|;
      AncestorParts(entries[a].name, m);
      if a != b || m != n {
        NoCollision(entries, a, m, b, n);
      }
    }
    forall a, b, m, n | 0 <= a < |entries| && 0 <= b < |entries| && 0 < m < |Split(entries[a].name)| && 0 < n < |Split(entries[b].name)|
          && Lower(Ancestor(entries[a].name, m)) == Lower(Ancestor(entries[b].name, n))
      ensures Ancestor(entries[a].name, m) == Ancestor(entries[b].name, n)
    {
      if a != b || m != n {
        NoCollision(entries, a, m, b, n);
      }
    }
  }

  lemma {:induction false} MentionFrom(entries: seq<Entry>, i: nat) returns (e: nat, n: nat)
    requires i < |AllMentions(entries)|
    ensures e < |entries| && 0 < n <= |Split(entries[e].name)| && AllMentions(entries)[i] == Mentions(entries[e])[n - 1]
    ensures i == Offset(entries, e) + n - 1
    decreases |entries|
  {
    var last := |entries| - 1;
    var before := |AllMentions(entries[..last])|;
    if i < before {
      e, n := MentionFrom(entries[..last], i);
      assert entries[..last][..e] == entries[..e];
    } else {
      e, n := last, i - before + 1;
    }
  }

  lemma AncestorsGrow(name: string, m: nat, n: nat)
    requires 0 < m < n <= |Split(name)|
    ensures |Ancestor(name, m)| < |Ancestor(name, n)|
    decreases n
  {
    var parts := Split(name);
    JoinSnoc(parts[..n - 1], parts[n - 1]);
    assert parts[..n] == parts[..n - 1] + [parts[n - 1]];
    if m < n - 1 {
      AncestorsGrow(name, m, n - 1);
    }
  }

  /** And only trees are accepted: the collision table refuses nothing else. */
  lemma TreeIsConsistent(entries: seq<Entry>)
    requires IsTree(entries)
    ensures Consistent(AllMentions(entries))
  {
    var ms := AllMentions(entries);
    forall i, j | 0 <= i < j < |ms| ensures !Collide(ms[i], ms[j]) {
      var a, m := MentionFrom(entries, i);
      var b, n := MentionFrom(entries, j);
      TreeMentions(entries, a, m, b, n);
    }
  }

  lemma TreeMentions(entries: seq<Entry>, a: nat, m: nat, b: nat, n: nat)
    requires IsTree(entries) && a < |entries| && b < |entries|
    requires 0 < m <= |Split(entries[a].name)| && 0 < n <= |Split(entries[b].name)| && (a != b || m != n)
    ensures !Collide(Mentions(entries[a])[m - 1], Mentions(entries[b])[n - 1])
  {
    AncestorParts(entries[a].name, m);
    AncestorParts(entries[b].name, n);
    if a == b {
      if m < n { AncestorsGrow(entries[a].name, m, n); } else { AncestorsGrow(entries[a].name, n, m); }
    }
  }

  // ----- counting paths

  ghost function MentionedPaths(ms: seq<Mention>): set<string> {
    set i | 0 <= i < |ms| :: ms[i].path
  }

  ghost function DirectoryPaths(ms: seq<Mention>): set<string> {
    set i | 0 <= i < |ms| && ms[i].dir :: ms[i].path
  }

  lemma {:induction false} LowerKeepsSize(s: set<string>)
    requires forall x, y :: x in s && y in s && Lower(x) == Lower(y) ==> x == y
    ensures |set x | x in s :: Lower(x)| == |s|
  {
    if s != {} {
      var x :| x in s;
      var rest := s - {x};
      LowerKeepsSize(rest);
      assert (set y | y in s :: Lower(y)) == (set y | y in rest :: Lower(y)) + {Lower(x)};
    }
  }

  lemma SpelledOnce(ms: seq<Mention>, x: string, y: string)
    requires Consistent(ms) && x in MentionedPaths(ms) && y in MentionedPaths(ms) && Lower(x) == Lower(y)
    ensures x == y
  {
  }

  /** The table has one row per path, so counting its rows counts paths. */
  lemma TableCounts(seen: map<string, Seen>, ms: seq<Mention>)
    requires Table(seen, ms) && Consistent(ms)
    ensures |seen| == |MentionedPaths(ms)|
    ensures |set key | key in seen && seen[key].dir| == |DirectoryPaths(ms)|
  {
    forall x, y | x in MentionedPaths(ms) && y in MentionedPaths(ms) && Lower(x) == Lower(y) ensures x == y {
      SpelledOnce(ms, x, y);
    }
    LowerKeepsSize(MentionedPaths(ms));
    LowerKeepsSize(DirectoryPaths(ms));
    TableKeys(seen, ms);
    assert |seen| == |seen.Keys|;
  }

  lemma TableKeys(seen: map<string, Seen>, ms: seq<Mention>)
    requires Table(seen, ms)
    ensures seen.Keys == set x | x in MentionedPaths(ms) :: Lower(x)
    ensures (set key | key in seen && seen[key].dir) == set x | x in DirectoryPaths(ms) :: Lower(x)
  {
  }

  // ----- the inspection

  function TrimSlash(name: string): string {
    if name != "" && name[|name| - 1] == '/' then name[..|name| - 1] else name
  }

  function EntryOf(f: ZipFile): Entry {
    Entry(if f.dir then TrimSlash(f.name) else f.name, f.dir)
  }

  function EntriesOf(files: seq<ZipFile>): (entries: seq<Entry>)
    ensures |entries| == |files|
  {
    seq(|files|, i requires 0 <= i < |files| => EntryOf(files[i]))
  }

  /** What one entry must satisfy by itself. */
  predicate HeaderOk(f: ZipFile, length: nat) {
    var name := EntryOf(f).name;
    && ValidName(name) && |name| <= MAX_NAME && f.plain && !f.encrypted
    && (if f.dir then f.uncompressed == 0
        else f.compressed <= length && f.uncompressed <= (if f.compressed < 1 then 1 else f.compressed) * 1000)
  }

  function Expanded(files: seq<ZipFile>): Receipt {
    if files == [] then Receipt(0, 0)
    else
      var before, last := Expanded(files[..|files| - 1]), files[|files| - 1];
      if last.dir then before else Receipt(before.files + 1, before.bytes + last.uncompressed)
  }

  predicate ContentOk(f: ZipFile) {
    f.dir || (f.readable && f.actual == f.uncompressed)
  }

  /** Exactly what is accepted, whatever order the checks run in. */
  ghost predicate Acceptable(data: bytes, files: Option<seq<ZipFile>>) {
    && |data| <= MAX_ARCHIVE_BYTES && ZipDirectory.Acceptable(data)
    && files.Some? && 0 < |files.value| <= ZipDirectory.MAX_ENTRIES
    && HeadersFit(files.value, |data|)
    && IsTree(EntriesOf(files.value))
    && |DirectoryPaths(AllMentions(EntriesOf(files.value)))| <= MAX_DIRECTORIES
    && |MentionedPaths(AllMentions(EntriesOf(files.value)))| <= ZipDirectory.MAX_ENTRIES
    && (forall i :: 0 <= i < |files.value| ==> ContentOk(files.value[i]))
  }

  lemma {:induction false} ExpandedMonotone(files: seq<ZipFile>, k: nat)
    requires k <= |files|
    ensures Expanded(files[..k]).bytes <= Expanded(files).bytes
    decreases |files|
  {
    if k < |files| {
      ExpandedMonotone(files[..|files| - 1], k);
      assert files[..|files| - 1][..k] == files[..k];
    } else {
      assert files[..k] == files;
    }
  }

  lemma {:induction false} AllMentionsPrefix(entries: seq<Entry>, k: nat)
    requires k <= |entries|
    ensures AllMentions(entries[..k]) <= AllMentions(entries)
    decreases |entries|
  {
    hide Mentions;
    if k < |entries| {
      AllMentionsPrefix(entries[..|entries| - 1], k);
      assert entries[..|entries| - 1][..k] == entries[..k];
    } else {
      assert entries[..k] == entries;
    }
  }

  lemma FirstEntriesConsistent(entries: seq<Entry>, k: nat)
    requires k <= |entries| && Consistent(AllMentions(entries))
    ensures Consistent(AllMentions(entries[..k]))
  {
    hide Consistent, AllMentions;
    AllMentionsPrefix(entries, k);
    var all, some := AllMentions(entries), AllMentions(entries[..k]);
    assert all == some + all[|some|..];
    ConsistentPrefix(some, all[|some|..]);
  }

  /** A collision among the first entries is a collision of the archive. */
  lemma CollisionRefuses(entries: seq<Entry>, k: nat)
    requires k <= |entries| && !Consistent(AllMentions(entries[..k]))
    ensures !IsTree(entries)
  {
    if IsTree(entries) {
      TreeIsConsistent(entries);
      FirstEntriesConsistent(entries, k);
    }
  }

  /** What the headers and declared sizes of the whole archive must satisfy. */
  ghost predicate HeadersFit(files: seq<ZipFile>, length: nat) {
    (forall i :: 0 <= i < |files| ==> HeaderOk(files[i], length)) && Expanded(files).bytes <= MAX_EXPANDED_BYTES
  }

  predicate NameAndModeOk(f: ZipFile) {
    ValidName(EntryOf(f).name) && |EntryOf(f).name| <= MAX_NAME && f.plain && !f.encrypted
  }

  /** The size checks of one entry, after entries that expand to `before` bytes. */
  predicate SizesOk(f: ZipFile, length: nat, before: nat) {
    if f.dir then f.uncompressed == 0
    else
      && f.compressed <= length && f.uncompressed <= MAX_EXPANDED_BYTES && f.uncompressed <= MAX_EXPANDED_BYTES - before
      && f.uncompressed <= (if f.compressed < 1 then 1 else f.compressed) * 1000
  }

  lemma HeaderStep(files: seq<ZipFile>, i: nat, length: nat)
    requires i < |files| && HeadersFit(files[..i], length)
    ensures var f, before := files[i], Expanded(files[..i]);
      && Expanded(files[..i + 1]) == (if f.dir then before else Receipt(before.files + 1, before.bytes + f.uncompressed))
      && (HeadersFit(files[..i + 1], length) <==> NameAndModeOk(f) && SizesOk(f, length, before.bytes))
      && (HeadersFit(files, length) ==> HeadersFit(files[..i + 1], length))
  {
    hide ValidName;
    var next := files[..i + 1];
    assert next[..i] == files[..i] && next[i] == files[i];
    assert forall k :: 0 <= k < i ==> next[k] == files[..i][k];
    ExpandedMonotone(files, i + 1);
  }

  /** The first pass: headers, paths and declared sizes. */
  method InspectHeaders(ctx: Context, length: nat, files: seq<ZipFile>) returns (ok: bool, seen: map<string, Seen>, receipt: Receipt)
    modifies ctx
    ensures ok ==> HeadersFit(files, length) && receipt == Expanded(files)
    ensures ok ==> Consistent(AllMentions(EntriesOf(files))) && Table(seen, AllMentions(EntriesOf(files)))
    ensures !ok && !ctx.canceled ==> !(HeadersFit(files, length) && IsTree(EntriesOf(files)))
    ensures old(ctx.canceled) ==> ctx.canceled
  {
    hide Table, Consistent, IsTree, HeadersFit, NameAndModeOk, SizesOk, AllMentions, Expanded;
    seen, receipt := map[], Receipt(0, 0);
    ghost var entries := EntriesOf(files);
    EmptyTable(length);
    assert entries[..0] == [] && files[..0] == [];
    for i := 0 to |files|
      invariant HeadersFit(files[..i], length) && receipt == Expanded(files[..i])
      invariant Table(seen, AllMentions(entries[..i])) && Consistent(AllMentions(entries[..i]))
      invariant old(ctx.canceled) ==> ctx.canceled
    {
      var stop := ctx.Err();
      if stop {
        return false, seen, receipt;
      }
      var f := files[i];
      HeaderStep(files, i, length);
      if !NameAndModeOk(f) {
        return false, seen, receipt;
      }
      NextMentions(entries, i);
      var separate, seen' := RecordPaths(seen, EntryOf(f), AllMentions(entries[..i]));
      if !separate {
        CollisionRefuses(entries, i + 1);
        return false, seen, receipt;
      }
      seen := seen';
      if !SizesOk(f, length, receipt.bytes) {
        return false, seen, receipt;
      }
      if !f.dir {
        receipt := Receipt(receipt.files + 1, receipt.bytes + f.uncompressed);
      }
    }
    assert entries[..|files|] == entries && files[..|files|] == files;
    ok := true;
  }

  lemma NextMentions(entries: seq<Entry>, i: nat)
    requires i < |entries|
    ensures AllMentions(entries[..i + 1]) == AllMentions(entries[..i]) + Mentions(entries[i])
  {
    assert entries[..i + 1][..i] == entries[..i];
  }

  lemma EmptyTable(length: nat)
    ensures Table(map[], AllMentions([])) && Consistent(AllMentions([])) && HeadersFit([], length) && Expanded([]) == Receipt(0, 0)
  {
  }

  method CountDirectories(seen: map<string, Seen>) returns (dirs: nat)
    ensures dirs == |set key | key in seen && seen[key].dir|
  {
    dirs := 0;
    var keys := seen.Keys;
    ghost var counted := {};
    while keys != {}
      invariant keys <= seen.Keys && counted == seen.Keys - keys
      invariant dirs == |set key | key in counted && seen[key].dir|
    {
      var key :| key in keys;
      ghost var before := set k | k in counted && seen[k].dir;
      keys, counted := keys - {key}, counted + {key};
      if seen[key].dir {
        assert (set k | k in counted && seen[k].dir) == before + {key};
        dirs := dirs + 1;
      } else {
        assert (set k | k in counted && seen[k].dir) == before;
      }
    }
    assert counted == seen.Keys;
    assert (set key | key in counted && seen[key].dir) == set key | key in seen && seen[key].dir;
  }

  /** The second pass: every entry is read to its end before anything is written. */
  method ReadContents(ctx: Context, files: seq<ZipFile>) returns (ok: bool)
    modifies ctx
    ensures ok ==> forall i :: 0 <= i < |files| ==> ContentOk(files[i])
    ensures !ok && !ctx.canceled ==> !forall i :: 0 <= i < |files| ==> ContentOk(files[i])
    ensures old(ctx.canceled) ==> ctx.canceled
  {
    for i := 0 to |files|
      invariant forall j :: 0 <= j < i ==> ContentOk(files[j])
      invariant old(ctx.canceled) ==> ctx.canceled
    {
      var f := files[i];
      if f.dir {
        continue;
      }
      var stop := ctx.Err();
      if stop || !f.readable {
        return false;
      }
      var n := Min(f.actual, f.uncompressed + 1);
      if n != f.uncompressed {
        return false;
      }
    }
    ok := true;
  }

  method InspectArchive(ctx: Context, data: bytes, files: Option<seq<ZipFile>>) returns (r: Option<Receipt>)
    modifies ctx
    ensures r.Some? ==> Acceptable(data, files) && r.value == Expanded(files.value)
    ensures r.None? && !ctx.canceled ==> !Acceptable(data, files)
  {
    hide Table, Consistent, IsTree, HeaderOk, ContentOk, DirectoryPaths, MentionedPaths, Expanded;
    if |data| > MAX_ARCHIVE_BYTES {
      return None;
    }
    var directory := ZipDirectory.ValidateZipDirectory(data);
    if !directory || files.None? {
      return None;
    }
    if |files.value| == 0 || |files.value| > ZipDirectory.MAX_ENTRIES {
      return None;
    }
    var ok, seen, receipt := InspectHeaders(ctx, |data|, files.value);
    if !ok {
      return None;
    }
    ghost var ms := AllMentions(EntriesOf(files.value));
    ConsistentIsTree(EntriesOf(files.value));
    TableCounts(seen, ms);
    var dirs := CountDirectories(seen);
    if dirs > MAX_DIRECTORIES || |seen| > ZipDirectory.MAX_ENTRIES {
      return None;
    }
    var read := ReadContents(ctx, files.value);
    if !read {
      return None;
    }
    return Some(receipt);
  }

  // ----- the order in which an accepted archive is created

  ghost predicate ValidNames(entries: seq<Entry>) {
    forall i :: 0 <= i < |entries| ==> ValidName(entries[i].name)
  }

  /** `dirs` lists the directories of the archive, each once, in bytewise order. */
  ghost predicate DirectoryList(entries: seq<Entry>, dirs: seq<string>) {
    && (set i | 0 <= i < |dirs| :: dirs[i]) == DirectoryPaths(AllMentions(entries))
    && (forall i, j :: 0 <= i < j < |dirs| ==> dirs[i] != dirs[j])
    && Sorted(dirs, LexLeq)
  }

  /** A directory of the archive is an ancestor of some entry, or a directory entry. */
  lemma DirectoryFrom(entries: seq<Entry>, path: string) returns (e: nat, n: nat)
    requires path in DirectoryPaths(AllMentions(entries))
    ensures e < |entries| && 0 < n <= |Split(entries[e].name)| && path == Ancestor(entries[e].name, n)
    ensures n < |Split(entries[e].name)| || entries[e].dir
  {
    var ms := AllMentions(entries);
    var i :| 0 <= i < |ms| && ms[i].dir && ms[i].path == path;
    e, n := MentionFrom(entries, i);
  }

  lemma AncestorIsDirectory(entries: seq<Entry>, e: nat, n: nat)
    requires e < |entries| && 0 < n <= |Split(entries[e].name)| && (n < |Split(entries[e].name)| || entries[e].dir)
    ensures Ancestor(entries[e].name, n) in DirectoryPaths(AllMentions(entries))
  {
    var at := MentionAt(entries, e, n);
  }

  /** The directory of an ancestor is the ancestor before it. */
  lemma DirOfAncestor(name: string, n: nat)
    requires 0 < n <= |Split(name)| && ValidName(name)
    ensures n == 1 ==> Dir(Ancestor(name, n)) == "."
    ensures n > 1 ==> Dir(Ancestor(name, n)) == Ancestor(name, n - 1) && Dir(Ancestor(name, n)) != "."
    ensures Base(Ancestor(name, n)) == Split(name)[n - 1]
    ensures Ancestor(name, n) != "."
  {
    hide Split, Join, ValidName;
    AncestorParts(name, n);
    assert Split(name)[..n][..n - 1] == Split(name)[..n - 1];
    if n > 1 {
      AncestorIsNotDot(name, n - 1);
    }
    AncestorIsNotDot(name, n);
  }

  lemma AncestorIsNotDot(name: string, n: nat)
    requires 0 < n <= |Split(name)| && ValidName(name)
    ensures Ancestor(name, n) != "."
  {
  }

  /** Sorted order puts every directory after the one it lies in, and that one is always on the list. */
  lemma ParentsFirst(entries: seq<Entry>, dirs: seq<string>, j: nat)
    requires ValidNames(entries) && DirectoryList(entries, dirs) && j < |dirs|
    ensures Dir(dirs[j]) == "." || exists i :: 0 <= i < j && dirs[i] == Dir(dirs[j])
  {
    var e, n := DirectoryFrom(entries, dirs[j]);
    DirOfAncestor(entries[e].name, n);
    if n > 1 {
      AncestorIsDirectory(entries, e, n - 1);
      var i :| 0 <= i < |dirs| && dirs[i] == Ancestor(entries[e].name, n - 1);
      AncestorParts(entries[e].name, n);
      DirSortsFirst(dirs[j]);
      SortedEarlier(dirs, i, j);
    }
  }

  lemma SortedEarlier(s: seq<string>, i: nat, j: nat)
    requires Sorted(s, LexLeq) && i < |s| && j < |s| && LexLeq(s[i], s[j]) && s[i] != s[j]
    ensures i < j
  {
    LexTotal(s[i], s[j]);
  }

  /** The directory a file lies in is on the list too. */
  lemma FileParentListed(entries: seq<Entry>, dirs: seq<string>, e: nat)
    requires ValidNames(entries) && DirectoryList(entries, dirs) && e < |entries|
    ensures Dir(entries[e].name) == "." || Dir(entries[e].name) in dirs
  {
    var n := |Split(entries[e].name)|;
    DirOfAncestor(entries[e].name, n);
    AncestorParts(entries[e].name, n);
    if n > 1 {
      AncestorIsDirectory(entries, e, n - 1);
    }
  }

  /** No directory is created twice, even where case is ignored. */
  lemma NoDirectoryTwice(entries: seq<Entry>, dirs: seq<string>, i: nat, j: nat)
    requires Consistent(AllMentions(entries)) && DirectoryList(entries, dirs) && i < j < |dirs|
    ensures Lower(dirs[i]) != Lower(dirs[j])
  {
    DirectoriesDiffer(AllMentions(entries), dirs[i], dirs[j]);
  }

  /** No file is created under the name of a directory, even where case is ignored; that files differ is part of being a tree. */
  lemma NoFileTwice(entries: seq<Entry>, dirs: seq<string>, i: nat, e: nat)
    requires IsTree(entries) && DirectoryList(entries, dirs) && i < |dirs| && e < |entries| && !entries[e].dir
    ensures Lower(dirs[i]) != Lower(entries[e].name)
  {
    hide IsTree, AllMentions, Sorted;
    assert dirs[i] in DirectoryPaths(AllMentions(entries));
    FileIsNoDirectory(entries, dirs[i], e);
  }

  lemma DirectoriesDiffer(ms: seq<Mention>, x: string, y: string)
    requires Consistent(ms) && x in DirectoryPaths(ms) && y in DirectoryPaths(ms)
    ensures Lower(x) == Lower(y) ==> x == y
  {
  }

  lemma FileIsNoDirectory(entries: seq<Entry>, path: string, e: nat)
    requires IsTree(entries) && path in DirectoryPaths(AllMentions(entries)) && e < |entries| && !entries[e].dir
    ensures Lower(path) != Lower(entries[e].name)
  {
    hide DirectoryPaths, AllMentions, IsTree, Ancestor, Lower;
    var a, n := DirectoryFrom(entries, path);
    AncestorParts(entries[a].name, n);
    FileIsNoAncestor(entries, a, n, e);
  }

  lemma FileIsNoAncestor(entries: seq<Entry>, a: nat, n: nat, e: nat)
    requires IsTree(entries) && e < |entries| && !entries[e].dir
    requires a < |entries| && 0 < n <= |Split(entries[a].name)| && (n < |Split(entries[a].name)| || entries[a].dir)
    ensures Lower(Ancestor(entries[a].name, n)) != Lower(entries[e].name)
  {
    if n == |Split(entries[a].name)| {
      AncestorParts(entries[a].name, n);
    }
  }

  /** The ancestors of a name with more than `n` parts, and the name itself if it is a directory. */
  ghost function DirectoriesAbove(entry: Entry, n: nat): set<string> {
    set m | n < m <= |Split(entry.name)| && (m < |Split(entry.name)| || entry.dir) :: Ancestor(entry.name, m)
  }

  lemma DirectoriesStep(entry: Entry, n: nat)
    requires 0 < n <= |Split(entry.name)| && (n < |Split(entry.name)| || entry.dir)
    ensures DirectoriesAbove(entry, n - 1) == DirectoriesAbove(entry, n) + {Ancestor(entry.name, n)}
  {
  }

  lemma NoDirectoriesAbove(entry: Entry)
    ensures DirectoriesAbove(entry, |Split(entry.name)|) == {}
    ensures !entry.dir ==> DirectoriesAbove(entry, |Split(entry.name)| - 1) == {}
  {
  }

  /** Collects the directories of one entry: its ancestors, and itself if it is a directory. */
  method AddDirectories(names: set<string>, entry: Entry) returns (names': set<string>)
    requires ValidName(entry.name)
    ensures names' == names + DirectoryPaths(Mentions(entry))
  {
    hide DirectoryPaths, Mentions, DirectoriesAbove, ValidName, Dir, Ancestor, Split;
    names' := names;
    ghost var full := |Split(entry.name)|;
    ghost var n := if entry.dir then full else full - 1;
    DirOfAncestor(entry.name, full);
    AncestorParts(entry.name, full);
    NoDirectoriesAbove(entry);
    var dir := if entry.dir then entry.name else Dir(entry.name);
    while dir != "."
      invariant 0 <= n <= full && (n == full ==> entry.dir)
      invariant dir == if n == 0 then "." else Ancestor(entry.name, n)
      invariant names' == names + DirectoriesAbove(entry, n)
      decreases n
    {
      DirectoriesStep(entry, n);
      names' := names' + {dir};
      DirOfAncestor(entry.name, n);
      dir := Dir(dir);
      n := n - 1;
    }
    if n != 0 { AncestorIsNotDot(entry.name, n); }
    DirectoriesOfOne(entry);
  }

  lemma DirectoriesOfOne(entry: Entry)
    ensures DirectoryPaths(Mentions(entry)) == DirectoriesAbove(entry, 0)
  {
    var ms := Mentions(entry);
    forall m | 0 < m <= |Split(entry.name)| && (m < |Split(entry.name)| || entry.dir)
      ensures Ancestor(entry.name, m) in DirectoryPaths(ms)
    {
      assert ms[m - 1].dir && ms[m - 1].path == Ancestor(entry.name, m);
    }
  }

  lemma DirectoryPathsAppend(a: seq<Mention>, b: seq<Mention>)
    ensures DirectoryPaths(a + b) == DirectoryPaths(a) + DirectoryPaths(b)
  {
    forall path | path in DirectoryPaths(a) ensures path in DirectoryPaths(a + b) {
      var i :| 0 <= i < |a| && a[i].dir && a[i].path == path;
      assert (a + b)[i] == a[i];
    }
    forall path | path in DirectoryPaths(b) ensures path in DirectoryPaths(a + b) {
      var i :| 0 <= i < |b| && b[i].dir && b[i].path == path;
      assert (a + b)[|a| + i] == b[i];
    }
  }

  /** The directories to create, parents first. */
  method ListDirectories(entries: seq<Entry>) returns (dirs: seq<string>)
    requires ValidNames(entries)
    ensures DirectoryList(entries, dirs)
  {
    hide DirectoryPaths, ValidName, Sorted, TotalOrder;
    var names: set<string> := {};
    assert entries[..0] == [];
    NoDirectories();
    for i := 0 to |entries|
      invariant names == DirectoryPaths(AllMentions(entries[..i]))
    {
      NextMentions(entries, i);
      DirectoryPathsAppend(AllMentions(entries[..i]), Mentions(entries[i]));
      names := AddDirectories(names, entries[i]);
    }
    assert entries[..|entries|] == entries;
    dirs := [];
    var rest := names;
    while rest != {}
      invariant (set i | 0 <= i < |dirs| :: dirs[i]) == names - rest && rest <= names
      invariant forall i, j :: 0 <= i < j < |dirs| ==> dirs[i] != dirs[j]
    {
      var name :| name in rest;
      assert forall i :: 0 <= i < |dirs| ==> dirs[i] in names - rest;
      ghost var before := dirs;
      dirs, rest := dirs + [name], rest - {name};
      assert dirs[|before|] == name && forall i :: 0 <= i < |before| ==> dirs[i] == before[i];
      assert (set i | 0 <= i < |dirs| :: dirs[i]) == (set i | 0 <= i < |before| :: before[i]) + {name};
    }
    LexIsTotalOrder();
    SortSorts(dirs, LexLeq);
    SortKeepsElements(dirs, SortStrings(dirs));
    dirs := SortStrings(dirs);
  }

  lemma NoDirectories()
    ensures DirectoryPaths(AllMentions([])) == {}
  {
  }

  lemma SortKeepsElements(a: seq<string>, b: seq<string>)
    requires multiset(a) == multiset(b) && forall i, j :: 0 <= i < j < |a| ==> a[i] != a[j]
    ensures (set i | 0 <= i < |a| :: a[i]) == (set i | 0 <= i < |b| :: b[i])
    ensures forall i, j :: 0 <= i < j < |b| ==> b[i] != b[j]
  {
    forall x ensures x in a <==> x in b {
      assert x in a <==> x in multiset(a);
      assert x in b <==> x in multiset(b);
    }
    assert forall i :: 0 <= i < |a| ==> a[i] in b;
    assert forall i :: 0 <= i < |b| ==> b[i] in a;
    forall i, j | 0 <= i < j < |b| ensures b[i] != b[j] {
      if b[i] == b[j] {
        Twice(b, i, j);
        Once(a, b[i]);
      }
    }
  }

  lemma Twice(s: seq<string>, i: nat, j: nat)
    requires i < j < |s| && s[i] == s[j]
    ensures multiset(s)[s[i]] >= 2
  {
    assert s == s[..i] + [s[i]] + s[i + 1..j] + [s[j]] + s[j + 1..];
  }

  lemma {:induction false} Once(s: seq<string>, x: string)
    requires forall i, j :: 0 <= i < j < |s| ==> s[i] != s[j]
    ensures multiset(s)[x] <= 1
  {
    if s != [] {
      assert s == [s[0]] + s[1..];
      Once(s[1..], x);
      if s[0] == x {
        assert x !in s[1..];
      }
    }
  }
}
