/** Slash-separated relative paths, their parts and the names the download accepts (internal/safedownload/download.go). */
module Paths {
  import opened Fields
  import opened Sorting

  /** The path made of the first `n` parts of a name. */
  function Ancestor(name: string, n: nat): string
    requires 0 < n <= |Split(name)|
  {
    Join(Split(name)[..n])
  }

  lemma AncestorParts(name: string, n: nat)
    requires 0 < n <= |Split(name)|
    ensures Split(Ancestor(name, n)) == Split(name)[..n]
    ensures n == |Split(name)| ==> Ancestor(name, n) == name
    ensures forall m: nat :: 0 < m <= n ==> m <= |Split(Ancestor(name, n))| && Ancestor(Ancestor(name, n), m) == Ancestor(name, m)
  {
    SplitJoin(Split(name)[..n]);
    JoinSplit(name);
    assert Split(name)[..|Split(name)|] == Split(name);
    forall m: nat | 0 < m <= n ensures Ancestor(Ancestor(name, n), m) == Ancestor(name, m) {
      assert Split(name)[..n][..m] == Split(name)[..m];
    }
  }

  /** path.Dir and path.Base of an accepted name: such a name is already clean. */
  function Dir(name: string): string {
    var parts := Split(name);
    if |parts| == 1 then "." else Join(parts[..|parts| - 1])
  }

  function Base(name: string): string {
    var parts := Split(name);
    parts[|parts| - 1]
  }

  lemma {:induction false} JoinSnoc(parts: seq<string>, last: string)
    requires |parts| > 0
    ensures Join(parts + [last]) == Join(parts) + "/" + last
  {
    if |parts| == 1 {
      assert (parts + [last])[1..] == [last];
    } else {
      assert (parts + [last])[1..] == parts[1..] + [last];
      JoinSnoc(parts[1..], last);
    }
  }

  /** A directory's path is a proper prefix of what lies in it, so it sorts strictly earlier. */
  lemma DirSortsFirst(name: string)
    requires Dir(name) != "." && |Split(name)| > 1
    ensures name == Dir(name) + "/" + Base(name)
    ensures LexLeq(Dir(name), name) && Dir(name) != name
    ensures Split(Dir(name)) == Split(name)[..|Split(name)| - 1]
  {
    hide Split, Join, LexLeq;
    var parts := Split(name);
    JoinSplit(name);
    JoinSnoc(parts[..|parts| - 1], parts[|parts| - 1]);
    assert parts == parts[..|parts| - 1] + [parts[|parts| - 1]];
    LexPrefix(Dir(name), name);
    SplitJoin(parts[..|parts| - 1]);
  }

  // ----- ASCII case folding

  function LowerChar(c: char): char {
    if 'A' <= c <= 'Z' then c + 32 as char else c
  }

  /** strings.ToLower on the ASCII names that are accepted. */
  function Lower(s: string): (l: string)
    ensures |l| == |s| && forall i :: 0 <= i < |s| ==> l[i] == LowerChar(s[i])
  {
    seq(|s|, i requires 0 <= i < |s| => LowerChar(s[i]))
  }

  function UpperChar(c: char): char {
    if 'a' <= c <= 'z' then c - 32 as char else c
  }

  function Upper(s: string): (u: string)
    ensures |u| == |s| && forall i :: 0 <= i < |s| ==> u[i] == UpperChar(s[i])
  {
    seq(|s|, i requires 0 <= i < |s| => UpperChar(s[i]))
  }

  /** The same character, or the two cases of one ASCII letter. */
  predicate SameLetter(c: char, d: char) {
    || c == d
    || ('A' <= c <= 'Z' && d as int == c as int + 32)
    || ('A' <= d <= 'Z' && c as int == d as int + 32)
  }

  /** Names fold together exactly if they differ at most in the case of their letters, whichever way they are folded. */
  lemma FoldTogether(a: string, b: string)
    ensures Lower(a) == Lower(b) <==> |a| == |b| && forall i :: 0 <= i < |a| ==> SameLetter(a[i], b[i])
    ensures Upper(a) == Upper(b) <==> Lower(a) == Lower(b)
    ensures Lower(Lower(a)) == Lower(a) == Lower(Upper(a))
  {
    if Lower(a) == Lower(b) {
      forall i | 0 <= i < |a| ensures SameLetter(a[i], b[i]) {
        assert Lower(a)[i] == Lower(b)[i];
      }
    }
    if Upper(a) == Upper(b) {
      forall i | 0 <= i < |a| ensures Lower(a)[i] == Lower(b)[i] {
        assert Upper(a)[i] == Upper(b)[i];
      }
    }
  }

  // ----- accepted names

  const FORBIDDEN: string := "\\:*?\"<>|"
  const RESERVED: set<string> := {"CON", "PRN", "AUX", "NUL"}
  const NUMBERED: set<string> := {"COM", "LPT"}

  predicate ValidChar(c: char) {
    0x21 as char <= c <= 0x7E as char && c !in FORBIDDEN
  }

  function BeforeDot(part: string): string {
    if part == "" || part[0] == '.' then "" else [part[0]] + BeforeDot(part[1..])
  }

  /** CON, PRN, AUX, NUL, COM1 to COM9 and LPT1 to LPT9 name devices whatever follows the first dot. */
  predicate DeviceName(part: string) {
    var base := Upper(BeforeDot(part));
    base in RESERVED || (|base| == 4 && base[..3] in NUMBERED && '1' <= base[3] <= '9')
  }

  predicate ValidPart(part: string) {
    && part != "" && part != "." && part != ".." && |part| <= 255
    && part[|part| - 1] != '.' && part[|part| - 1] != ' '
    && (forall i :: 0 <= i < |part| ==> ValidChar(part[i]))
    && !DeviceName(part)
  }

  predicate ValidName(name: string) {
    && name != "" && name[0] != '/' && name[|name| - 1] != '/'
    && forall i :: 0 <= i < |Split(name)| ==> ValidPart(Split(name)[i])
  }
}
