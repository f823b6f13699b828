/** strings.Split and strings.Join on a one-character separator. */
module Fields {

  predicate Lacks(s: string, sep: char := '/') {
    sep !in s
  }

  function Split(s: string, sep: char := '/'): (parts: seq<string>)
    ensures |parts| > 0
    ensures forall i :: 0 <= i < |parts| ==> Lacks(parts[i], sep)
  {
    if s == "" then [""]
    else if s[0] == sep then [""] + Split(s[1..], sep)
    else
      var rest := Split(s[1..], sep);
      [[s[0]] + rest[0]] + rest[1..]
  }

  function Join(parts: seq<string>, sep: char := '/'): string {
    if parts == [] then "" else if |parts| == 1 then parts[0] else parts[0] + [sep] + Join(parts[1..], sep)
  }

  lemma {:induction false} JoinSplit(s: string, sep: char := '/')
    ensures Join(Split(s, sep), sep) == s
  {
    if s != "" {
      JoinSplit(s[1..], sep);
      assert s == [s[0]] + s[1..];
      var rest := Split(s[1..], sep);
      if s[0] == sep {
        assert ([""] + rest)[1..] == rest;
        assert "" + [sep] + Join(rest, sep) == [sep] + Join(rest, sep);
      } else {
        assert Split(s, sep)[1..] == rest[1..];
      }
    }
  }

  /** A part without the separator in front of more. */
  lemma {:induction false} SplitPart(part: string, s: string, sep: char := '/')
    requires Lacks(part, sep)
    ensures Split(part, sep) == [part]
    ensures Split(part + [sep] + s, sep) == [part] + Split(s, sep)
  {
    var whole := part + [sep] + s;
    if part == "" {
      assert whole[1..] == s;
    } else {
      assert Lacks(part[1..], sep);
      SplitPart(part[1..], s, sep);
      assert part == [part[0]] + part[1..];
      assert whole[1..] == part[1..] + [sep] + s;
    }
  }

  lemma {:induction false} SplitJoin(parts: seq<string>, sep: char := '/')
    requires |parts| > 0 && forall i :: 0 <= i < |parts| ==> Lacks(parts[i], sep)
    ensures Split(Join(parts, sep), sep) == parts
  {
    if |parts| == 1 {
      SplitPart(parts[0], "", sep);
    } else {
      SplitJoin(parts[1..], sep);
      SplitPart(parts[0], Join(parts[1..], sep), sep);
      assert parts == [parts[0]] + parts[1..];
    }
  }
}
