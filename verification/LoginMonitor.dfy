/** The login relay of internal/delegate/glab/login_monitor.go against a whole-stream specification. */
module LoginMonitor {
  import opened Bytes
  import opened Utf8
  import opened Streams
  import opened Wrappers

  datatype LoginError = Malformed | Overflow | RelayFailed
  const MAX_STALLS := 100
  const WARNING_TEXT: string := "The operating system keyring is unavailable. Storing credentials as plaintext in the configuration file."

  function AsciiByte(c: char): (b: byte)
    ensures b < 0x80
  {
    if c < 128 as char then c as int else 0
  }

  function Warning(): (w: bytes)
    ensures |w| > 0 && forall i :: 0 <= i < |w| ==> w[i] < 0x80
  {
    seq(|WARNING_TEXT|, i requires 0 <= i < |WARNING_TEXT| => AsciiByte(WARNING_TEXT[i]))
  }

  // ----- specification on the whole stream

  /** How much of the stream may be looked at. */
  function Cap(stream: bytes, maxBytes: int): (n: nat)
    ensures n <= |stream|
  {
    if maxBytes <= 0 then 0 else Min(|stream|, maxBytes)
  }

  /** `end` is where the first warning in `s` ends. */
  ghost predicate FirstWarningEnd(s: bytes, end: int) {
    && OccursAt(s, Warning(), end - |Warning()|)
    && forall j :: j < end - |Warning()| ==> !OccursAt(s, Warning(), j)
  }

  /** Where relaying must stop: after the first warning that ends within the cap, else at the cap. */
  ghost function Bound(stream: bytes, maxBytes: int): (n: nat)
    ensures n <= Cap(stream, maxBytes)
  {
    var capped := stream[..Cap(stream, maxBytes)];
    if end :| FirstWarningEnd(capped, end) then end else |capped|
  }

  datatype Outcome = Outcome(forwarded: bytes, warning: bool, err: Option<LoginError>)

  /** The outcome the relay owes for a stream, however it is cut into reads. */
  ghost function Expected(stream: bytes, maxBytes: int): Outcome {
    var found := Contains(stream[..Cap(stream, maxBytes)], Warning());
    var scope := stream[..Bound(stream, maxBytes)];
    var whole := scope[..WholePrefix(scope)];
    if !Extensible(scope) then Outcome(whole, found, Some(Malformed))
    else if found then Outcome(scope, true, None)
    else if |stream| > Cap(stream, maxBytes) then Outcome(whole, false, Some(Overflow))
    else if whole != scope then Outcome(whole, false, Some(Malformed))
    else Outcome(scope, false, None)
  }

  /** A run meets the expected outcome: exactly, except that after malformed bytes it may have forwarded and noticed less. */
  ghost predicate Meets(run: Outcome, stream: bytes, maxBytes: int) {
    var expected := Expected(stream, maxBytes);
    if Extensible(stream[..Bound(stream, maxBytes)]) then run == expected
    else run.err == expected.err && run.forwarded <= expected.forwarded && (run.warning ==> expected.warning)
  }

  ghost predicate WarningOnlyLast(out: bytes) {
    forall i :: OccursAt(out, Warning(), i) ==> i + |Warning()| == |out|
  }

  /** What holds of the forwarded bytes on any stream, whatever the reads and writes do. */
  ghost predicate Safe(out: bytes, stream: bytes, maxBytes: int) {
    out <= stream && |out| <= Cap(stream, maxBytes) && WarningOnlyLast(out)
  }

  // ----- facts about first warnings

  lemma FirstWarningUnique(s: bytes, a: int, b: int)
    requires FirstWarningEnd(s, a) && FirstWarningEnd(s, b)
    ensures a == b
  {
  }

  /** A warning contained in a string has a first occurrence. */
  lemma {:induction false} FirstWarningExists(s: bytes, i: int)
    requires OccursAt(s, Warning(), i)
    ensures exists end :: FirstWarningEnd(s, end)
    decreases i
  {
    if j :| j < i && OccursAt(s, Warning(), j) {
      FirstWarningExists(s, j);
    } else {
      assert FirstWarningEnd(s, i + |Warning()|);
    }
  }

  /** A first warning seen in a prefix is the first warning of the whole. */
  lemma FirstWarningStable(s: bytes, k: nat, end: int)
    requires k <= |s| && FirstWarningEnd(s[..k], end)
    ensures FirstWarningEnd(s, end)
  {
    assert s[..k] == s[0..k];
    forall j | j <= end - |Warning()|
      ensures OccursAt(s[..k], Warning(), j) <==> OccursAt(s, Warning(), j)
    {
      if 0 <= j { OccursInSlice(s, Warning(), 0, k, j); }
    }
  }

  /** Nothing found in the first `k` bytes means a first warning ends after them. */
  lemma NoEarlierWarning(s: bytes, k: nat, end: int)
    requires k <= |s| && !Contains(s[..k], Warning()) && FirstWarningEnd(s, end)
    ensures k < end
  {
    assert s[..k] == s[0..k];
    OccursInSlice(s, Warning(), 0, k, end - |Warning()|);
  }

  lemma ContainsMonotone(s: bytes, k: nat)
    requires k <= |s| && Contains(s[..k], Warning())
    ensures Contains(s, Warning())
  {
    var i :| OccursAt(s[..k], Warning(), i);
    assert s[..k] == s[0..k];
    OccursInSlice(s, Warning(), 0, k, i);
  }

  /** The bound of a stream once a warning has been seen in a prefix that fits the cap. */
  lemma BoundAfterWarning(stream: bytes, k: nat, end: int, maxBytes: int)
    requires k <= Cap(stream, maxBytes) && FirstWarningEnd(stream[..k], end)
    ensures Bound(stream, maxBytes) == end
    ensures Contains(stream[..Cap(stream, maxBytes)], Warning())
  {
    var capped := stream[..Cap(stream, maxBytes)];
    assert capped[..k] == stream[..k];
    FirstWarningStable(capped, k, end);
    forall other | FirstWarningEnd(capped, other) ensures other == end {
      FirstWarningUnique(capped, other, end);
    }
  }

  /** The bound of a stream lies beyond any prefix that fits the cap and holds no warning. */
  lemma BoundBeyond(stream: bytes, k: nat, maxBytes: int)
    requires k <= Cap(stream, maxBytes) && !Contains(stream[..k], Warning())
    ensures k <= Bound(stream, maxBytes)
  {
    var capped := stream[..Cap(stream, maxBytes)];
    assert capped[..k] == stream[..k];
    forall end | FirstWarningEnd(capped, end) ensures k < end {
      NoEarlierWarning(capped, k, end);
    }
  }

  lemma BoundWithoutWarning(stream: bytes, maxBytes: int)
    requires !Contains(stream[..Cap(stream, maxBytes)], Warning())
    ensures Bound(stream, maxBytes) == Cap(stream, maxBytes)
  {
  }

  // ----- the expected outcome, in words of its own

  /** A scan that ends in an ASCII byte, such as the last one of the warning, ends on a character boundary. */
  lemma AsciiEndsWhole(s: bytes)
    requires s != [] && s[|s| - 1] < 0x80
    ensures Extensible(s) ==> WholePrefix(s) == |s|
  {
    hide WholePrefix, Partial;
    var rest := s[WholePrefix(s)..];
    if rest != [] {
      assert rest[|rest| - 1] == s[|s| - 1];
      AsciiEndIsNotPartial(rest);
    }
  }

  lemma AsciiEndIsNotPartial(rest: bytes)
    requires rest != [] && rest[|rest| - 1] < 0x80
    ensures !Partial(rest)
  {
  }

  /** For every stream: at most the cap, a prefix, well formed, and a warning only at the very end. */
  lemma ExpectedIsSafe(stream: bytes, maxBytes: int)
    ensures var out := Expected(stream, maxBytes).forwarded;
      |out| <= Cap(stream, maxBytes) && out <= stream && WellFormed(out) && NulFree(out) && WarningOnlyLast(out)
  {
    hide Bound, WholePrefix, Extensible, OccursAt, Warning, FirstWarningEnd;
    var cap := Cap(stream, maxBytes);
    var scope := stream[..Bound(stream, maxBytes)];
    var k := WholePrefix(scope);
    WholePrefixIsWhole(scope);
    assert scope[..k] == stream[..k];
    if Contains(stream[..cap], Warning()) {
      WarningBound(stream, maxBytes);
      AsciiEndsWhole(scope);
      assert Extensible(scope) ==> scope[..k] == scope;
      FirstWarningLast(stream, Bound(stream, maxBytes), k);
    } else {
      BoundWithoutWarning(stream, maxBytes);
      NoWarningLast(stream[..cap], k);
      assert stream[..cap][..k] == stream[..k];
    }
  }

  /** With a warning inside the cap, the bound is where the first one ends. */
  lemma WarningBound(stream: bytes, maxBytes: int)
    requires Contains(stream[..Cap(stream, maxBytes)], Warning())
    ensures FirstWarningEnd(stream, Bound(stream, maxBytes))
    ensures var b := Bound(stream, maxBytes); 0 < b && stream[..b][b - 1] < 0x80
  {
    var cap := Cap(stream, maxBytes);
    var i :| OccursAt(stream[..cap], Warning(), i);
    FirstWarningExists(stream[..cap], i);
    var end :| FirstWarningEnd(stream[..cap], end);
    BoundAfterWarning(stream, cap, end, maxBytes);
    FirstWarningStable(stream, cap, end);
    ScopeEndsInWarning(stream, end);
  }

  /** Nothing is withheld without cause: at most three bytes of a cut character, and only before an error. */
  lemma ExpectedIsComplete(stream: bytes, maxBytes: int)
    ensures var e := Expected(stream, maxBytes);
      && (e.warning && e.err.None? ==> FirstWarningEnd(stream, |e.forwarded|))
      && (e.err.None? && !e.warning ==> e.forwarded == stream)
      && (e.err == Some(Overflow) ==> 0 <= Cap(stream, maxBytes) - |e.forwarded| <= 3 && Cap(stream, maxBytes) < |stream|)
  {
    var cap := Cap(stream, maxBytes);
    var scope := stream[..Bound(stream, maxBytes)];
    if Contains(stream[..cap], Warning()) {
      WarningBound(stream, maxBytes);
    } else {
      BoundWithoutWarning(stream, maxBytes);
    }
  }

  lemma ScopeEndsInWarning(s: bytes, end: int)
    requires FirstWarningEnd(s, end)
    ensures 0 < end <= |s| && s[..end][end - 1] < 0x80
  {
  }

  lemma FirstWarningLast(s: bytes, end: int, k: nat)
    requires FirstWarningEnd(s, end) && k <= end <= |s|
    ensures WarningOnlyLast(s[..k])
  {
    forall i | OccursAt(s[..k], Warning(), i) ensures i + |Warning()| == k {
      assert s[..k] == s[0..k];
      OccursInSlice(s, Warning(), 0, k, i);
    }
  }

  lemma NoWarningLast(s: bytes, k: nat)
    requires !Contains(s, Warning()) && k <= |s|
    ensures WarningOnlyLast(s[..k]) && !Contains(s[..k], Warning())
  {
    if Contains(s[..k], Warning()) {
      ContainsMonotone(s, k);
    }
  }

  // ----- the relay

  class LoginOutputState {
    var warning: bool
    var err: Option<LoginError>
    var canceled: bool

    constructor ()
      ensures !warning && err == None && !canceled
    {
      warning, err, canceled := false, None, false;
    }

    method MarkWarning()
      modifies this`warning
      ensures warning
    {
      warning := true;
    }

    /** Keeps the first error. */
    method Fail(e: LoginError)
      modifies this`err
      ensures err == if old(err).None? then Some(e) else old(err)
    {
      if err == None {
        err := Some(e);
      }
    }

    method Cancel()
      modifies this`canceled
      ensures canceled
    {
      canceled := true;
    }

    ghost function Result(out: bytes): Outcome
      reads this
    {
      Outcome(out, warning, err)
    }
  }

  lemma NothingScanned()
    ensures WholePrefix([]) == 0
  {
  }

  /** What the next character of a scan means for the rest. */
  lemma ScanStep(rest: bytes)
    requires rest != []
    ensures rest[0] == 0 || RuneLength(rest) == 0 ==> WholePrefix(rest) == 0
    ensures rest[0] != 0 && RuneLength(rest) > 0 ==> WholePrefix(rest) == RuneLength(rest) + WholePrefix(rest[RuneLength(rest)..])
    ensures Partial(rest) ==> RuneLength(rest) == 0 && rest[0] != 0
  {
  }

  /** Splits off a character cut short at the end; refuses malformed bytes and NUL. */
  method CompleteUtf8Prefix(input: bytes) returns (complete: bytes, incomplete: bytes, valid: bool)
    ensures valid <==> Extensible(input)
    ensures valid ==> complete == input[..WholePrefix(input)] && incomplete == input[WholePrefix(input)..]
    ensures !valid ==> complete == [] && incomplete == []
  {
    hide WholePrefix, Conforms;
    var index := 0;
    NothingScanned();
    while index < |input|
      invariant index <= |input| && WholePrefix(input) == index + WholePrefix(input[index..])
    {
      var rest := input[index..];
      ScanStep(rest);
      if rest[0] == 0 {
        return [], [], false;
      }
      if !FullRune(rest) {
        return input[..index], rest, true;
      }
      var size := RuneLength(rest);
      if size == 0 {
        return [], [], false;
      }
      assert input[index + size..] == rest[size..];
      index := index + size;
    }
    assert input[..|input|] == input;
    return input, [], true;
  }

  /** `cutoff` is where the first warning in `window + chunk` ends, counted from the chunk and kept inside it. */
  ghost predicate CutsAtWarning(window: bytes, chunk: bytes, cutoff: nat, found: bool) {
    && cutoff <= |chunk|
    && (found <==> Contains(window + chunk, Warning()))
    && (!found ==> cutoff == |chunk|)
    && (found ==> exists index: nat :: FirstWarningAt(window + chunk, index) && cutoff == CutoffOf(index, |window|))
  }

  ghost function CutoffOf(index: nat, windowLength: nat): nat {
    if index + |Warning()| < windowLength then 0 else index + |Warning()| - windowLength
  }

  ghost predicate FirstWarningAt(s: bytes, index: int) {
    OccursAt(s, Warning(), index) && forall j :: j < index ==> !OccursAt(s, Warning(), j)
  }

  method WarningCutoff(window: bytes, chunk: bytes) returns (cutoff: nat, found: bool)
    ensures CutsAtWarning(window, chunk, cutoff, found) && cutoff <= |chunk| && (!found ==> cutoff == |chunk|)
  {
    var index := Index(window + chunk, Warning());
    if index < 0 {
      return |chunk|, false;
    }
    assert FirstWarningAt(window + chunk, index);
    var end := index + |Warning()|;
    return Min(if end < |window| then 0 else end - |window|, |chunk|), true;
  }

  method WarningWindow(previous: bytes, chunk: bytes, keep: nat) returns (window: bytes)
    ensures window == Tail(previous + chunk, keep)
  {
    window := previous + chunk;
    if |window| > keep {
      window := window[|window| - keep..];
    }
  }

  /** The invariant of a relay that has neither failed nor found the warning after `seen`. */
  ghost predicate Live(seen: bytes, out: bytes, incomplete: bytes, window: bytes) {
    && Extensible(seen)
    && out == seen[..WholePrefix(seen)]
    && incomplete == seen[WholePrefix(seen)..]
    && !Contains(seen, Warning())
    && window == Tail(out, |Warning()| - 1)
  }

  /** The run's outcome is the right one whatever else the stream still brings. */
  ghost predicate Settled(run: Outcome, seen: bytes, maxBytes: int) {
    forall rest: bytes :: Meets(run, seen + rest, maxBytes)
  }

  /** Searching the window and the new bytes is searching everything seen. */
  lemma WindowSuffices(out: bytes, chunk: bytes, window: bytes, i: int)
    requires window == Tail(out, |Warning()| - 1) && !Contains(out, Warning())
    ensures var skip := |out| - |window|;
      && (OccursAt(window + chunk, Warning(), i - skip) <==> OccursAt(out + chunk, Warning(), i))
      && (OccursAt(out + chunk, Warning(), i) ==> |out| < i + |Warning()|)
  {
    AcrossTail(out, chunk, Warning(), |Warning()| - 1, i);
  }

  /** Occurrences that correspond, shifted by `skip`, have corresponding firsts. */
  lemma ShiftedFirst(all: bytes, part: bytes, skip: int, index: int)
    requires forall i :: OccursAt(part, Warning(), i) <==> OccursAt(all, Warning(), i + skip)
    requires FirstWarningAt(part, index)
    ensures FirstWarningEnd(all, index + skip + |Warning()|)
  {
    hide OccursAt, Warning;
    forall j | j < index + skip ensures !OccursAt(all, Warning(), j) {
      assert !OccursAt(part, Warning(), j - skip);
    }
  }

  lemma ShiftedNone(all: bytes, part: bytes, skip: int)
    requires forall i :: OccursAt(part, Warning(), i) <==> OccursAt(all, Warning(), i + skip)
    ensures Contains(part, Warning()) <==> Contains(all, Warning())
  {
    hide OccursAt, Warning;
    if i :| OccursAt(all, Warning(), i) {
      assert OccursAt(part, Warning(), i - skip);
    }
  }

  lemma CutoffMeaning(out: bytes, chunk: bytes, window: bytes, cutoff: nat, found: bool)
    requires window == Tail(out, |Warning()| - 1) && !Contains(out, Warning()) && CutsAtWarning(window, chunk, cutoff, found)
    ensures if found then FirstWarningEnd(out + chunk, |out| + cutoff) else !Contains(out + chunk, Warning())
  {
    hide OccursAt, Warning, Contains, FirstWarningAt, FirstWarningEnd;
    var skip := |out| - |window|;
    forall i: int ensures OccursAt(window + chunk, Warning(), i) <==> OccursAt(out + chunk, Warning(), i + skip) {
      WindowSuffices(out, chunk, window, i + skip);
    }
    ShiftedNone(out + chunk, window + chunk, skip);
    if found {
      var index: nat :| FirstWarningAt(window + chunk, index) && cutoff == CutoffOf(index, |window|);
      ShiftedFirst(out + chunk, window + chunk, skip, index);
      FirstWarningAfter(out, chunk, window, index);
    }
  }

  /** No warning of the window ends before the new bytes. */
  lemma FirstWarningAfter(out: bytes, chunk: bytes, window: bytes, index: int)
    requires window == Tail(out, |Warning()| - 1) && !Contains(out, Warning()) && FirstWarningAt(window + chunk, index)
    ensures |window| < index + |Warning()|
  {
    hide OccursAt, Warning, Contains;
    WindowSuffices(out, chunk, window, index + |out| - |window|);
  }

  lemma ScanPiece(out: bytes, piece: bytes)
    requires WholePrefix(out) == |out|
    ensures WholePrefix(out + piece) == |out| + WholePrefix(piece)
    ensures (out + piece)[WholePrefix(out + piece)..] == piece[WholePrefix(piece)..]
    ensures Extensible(out + piece) <==> Extensible(piece)
  {
    ScanResumes(out, piece);
    assert (out + piece)[|out| + WholePrefix(piece)..] == piece[WholePrefix(piece)..];
  }

  /** Malformed bytes before the bound settle the run. */
  lemma MalformedMeets(stream: bytes, b: nat, maxBytes: int, run: Outcome)
    requires b <= Bound(stream, maxBytes) && !Extensible(stream[..b])
    requires run.err == Some(Malformed) && run.forwarded <= stream[..WholePrefix(stream[..b])]
    requires run.warning ==> Contains(stream[..Cap(stream, maxBytes)], Warning())
    ensures Meets(run, stream, maxBytes)
  {
    var scope := stream[..Bound(stream, maxBytes)];
    var rest := stream[b..Bound(stream, maxBytes)];
    assert scope == stream[..b] + rest;
    ScanMonotone(stream[..b], rest);
    assert scope[..WholePrefix(scope)] == stream[..WholePrefix(stream[..b])];
  }

  /** The bytes seen so far, without a warning, are malformed: settled. */
  lemma SettleMalformed(seen: bytes, k: nat, maxBytes: int, run: Outcome)
    requires k <= Cap(seen, maxBytes) && !Contains(seen[..k], Warning()) && !Extensible(seen[..k])
    requires run.err == Some(Malformed) && !run.warning && run.forwarded <= seen[..WholePrefix(seen[..k])]
    ensures Settled(run, seen, maxBytes)
  {
    forall rest: bytes ensures Meets(run, seen + rest, maxBytes) {
      var stream := seen + rest;
      assert stream[..k] == seen[..k];
      assert stream[..WholePrefix(seen[..k])] == seen[..WholePrefix(seen[..k])];
      BoundBeyond(stream, k, maxBytes);
      MalformedMeets(stream, k, maxBytes, run);
    }
  }

  /** A warning ends at `end`, and the bytes up to it are malformed: settled. */
  lemma SettleMalformedWarning(seen: bytes, k: nat, end: nat, maxBytes: int, run: Outcome)
    requires k <= Cap(seen, maxBytes) && FirstWarningEnd(seen[..k], end) && !Extensible(seen[..end])
    requires run.err == Some(Malformed) && run.forwarded <= seen[..WholePrefix(seen[..end])]
    ensures Settled(run, seen, maxBytes)
  {
    forall rest: bytes ensures Meets(run, seen + rest, maxBytes) {
      var stream := seen + rest;
      assert stream[..k] == seen[..k];
      assert stream[..end] == seen[..end];
      assert stream[..WholePrefix(seen[..end])] == seen[..WholePrefix(seen[..end])];
      BoundAfterWarning(stream, k, end, maxBytes);
      MalformedMeets(stream, end, maxBytes, run);
    }
  }

  /** A warning ends at `end` in well-formed bytes, and exactly those were forwarded: settled. */
  lemma SettleWarning(seen: bytes, k: nat, end: nat, maxBytes: int)
    requires k <= Cap(seen, maxBytes) && FirstWarningEnd(seen[..k], end) && Extensible(seen[..end])
    ensures Settled(Outcome(seen[..end], true, None), seen, maxBytes)
  {
    forall rest: bytes ensures Meets(Outcome(seen[..end], true, None), seen + rest, maxBytes) {
      var stream := seen + rest;
      assert stream[..k] == seen[..k];
      assert stream[..end] == seen[..end];
      BoundAfterWarning(stream, k, end, maxBytes);
    }
  }

  /** More than the cap, no warning inside it, nothing malformed: settled as an overflow. */
  lemma SettleOverflow(seen: bytes, k: nat, maxBytes: int)
    requires k == Cap(seen, maxBytes) < |seen| && !Contains(seen[..k], Warning()) && Extensible(seen[..k])
    ensures Settled(Outcome(seen[..WholePrefix(seen[..k])], false, Some(Overflow)), seen, maxBytes)
  {
    var run := Outcome(seen[..WholePrefix(seen[..k])], false, Some(Overflow));
    forall rest: bytes ensures Meets(run, seen + rest, maxBytes) {
      var stream := seen + rest;
      assert Cap(stream, maxBytes) == k;
      assert stream[..k] == seen[..k];
      BoundWithoutWarning(stream, maxBytes);
      assert seen[..k][..WholePrefix(seen[..k])] == seen[..WholePrefix(seen[..k])];
    }
  }

  lemma SettledExtends(run: Outcome, seen: bytes, more: bytes, maxBytes: int)
    requires Settled(run, seen, maxBytes)
    ensures Settled(run, seen + more, maxBytes)
  {
    hide Meets;
    forall rest: bytes ensures Meets(run, seen + more + rest, maxBytes) {
      assert seen + more + rest == seen + (more + rest);
    }
  }

  /** At the end of the stream a live relay reports a cut character and nothing else. */
  lemma LiveAtEnd(seen: bytes, out: bytes, incomplete: bytes, window: bytes, maxBytes: int)
    requires Live(seen, out, incomplete, window) && |seen| == Cap(seen, maxBytes)
    ensures Meets(Outcome(out, false, if incomplete != [] then Some(Malformed) else None), seen, maxBytes)
  {
    assert seen[..|seen|] == seen;
    BoundWithoutWarning(seen, maxBytes);
  }

  /** Where a chunk's candidate lies in everything read. */
  lemma ChunkScope(seen: bytes, data: bytes, chunk: bytes, out: bytes, incomplete: bytes, window: bytes, cutoff: nat, found: bool)
    requires Live(seen, out, incomplete, window) && chunk <= data && CutsAtWarning(window, incomplete + chunk, cutoff, found)
    ensures var all, k, end := seen + data, |seen| + |chunk|, |out| + cutoff;
      && end <= k && (!found ==> end == k)
      && all[..k] == out + (incomplete + chunk)
      && all[..end] == out + (incomplete + chunk)[..cutoff]
      && (if found then FirstWarningEnd(all[..k], end) else !Contains(all[..k], Warning()))
  {
    assert seen == out + incomplete;
    assert (seen + data)[..|seen| + |chunk|] == out + (incomplete + chunk);
    assert (seen + data)[..|out| + cutoff] == out + (incomplete + chunk)[..cutoff];
    NoWarningLast(seen, |out|);
    CutoffMeaning(out, incomplete + chunk, window, cutoff, found);
  }

  /** Whatever part of the scope was forwarded, it is safe. */
  lemma ChunkSafe(all: bytes, k: nat, end: nat, found: bool, out: bytes, maxBytes: int)
    requires end <= k <= Cap(all, maxBytes) && out <= all[..end]
    requires if found then FirstWarningEnd(all[..k], end) else !Contains(all[..k], Warning())
    ensures Safe(out, all, maxBytes)
  {
    assert all[..k][..|out|] == out == all[..|out|];
    if found {
      FirstWarningLast(all[..k], end, |out|);
    } else {
      NoWarningLast(all[..k], |out|);
    }
  }

  /** A chunk that stops the relay settles the run. */
  lemma ChunkSettles(all: bytes, k: nat, end: nat, found: bool, maxBytes: int, run: Outcome)
    requires end <= k <= Cap(all, maxBytes) && (!found ==> end == k)
    requires if found then FirstWarningEnd(all[..k], end) else !Contains(all[..k], Warning())
    requires var scope := all[..end];
      if !Extensible(scope) then run.err == Some(Malformed) && run.warning == found && run.forwarded <= scope[..WholePrefix(scope)]
      else if found then run == Outcome(scope, true, None)
      else k == Cap(all, maxBytes) < |all| && run == Outcome(scope[..WholePrefix(scope)], false, Some(Overflow))
    ensures Settled(run, all, maxBytes)
  {
    var scope := all[..end];
    assert scope[..WholePrefix(scope)] == all[..WholePrefix(scope)];
    if found {
      if Extensible(scope) {
        SettleWarning(all, k, end, maxBytes);
      } else {
        SettleMalformedWarning(all, k, end, maxBytes, run);
      }
    } else if Extensible(scope) {
      SettleOverflow(all, k, maxBytes);
    } else {
      SettleMalformed(all, k, maxBytes, run);
    }
  }

  /** A candidate that ends in the warning leaves no cut character. */
  lemma WarningLeavesNothing(all: bytes, k: nat, end: nat, out: bytes, candidate: bytes)
    requires k <= |all| && FirstWarningEnd(all[..k], end) && end <= k && all[..end] == out + candidate && WholePrefix(out) == |out|
    ensures Extensible(candidate) ==> WholePrefix(candidate) == |candidate|
  {
    ScopeEndsInWarning(all[..k], end);
    assert all[..k][..end] == all[..end];
    AsciiEndsWhole(all[..end]);
    ScanPiece(out, candidate);
  }

  /** What one chunk does, step by step: forwarded bytes, flags and new window. */
  ghost predicate ChunkRun(candidate: bytes, found: bool, more: bool, out: bytes, window: bytes, wrote: bool, run: Outcome, failed: bool,
    incomplete': bytes, window': bytes)
  {
    var complete := candidate[..WholePrefix(candidate)];
    && failed == (run.warning || run.err.Some?)
    && run.warning == found
    && (if !Extensible(candidate) then run == Outcome(out, found, Some(Malformed))
        else if !wrote then run.err == Some(RelayFailed) && exists n: nat :: n <= |complete| && run.forwarded == out + complete[..n]
        else run == Outcome(out + complete, found, if more && !found then Some(Overflow) else None))
    && (!failed ==> incomplete' == candidate[WholePrefix(candidate)..] && window' == Tail(window + complete, |Warning()| - 1))
  }

  lemma NoShortWarning(s: bytes)
    requires |s| < |WARNING_TEXT|
    ensures !Contains(s, Warning())
  {
  }

  /** The candidate of a chunk, placed in everything read: it starts at the forwarded bytes and ends at `end`. */
  ghost predicate Placed(all: bytes, k: nat, end: nat, out: bytes, candidate: bytes, found: bool) {
    && end <= k <= |all| && (!found ==> end == k)
    && all[..end] == out + candidate
    && WholePrefix(out) == |out|
    && (if found then FirstWarningEnd(all[..k], end) else !Contains(all[..k], Warning()))
  }

  lemma LiveIsWhole(seen: bytes, out: bytes, incomplete: bytes, window: bytes)
    requires Live(seen, out, incomplete, window)
    ensures WholePrefix(out) == |out| && WellFormed(out) && NulFree(out)
  {
    WholePrefixIsWhole(seen);
  }

  /** Scanning the candidate is scanning everything up to its end. */
  lemma PlacedScan(all: bytes, k: nat, end: nat, out: bytes, candidate: bytes, found: bool)
    requires Placed(all, k, end, out, candidate, found)
    ensures Extensible(all[..end]) <==> Extensible(candidate)
    ensures all[..end][..WholePrefix(all[..end])] == out + candidate[..WholePrefix(candidate)]
    ensures all[..end][WholePrefix(all[..end])..] == candidate[WholePrefix(candidate)..]
  {
    ScanPiece(out, candidate);
  }

  lemma PlacedWhole(all: bytes, k: nat, end: nat, out: bytes, candidate: bytes, found: bool)
    requires Placed(all, k, end, out, candidate, found)
    ensures WellFormed(out + candidate[..WholePrefix(candidate)]) && NulFree(out + candidate[..WholePrefix(candidate)])
  {
    PlacedScan(all, k, end, out, candidate, found);
    WholePrefixIsWhole(all[..end]);
  }

  lemma PlacedWarning(all: bytes, k: nat, end: nat, out: bytes, candidate: bytes)
    requires Placed(all, k, end, out, candidate, true) && Extensible(candidate)
    ensures candidate[..WholePrefix(candidate)] == candidate
  {
    WarningLeavesNothing(all, k, end, out, candidate);
  }

  lemma ChunkPlaced(seen: bytes, data: bytes, chunk: bytes, out: bytes, incomplete: bytes, window: bytes, cutoff: nat, found: bool)
    requires Live(seen, out, incomplete, window) && chunk <= data && CutsAtWarning(window, incomplete + chunk, cutoff, found)
    requires cutoff <= |incomplete + chunk|
    ensures Placed(seen + data, |seen| + |chunk|, |out| + cutoff, out, (incomplete + chunk)[..cutoff], found)
  {
    ChunkScope(seen, data, chunk, out, incomplete, window, cutoff, found);
    LiveIsWhole(seen, out, incomplete, window);
  }

  /** The forwarded bytes never leave the scope of the chunk. */
  lemma RunInScope(all: bytes, k: nat, end: nat, out: bytes, candidate: bytes, found: bool, more: bool, window: bytes, wrote: bool, run: Outcome,
    failed: bool, incomplete': bytes, window': bytes)
    requires Placed(all, k, end, out, candidate, found)
    requires ChunkRun(candidate, found, more, out, window, wrote, run, failed, incomplete', window')
    ensures run.forwarded <= all[..end]
  {
  }

  /** A chunk that stops the relay without a write failure settles the run. */
  lemma RunSettles(all: bytes, k: nat, end: nat, out: bytes, candidate: bytes, found: bool, maxBytes: int, window: bytes, run: Outcome,
    incomplete': bytes, window': bytes)
    requires Placed(all, k, end, out, candidate, found) && k == Cap(all, maxBytes)
    requires ChunkRun(candidate, found, |all| > k, out, window, true, run, true, incomplete', window')
    ensures Settled(run, all, maxBytes)
  {
    hide Settled, WellFormed, NulFree, FirstWarningEnd, Contains, Warning, Tail, WholePrefix;
    PlacedScan(all, k, end, out, candidate, found);
    if found && Extensible(candidate) {
      PlacedWarning(all, k, end, out, candidate);
    }
    ChunkSettles(all, k, end, found, maxBytes, run);
  }

  /** A chunk that does not stop the relay leaves it live. */
  lemma RunLives(all: bytes, k: nat, end: nat, out: bytes, candidate: bytes, found: bool, window: bytes, run: Outcome,
    incomplete': bytes, window': bytes)
    requires Placed(all, k, end, out, candidate, found) && k == |all| && window == Tail(out, |Warning()| - 1)
    requires ChunkRun(candidate, found, false, out, window, true, run, false, incomplete', window')
    ensures Live(all, run.forwarded, incomplete', window')
  {
    assert all[..k] == all;
    PlacedScan(all, k, end, out, candidate, found);
    TailOfTail(out, candidate[..WholePrefix(candidate)], |Warning()| - 1);
  }

  lemma ChunkConcludes(seen: bytes, data: bytes, chunk: bytes, out: bytes, incomplete: bytes, window: bytes, cutoff: nat, found: bool,
    maxBytes: int, wrote: bool, run: Outcome, failed: bool, incomplete': bytes, window': bytes)
    requires Live(seen, out, incomplete, window) && |seen| == Cap(seen, maxBytes) < maxBytes
    requires chunk == if |data| > maxBytes - |seen| then data[..maxBytes - |seen|] else data
    requires CutsAtWarning(window, incomplete + chunk, cutoff, found) && cutoff <= |incomplete + chunk|
    requires ChunkRun((incomplete + chunk)[..cutoff], found, |data| > |chunk|, out, window, wrote, run, failed, incomplete', window')
    ensures !failed ==> Live(seen + data, run.forwarded, incomplete', window') && |seen| + |chunk| == |seen + data| == Cap(seen + data, maxBytes)
    ensures failed && wrote ==> Settled(run, seen + data, maxBytes)
    ensures Safe(run.forwarded, seen + data, maxBytes)
    ensures wrote ==> WellFormed(run.forwarded) && NulFree(run.forwarded)
  {
    hide Settled, Safe, CutsAtWarning, WellFormed, NulFree, FirstWarningEnd, Warning, WholePrefix, Extensible, Contains;
    var all, k, end := seen + data, |seen| + |chunk|, |out| + cutoff;
    var candidate := (incomplete + chunk)[..cutoff];
    ChunkPlaced(seen, data, chunk, out, incomplete, window, cutoff, found);
    RunInScope(all, k, end, out, candidate, found, |data| > |chunk|, window, wrote, run, failed, incomplete', window');
    ChunkSafe(all, k, end, found, run.forwarded, maxBytes);
    LiveIsWhole(seen, out, incomplete, window);
    PlacedWhole(all, k, end, out, candidate, found);
    if failed && wrote {
      RunSettles(all, k, end, out, candidate, found, maxBytes, window, run, incomplete', window');
    }
    if !failed {
      RunLives(all, k, end, out, candidate, found, window, run, incomplete', window');
    }
  }

  // ----- the relay as a function of how the stream is cut

  /** A relay that goes on, or one that has stopped with its outcome. */
  datatype Relay = Running(out: bytes, incomplete: bytes, window: bytes, total: nat) | Stopped(result: Outcome)

  lemma CutoffExists(window: bytes, chunk: bytes)
    requires Contains(window + chunk, Warning())
    ensures exists cutoff: nat :: CutsAtWarning(window, chunk, cutoff, true)
  {
    hide OccursAt, Warning;
    var all := window + chunk;
    var i :| OccursAt(all, Warning(), i);
    FirstWarningExists(all, i);
    var end :| FirstWarningEnd(all, end);
    var index := end - |Warning()|;
    OccursInside(all, Warning(), index);
    assert FirstWarningAt(all, index) && CutoffOf(index, |window|) <= |chunk|;
    assert CutsAtWarning(window, chunk, CutoffOf(index, |window|), true);
  }

  lemma CutoffUnique(window: bytes, chunk: bytes, a: nat, b: nat, found: bool, foundToo: bool)
    requires CutsAtWarning(window, chunk, a, found) && CutsAtWarning(window, chunk, b, foundToo)
    ensures a == b && found == foundToo
  {
    hide OccursAt, Warning, Contains;
  }

  /** Where a chunk is cut off: after the first warning, else at its end. */
  ghost function Cutoff(window: bytes, chunk: bytes): (cutoff: nat)
    ensures CutsAtWarning(window, chunk, cutoff, Contains(window + chunk, Warning())) && cutoff <= |chunk|
  {
    if Contains(window + chunk, Warning()) then
      CutoffExists(window, chunk);
      var cutoff: nat :| CutsAtWarning(window, chunk, cutoff, true); cutoff
    else |chunk|
  }

  function Admitted(data: bytes, total: nat, maxBytes: int): bytes
    requires total < maxBytes
  {
    if |data| > maxBytes - total then data[..maxBytes - total] else data
  }

  /** What one read does to a relay whose writes succeed. */
  ghost function After(r: Relay, data: bytes, maxBytes: int): Relay {
    if r.Stopped? || data == [] then r
    else if maxBytes <= r.total then Stopped(Outcome(r.out, false, Some(Overflow)))
    else
      var chunk := Admitted(data, r.total, maxBytes);
      var combined := r.incomplete + chunk;
      var found := Contains(r.window + combined, Warning());
      var candidate := combined[..Cutoff(r.window, combined)];
      var complete := candidate[..WholePrefix(candidate)];
      if !Extensible(candidate) then Stopped(Outcome(r.out, found, Some(Malformed)))
      else if found then Stopped(Outcome(r.out + complete, true, None))
      else if |data| > |chunk| then Stopped(Outcome(r.out + complete, false, Some(Overflow)))
      else Running(r.out + complete, candidate[WholePrefix(candidate)..], Tail(r.window + complete, |Warning()| - 1), r.total + |chunk|)
  }

  ghost function Fold(chunks: seq<bytes>, maxBytes: int): Relay {
    if chunks == [] then Running([], [], [], 0)
    else After(Fold(chunks[..|chunks| - 1], maxBytes), chunks[|chunks| - 1], maxBytes)
  }

  ghost function Concluded(r: Relay): Outcome {
    if r.Stopped? then r.result else Outcome(r.out, false, if r.incomplete != [] then Some(Malformed) else None)
  }

  /** The outcome for a stream cut into these reads, when reads and writes succeed. */
  ghost function Relayed(chunks: seq<bytes>, maxBytes: int): Outcome {
    Concluded(Fold(chunks, maxBytes))
  }

  function Concat(chunks: seq<bytes>): bytes {
    if chunks == [] then [] else Concat(chunks[..|chunks| - 1]) + chunks[|chunks| - 1]
  }

  lemma FoldSnoc(chunks: seq<bytes>, data: bytes, maxBytes: int)
    ensures Fold(chunks + [data], maxBytes) == After(Fold(chunks, maxBytes), data, maxBytes)
    ensures Concat(chunks + [data]) == Concat(chunks) + data
  {
    hide After;
    assert (chunks + [data])[..|chunks|] == chunks;
  }

  /** A step of the function is a chunk's run whose write succeeds. */
  lemma AfterRuns(r: Relay, data: bytes, maxBytes: int) returns (run: Outcome, incomplete': bytes, window': bytes)
    requires r.Running? && data != [] && r.total < maxBytes
    ensures var chunk := Admitted(data, r.total, maxBytes);
      var combined := r.incomplete + chunk;
      var found, next := Contains(r.window + combined, Warning()), After(r, data, maxBytes);
      && CutsAtWarning(r.window, combined, Cutoff(r.window, combined), found) && Cutoff(r.window, combined) <= |combined|
      && ChunkRun(combined[..Cutoff(r.window, combined)], found, |data| > |chunk|, r.out, r.window, true, run, next.Stopped?, incomplete', window')
      && next == if next.Stopped? then Stopped(run) else Running(run.forwarded, incomplete', window', r.total + |chunk|)
  {
    hide Contains, Warning, Cutoff, WholePrefix, Extensible, Tail;
    var next := After(r, data, maxBytes);
    run, incomplete', window' := Concluded(next), [], [];
    if next.Running? {
      run, incomplete', window' := Outcome(next.out, false, None), next.incomplete, next.window;
    }
  }

  /** Every cutting keeps the relay live, or has settled its outcome. */
  lemma {:induction false} FoldInvariant(chunks: seq<bytes>, maxBytes: int)
    ensures var f, seen := Fold(chunks, maxBytes), Concat(chunks);
      && (f.Running? ==> Live(seen, f.out, f.incomplete, f.window) && f.total == |seen| == Cap(seen, maxBytes))
      && (f.Stopped? ==> Settled(f.result, seen, maxBytes))
  {
    hide Live, Settled, After, ChunkRun, CutsAtWarning, Cap, Warning, Contains;
    if chunks == [] {
      LiveInitially(maxBytes);
    } else {
      var front, data := chunks[..|chunks| - 1], chunks[|chunks| - 1];
      FoldInvariant(front, maxBytes);
      StepInvariant(Fold(front, maxBytes), Concat(front), data, maxBytes);
    }
  }

  lemma StepInvariant(r: Relay, seen: bytes, data: bytes, maxBytes: int)
    requires r.Running? ==> Live(seen, r.out, r.incomplete, r.window) && r.total == |seen| == Cap(seen, maxBytes)
    requires r.Stopped? ==> Settled(r.result, seen, maxBytes)
    ensures var f, all := After(r, data, maxBytes), seen + data;
      && (f.Running? ==> Live(all, f.out, f.incomplete, f.window) && f.total == |all| == Cap(all, maxBytes))
      && (f.Stopped? ==> Settled(f.result, all, maxBytes))
  {
    hide Live, Settled, ChunkRun, CutsAtWarning, Cutoff, Cap, Warning, Contains, WholePrefix, Extensible, Tail, WellFormed, NulFree, Safe;
    if r.Stopped? {
      SettledExtends(r.result, seen, data, maxBytes);
    } else if data == [] {
      assert seen + data == seen;
    } else if maxBytes <= r.total {
      FullConcludes(seen, data, r.out, r.incomplete, r.window, maxBytes);
    } else {
      var run, incomplete', window' := AfterRuns(r, data, maxBytes);
      var chunk := Admitted(data, r.total, maxBytes);
      var combined := r.incomplete + chunk;
      ChunkConcludes(seen, data, chunk, r.out, r.incomplete, r.window, Cutoff(r.window, combined), Contains(r.window + combined, Warning()),
        maxBytes, true, run, After(r, data, maxBytes).Stopped?, incomplete', window');
    }
  }

  /** However a stream is cut, the outcome is the expected one, up to what malformed bytes leave open. */
  lemma RelayedMeets(chunks: seq<bytes>, maxBytes: int)
    ensures Meets(Relayed(chunks, maxBytes), Concat(chunks), maxBytes)
  {
    hide Live, Settled, Meets, After, Cap, Fold;
    var f := Fold(chunks, maxBytes);
    FoldInvariant(chunks, maxBytes);
    if f.Running? {
      LiveAtEnd(Concat(chunks), f.out, f.incomplete, f.window, maxBytes);
    } else {
      SettledNow(f.result, Concat(chunks), maxBytes);
    }
  }

  // ----- exactly when the cutting matters

  /** The size of the buffer that the relay reads into. */
  const READ_SIZE := 4096

  /** One way to cut a stream into reads. */
  ghost predicate CutOf(chunks: seq<bytes>, stream: bytes) {
    Concat(chunks) == stream && forall i :: 0 <= i < |chunks| ==> |chunks[i]| <= READ_SIZE
  }

  /** All ways to cut a stream into reads lead to one outcome. */
  ghost predicate CuttingIsIrrelevant(stream: bytes, maxBytes: int) {
    forall a, b :: CutOf(a, stream) && CutOf(b, stream) ==> Relayed(a, maxBytes) == Relayed(b, maxBytes)
  }

  /** What login reports of an outcome; the warning comes first (internal/delegate/glab/login_terminal.go:172-190). */
  datatype Report = InsecureStorage | Failure(error: LoginError) | NoFailure

  function Reported(o: Outcome): Report {
    if o.warning then InsecureStorage else if o.err.Some? then Failure(o.err.value) else NoFailure
  }

  ghost predicate ReportIsStable(stream: bytes, maxBytes: int) {
    forall a, b :: CutOf(a, stream) && CutOf(b, stream) ==> Reported(Relayed(a, maxBytes)) == Reported(Relayed(b, maxBytes))
  }

  ghost function Scope(stream: bytes, maxBytes: int): bytes {
    stream[..Bound(stream, maxBytes)]
  }

  ghost predicate Warned(stream: bytes, maxBytes: int) {
    Contains(stream[..Cap(stream, maxBytes)], Warning())
  }

  lemma EmptyIsExtensible()
    ensures Extensible([])
  {
  }

  /** The length at which a string is first seen to be malformed. */
  ghost function FirstBad(s: bytes): (m: nat)
    requires !Extensible(s)
    ensures 0 < m <= |s|
    decreases |s|
  {
    EmptyIsExtensible();
    var front := s[..|s| - 1];
    if !Extensible(front) then FirstBad(front) else |s|
  }

  lemma {:induction false} FirstBadMeaning(s: bytes, k: nat)
    requires !Extensible(s) && k <= |s|
    ensures Extensible(s[..k]) <==> k < FirstBad(s)
    decreases |s|
  {
    hide Extensible;
    EmptyIsExtensible();
    var front := s[..|s| - 1];
    if k == |s| {
      assert s[..k] == s;
    } else if !Extensible(front) {
      FirstBadMeaning(front, k);
      assert front[..k] == s[..k];
    } else {
      assert front == s[..k] + front[k..];
      ScanMonotone(s[..k], front[k..]);
    }
  }

  /** Malformed bytes are noticed within four bytes after the last whole character. */
  lemma FirstBadNear(s: bytes)
    requires !Extensible(s)
    ensures WholePrefix(s) < FirstBad(s) <= WholePrefix(s) + 4
    ensures forall k :: WholePrefix(s) <= k < FirstBad(s) ==> WholePrefix(s[..k]) == WholePrefix(s)
  {
    hide WholePrefix, FirstBad;
    var k := WholePrefix(s);
    WholePrefixIsWhole(s);
    WholeIsExtensible(s[..k]);
    FirstBadMeaning(s, k);
    if k + 4 < |s| {
      assert s == s[..k + 4] + s[k + 4..];
      ScanMonotone(s[..k + 4], s[k + 4..]);
      PartialIsShort(s[..k + 4]);
      FirstBadMeaning(s, k + 4);
    }
    forall j | k <= j < FirstBad(s) ensures WholePrefix(s[..j]) == k {
      assert s == s[..j] + s[j..] && s[..j] == s[..k] + s[k..j];
      ScanMonotone(s[..j], s[j..]);
      ScanMonotone(s[..k], s[k..j]);
    }
  }

  /** The warning can be noticed after malformed bytes: one read reaches from before they are noticed to the end of the warning. */
  ghost predicate WarningInReach(stream: bytes, maxBytes: int) {
    var scope := Scope(stream, maxBytes);
    !Extensible(scope) && Warned(stream, maxBytes) && |scope| <= FirstBad(scope) - 1 + READ_SIZE
  }

  /** The outcome depends on the cutting exactly when there are malformed bytes before the bound and also a whole character before
      them or a warning within reach. */
  lemma CuttingMatters(stream: bytes, maxBytes: int)
    ensures var scope := Scope(stream, maxBytes);
      !CuttingIsIrrelevant(stream, maxBytes) <==>
      !Extensible(scope) && (WholePrefix(scope) > 0 || WarningInReach(stream, maxBytes))
  {
    hide Relayed, CutOf, Extensible, WholePrefix, Bound, Warned, FirstBad, WarningInReach;
    var scope := Scope(stream, maxBytes);
    if WarningInReach(stream, maxBytes) {
      ReachIsMalformed(stream, maxBytes);
      var a, b := TwoReports(stream, maxBytes);
      assert !CuttingIsIrrelevant(stream, maxBytes);
    } else if !Extensible(scope) && WholePrefix(scope) > 0 {
      var a, b := TwoOutputs(stream, maxBytes);
      assert !CuttingIsIrrelevant(stream, maxBytes);
    } else {
      forall a, b | CutOf(a, stream) && CutOf(b, stream) ensures Relayed(a, maxBytes) == Relayed(b, maxBytes) {
        OneOutcome(a, stream, maxBytes);
        OneOutcome(b, stream, maxBytes);
      }
    }
  }

  /** The error reported depends on it exactly when a warning is within reach after malformed bytes: some cuttings report insecure
      storage, others only malformed output. */
  lemma ReportMatters(stream: bytes, maxBytes: int)
    ensures !ReportIsStable(stream, maxBytes) <==> WarningInReach(stream, maxBytes)
  {
    hide Relayed, CutOf, Extensible, WholePrefix, Bound, Warned, FirstBad, WarningInReach;
    if WarningInReach(stream, maxBytes) {
      var a, b := TwoReports(stream, maxBytes);
      assert !ReportIsStable(stream, maxBytes);
    } else {
      forall a, b | CutOf(a, stream) && CutOf(b, stream) ensures Reported(Relayed(a, maxBytes)) == Reported(Relayed(b, maxBytes)) {
        OneReport(a, stream, maxBytes);
        OneReport(b, stream, maxBytes);
      }
    }
  }

  lemma ReachIsMalformed(stream: bytes, maxBytes: int)
    requires WarningInReach(stream, maxBytes)
    ensures !Extensible(Scope(stream, maxBytes)) && Warned(stream, maxBytes)
  {
  }

  // ----- the outcome of any cutting of a malformed stream

  lemma {:induction false} ConcatAppend(a: seq<bytes>, b: seq<bytes>)
    ensures Concat(a + b) == Concat(a) + Concat(b)
    decreases |b|
  {
    if b == [] {
      assert a + b == a;
    } else {
      var front, last := b[..|b| - 1], b[|b| - 1];
      ConcatAppend(a, front);
      assert a + b == (a + front) + [last];
      FoldSnoc(a + front, last, 0);
    }
  }

  /** The read that brings malformed bytes to notice. */
  lemma {:induction false} FatalChunk(chunks: seq<bytes>, m: nat) returns (before: seq<bytes>, c: bytes, after: seq<bytes>)
    requires 0 < m <= |Concat(chunks)|
    ensures chunks == before + [c] + after && |Concat(before)| < m <= |Concat(before)| + |c|
    decreases |chunks|
  {
    var front, last := chunks[..|chunks| - 1], chunks[|chunks| - 1];
    if m <= |Concat(front)| {
      before, c, after := FatalChunk(front, m);
      after := after + [last];
    } else {
      before, c, after := front, last, [];
    }
  }

  lemma {:induction false} FoldStays(chunks: seq<bytes>, after: seq<bytes>, maxBytes: int)
    requires Fold(chunks, maxBytes).Stopped?
    ensures Fold(chunks + after, maxBytes) == Fold(chunks, maxBytes)
    decreases |after|
  {
    if after == [] {
      assert chunks + after == chunks;
    } else {
      var front, last := after[..|after| - 1], after[|after| - 1];
      FoldStays(chunks, front, maxBytes);
      assert chunks + after == (chunks + front) + [last];
      FoldSnoc(chunks + front, last, maxBytes);
    }
  }

  /** One read scans the scope of everything read. */
  lemma StepOutcome(r: Relay, seen: bytes, data: bytes, maxBytes: int)
    requires r.Running? && Live(seen, r.out, r.incomplete, r.window) && r.total == |seen| == Cap(seen, maxBytes) < maxBytes && data != []
    ensures var all := seen + data;
      && (!Extensible(Scope(all, maxBytes)) ==> After(r, data, maxBytes) == Stopped(Outcome(r.out, Warned(all, maxBytes), Some(Malformed))))
      && (Extensible(Scope(all, maxBytes)) && !Warned(all, maxBytes) && |all| <= maxBytes ==> After(r, data, maxBytes).Running?)
  {
    hide Live, Warning, Contains, WholePrefix, Extensible, Cutoff, Bound, FirstWarningEnd, CutsAtWarning, Tail;
    var all, chunk := seen + data, Admitted(data, r.total, maxBytes);
    var combined, k := r.incomplete + chunk, |seen| + |chunk|;
    var cutoff, found := Cutoff(r.window, combined), Contains(r.window + combined, Warning());
    ChunkPlaced(seen, data, chunk, r.out, r.incomplete, r.window, cutoff, found);
    PlacedScan(all, k, |r.out| + cutoff, r.out, combined[..cutoff], found);
    assert k == Cap(all, maxBytes);
    if found {
      BoundAfterWarning(all, k, |r.out| + cutoff, maxBytes);
    } else {
      BoundWithoutWarning(all, maxBytes);
    }
  }

  /** Nothing malformed, no warning and not too much: the relay goes on. */
  lemma {:induction false} FoldRuns(chunks: seq<bytes>, maxBytes: int)
    requires Extensible(Concat(chunks)) && !Contains(Concat(chunks), Warning()) && |Concat(chunks)| <= maxBytes
    ensures Fold(chunks, maxBytes).Running?
  {
    hide Extensible, Contains, Warning, After, Live, Settled, Bound;
    if chunks != [] {
      var front, data := chunks[..|chunks| - 1], chunks[|chunks| - 1];
      var all, seen := Concat(chunks), Concat(front);
      ScanMonotone(seen, data);
      NoWarningLast(all, |seen|);
      assert all[..|seen|] == seen && all[..|all|] == all;
      FoldRuns(front, maxBytes);
      FoldInvariant(front, maxBytes);
      if data == [] {
        TracksIdle(Fold(front, maxBytes), data, maxBytes);
      } else {
        BoundWithoutWarning(all, maxBytes);
        StepOutcome(Fold(front, maxBytes), seen, data, maxBytes);
      }
    }
  }

  /** A first warning is the first in every beginning that holds it. */
  lemma FirstWarningWithin(s: bytes, k: nat, end: nat)
    requires end <= k <= |s| && FirstWarningEnd(s, end)
    ensures FirstWarningEnd(s[..k], end)
  {
    assert s[..k] == s[0..k];
    forall j: int ensures OccursAt(s[..k], Warning(), j) ==> OccursAt(s, Warning(), j) {
      OccursInSlice(s, Warning(), 0, k, j);
    }
    OccursInSlice(s, Warning(), 0, k, end - |Warning()|);
  }

  /** The bytes before the bound hold no warning until the last. */
  lemma ScopeUnwarned(stream: bytes, n: nat, maxBytes: int)
    requires n < Bound(stream, maxBytes)
    ensures !Contains(stream[..n], Warning())
  {
    hide Contains, Warning, Bound, FirstWarningEnd;
    var cap := Cap(stream, maxBytes);
    if Contains(stream[..cap], Warning()) {
      WarningBound(stream, maxBytes);
      NoWarningBefore(stream, Bound(stream, maxBytes), n);
    } else {
      NoWarningLast(stream[..cap], n);
      assert stream[..cap][..n] == stream[..n];
    }
  }

  /** Once malformed bytes are read, so is a malformed scope; the warning is in it as soon as it was read. */
  lemma ScopeOfPart(stream: bytes, n: nat, maxBytes: int)
    requires !Extensible(Scope(stream, maxBytes)) && FirstBad(Scope(stream, maxBytes)) <= n <= |stream|
    ensures !Extensible(Scope(stream[..n], maxBytes))
    ensures Warned(stream[..n], maxBytes) <==> Warned(stream, maxBytes) && |Scope(stream, maxBytes)| <= n
  {
    hide Extensible, Contains, Warning, FirstBad, Bound, FirstWarningEnd;
    var scope, data := Scope(stream, maxBytes), stream[..n];
    var b, cap := |scope|, Cap(data, maxBytes);
    if Warned(stream, maxBytes) && b <= n {
      WarningBound(stream, maxBytes);
      assert data[..cap] == stream[..cap];
      FirstWarningWithin(stream, cap, b);
      BoundAfterWarning(data, cap, b, maxBytes);
      assert data[..b] == scope;
    } else {
      if n < b {
        ScopeUnwarned(stream, n, maxBytes);
        assert data[..cap] == data;
      } else {
        NoWarningLast(stream[..Cap(stream, maxBytes)], cap);
        assert stream[..Cap(stream, maxBytes)][..cap] == data[..cap];
        BoundWithoutWarning(stream, maxBytes);
      }
      BoundWithoutWarning(data, maxBytes);
      FirstBadMeaning(scope, cap);
      assert data[..cap] == scope[..cap];
    }
  }

  /** For any cutting, at the read that brings malformed bytes to notice: what was forwarded are the whole characters read before
      it, and the warning is noticed exactly if that read reaches its end. */
  lemma CuttingResult(before: seq<bytes>, c: bytes, after: seq<bytes>, stream: bytes, maxBytes: int)
    requires Concat(before + [c] + after) == stream && !Extensible(Scope(stream, maxBytes))
    requires |Concat(before)| < FirstBad(Scope(stream, maxBytes)) <= |Concat(before)| + |c|
    ensures |Concat(before)| + |c| <= |stream|
    ensures var t := |Concat(before)|;
      Relayed(before + [c] + after, maxBytes) == Outcome(stream[..WholePrefix(stream[..t])],
        Warned(stream, maxBytes) && |Scope(stream, maxBytes)| <= t + |c|, Some(Malformed))
  {
    hide Extensible, Contains, FirstBad, Bound, Live, Settled, After, Fold, WholePrefix, Warned, Concat, Warning;
    var t, scope := |Concat(before)|, Scope(stream, maxBytes);
    ConcatAppend(before + [c], after);
    FoldSnoc(before, c, maxBytes);
    var n := t + |c|;
    assert Concat(before) == stream[..t] && Concat(before) + c == stream[..n];
    assert scope[..t] == stream[..t];
    FirstBadMeaning(scope, t);
    ScopeUnwarned(stream, t, maxBytes);
    FoldRuns(before, maxBytes);
    FoldInvariant(before, maxBytes);
    var r := Fold(before, maxBytes);
    LiveOut(stream[..t], r.out, r.incomplete, r.window);
    ScopeOfPart(stream, n, maxBytes);
    StepOutcome(r, stream[..t], c, maxBytes);
    FoldStays(before + [c], after, maxBytes);
  }

  lemma LiveOut(seen: bytes, out: bytes, incomplete: bytes, window: bytes)
    requires Live(seen, out, incomplete, window)
    ensures out == seen[..WholePrefix(seen)]
  {
    hide WholePrefix, Contains;
  }

  // ----- all cuttings alike

  /** Some read of a cutting is the one that notices; nothing is longer than a read. */
  lemma MalformedCut(chunks: seq<bytes>, stream: bytes, maxBytes: int) returns (t: nat, n: nat)
    requires CutOf(chunks, stream) && !Extensible(Scope(stream, maxBytes))
    ensures t < FirstBad(Scope(stream, maxBytes)) <= n <= t + READ_SIZE && n <= |stream|
    ensures Relayed(chunks, maxBytes) == Outcome(stream[..WholePrefix(stream[..t])],
      Warned(stream, maxBytes) && |Scope(stream, maxBytes)| <= n, Some(Malformed))
  {
    hide Extensible, FirstBad, Bound, Relayed, WholePrefix, Warned;
    var before, c, after := FatalChunk(chunks, FirstBad(Scope(stream, maxBytes)));
    assert c == chunks[|before|];
    CuttingResult(before, c, after, stream, maxBytes);
    t, n := |Concat(before)|, |Concat(before)| + |c|;
  }

  lemma OneReport(chunks: seq<bytes>, stream: bytes, maxBytes: int)
    ensures CutOf(chunks, stream) && !WarningInReach(stream, maxBytes) ==>
      Reported(Relayed(chunks, maxBytes)) == Reported(Expectation(stream, maxBytes))
  {
    hide Relayed, Extensible, WholePrefix, Bound, Warned, FirstBad, Concat;
    if !CutOf(chunks, stream) {
      return;
    }
    if Extensible(Scope(stream, maxBytes)) {
      RelayedMeets(chunks, maxBytes);
    } else {
      var t, n := MalformedCut(chunks, stream, maxBytes);
    }
  }

  /** The one outcome, or at least report, where there is only one. */
  ghost function Expectation(stream: bytes, maxBytes: int): Outcome {
    if Extensible(Scope(stream, maxBytes)) then Expected(stream, maxBytes) else Outcome([], false, Some(Malformed))
  }

  lemma OneOutcome(chunks: seq<bytes>, stream: bytes, maxBytes: int)
    ensures CutOf(chunks, stream) && !WarningInReach(stream, maxBytes) ==>
      (!Extensible(Scope(stream, maxBytes)) ==> WholePrefix(Scope(stream, maxBytes)) == 0) ==>
      Relayed(chunks, maxBytes) == Expectation(stream, maxBytes)
  {
    hide Relayed, Extensible, WholePrefix, Bound, Warned, FirstBad, Concat;
    if !CutOf(chunks, stream) {
      return;
    }
    if Extensible(Scope(stream, maxBytes)) {
      RelayedMeets(chunks, maxBytes);
    } else {
      var scope := Scope(stream, maxBytes);
      var t, n := MalformedCut(chunks, stream, maxBytes);
      FirstBadNear(scope);
      assert scope[..t] == stream[..t];
    }
  }

  // ----- cuttings that differ

  function Bytewise(s: bytes): (chunks: seq<bytes>)
    ensures |chunks| == |s| && forall i :: 0 <= i < |chunks| ==> |chunks[i]| == 1
  {
    if s == [] then [] else Bytewise(s[..|s| - 1]) + [[s[|s| - 1]]]
  }

  lemma {:induction false} BytewiseConcat(s: bytes)
    ensures Concat(Bytewise(s)) == s
  {
    if s != [] {
      BytewiseConcat(s[..|s| - 1]);
      FoldSnoc(Bytewise(s[..|s| - 1]), [s[|s| - 1]], 0);
      assert s == s[..|s| - 1] + [s[|s| - 1]];
    }
  }

  /** Byte by byte, except for one read from `t` to `n`. */
  ghost function OneLongRead(stream: bytes, t: nat, n: nat): seq<bytes>
    requires t <= n <= |stream|
  {
    Bytewise(stream[..t]) + [stream[t..n]] + Bytewise(stream[n..])
  }

  lemma OneLongReadCuts(stream: bytes, t: nat, n: nat, maxBytes: int)
    requires t < n <= |stream| && n - t <= READ_SIZE && !Extensible(Scope(stream, maxBytes)) && t < FirstBad(Scope(stream, maxBytes)) <= n
    ensures CutOf(OneLongRead(stream, t, n), stream)
    ensures Relayed(OneLongRead(stream, t, n), maxBytes) == Outcome(stream[..WholePrefix(stream[..t])],
      Warned(stream, maxBytes) && |Scope(stream, maxBytes)| <= n, Some(Malformed))
  {
    hide Extensible, FirstBad, Bound, Relayed, WholePrefix, Warned, Concat, Bytewise;
    var before, c, after := Bytewise(stream[..t]), stream[t..n], Bytewise(stream[n..]);
    BytewiseConcat(stream[..t]);
    BytewiseConcat(stream[n..]);
    FoldSnoc(before, c, 0);
    ConcatAppend(before + [c], after);
    assert stream[..t] + c + stream[n..] == stream;
    CuttingResult(before, c, after, stream, maxBytes);
  }

  /** With a warning within reach, one read takes it in with the malformed bytes, and in another cutting they come alone. */
  lemma TwoReports(stream: bytes, maxBytes: int) returns (a: seq<bytes>, b: seq<bytes>)
    requires WarningInReach(stream, maxBytes)
    ensures CutOf(a, stream) && CutOf(b, stream)
    ensures Reported(Relayed(a, maxBytes)) == InsecureStorage && Reported(Relayed(b, maxBytes)) == Failure(Malformed)
  {
    hide Extensible, FirstBad, Bound, Relayed, WholePrefix, Concat, OneLongRead, FirstWarningEnd, Contains;
    var scope := Scope(stream, maxBytes);
    var m := FirstBad(scope);
    WarningBound(stream, maxBytes);
    WarningTail(stream, |scope|);
    StillMalformed(scope);
    FirstBadMeaning(scope, |scope| - 1);
    OneLongReadCuts(stream, m - 1, |scope|, maxBytes);
    OneLongReadCuts(stream, m - 1, m, maxBytes);
    a, b := OneLongRead(stream, m - 1, |scope|), OneLongRead(stream, m - 1, m);
  }

  /** With a whole character before the malformed bytes, it is forwarded byte by byte, and its end is not in a read that ends in them. */
  lemma TwoOutputs(stream: bytes, maxBytes: int) returns (a: seq<bytes>, b: seq<bytes>)
    requires !Extensible(Scope(stream, maxBytes)) && WholePrefix(Scope(stream, maxBytes)) > 0
    ensures CutOf(a, stream) && CutOf(b, stream) && Relayed(a, maxBytes).forwarded != Relayed(b, maxBytes).forwarded
  {
    hide Extensible, FirstBad, Bound, Relayed, WholePrefix, Concat, OneLongRead, Warned;
    var scope := Scope(stream, maxBytes);
    var m, k := FirstBad(scope), WholePrefix(scope);
    FirstBadNear(scope);
    OneLongReadCuts(stream, m - 1, m, maxBytes);
    OneLongReadCuts(stream, k - 1, m, maxBytes);
    assert scope[..m - 1] == stream[..m - 1];
    a, b := OneLongRead(stream, m - 1, m), OneLongRead(stream, k - 1, m);
  }

  /** Two inputs for which the cutting matters. "a" and then FF in one read forwards nothing, in two reads it forwards the "a". FF
      and then the warning in one read raises the warning, and not when its last byte comes in a second read. */
  lemma CutsDiffer(maxBytes: int)
    requires maxBytes > 2 + |Warning()|
    ensures var bad: bytes := [0x61, 0xFF];
      && Relayed([bad], maxBytes) == Outcome([], false, Some(Malformed))
      && Relayed([bad[..1], bad[1..]], maxBytes) == Outcome(bad[..1], false, Some(Malformed))
    ensures var bad: bytes := [0xFF] + Warning(); var m := |Warning()|;
      && Relayed([bad], maxBytes) == Outcome([], true, Some(Malformed))
      && Relayed([bad[..m], bad[m..]], maxBytes) == Outcome([], false, Some(Malformed))
  {
    hide Relayed, Bound;
    var bad: bytes := [0x61, 0xFF];
    assert bad[..2] == bad && bad[1..] == [0xFF] && bad[..1] == [0x61];
    NoShortWarning(bad);
    BoundWithoutWarning(bad, maxBytes);
    assert WholePrefix(bad) == 1 && WholePrefix(bad[..1]) == 1;
    FirstBadMeaning(bad, 1);
    WholeIsExtensible(bad[..1]);
    ReadAtOnce(bad, maxBytes);
    ReadInTwo(bad, 1, maxBytes);
    WarningAfterMalformed(maxBytes);
  }

  lemma ReadAtOnce(bad: bytes, maxBytes: int)
    requires !Extensible(bad) && Scope(bad, maxBytes) == bad
    ensures Relayed([bad], maxBytes) == Outcome([], Warned(bad, maxBytes), Some(Malformed))
  {
    hide Relayed, Bound, Extensible, WholePrefix, Warned, FirstBad;
    OneChunk(bad);
    assert [] + [bad] + [] == [bad] && bad[..0] == [];
    NothingScanned();
    CuttingResult([], bad, [], bad, maxBytes);
  }

  lemma ReadInTwo(bad: bytes, k: nat, maxBytes: int)
    requires !Extensible(bad) && Scope(bad, maxBytes) == bad && 0 < k < |bad|
    ensures Relayed([bad[..k], bad[k..]], maxBytes) ==
      Outcome(if k < FirstBad(bad) then bad[..WholePrefix(bad[..k])] else [], Warned(bad, maxBytes) && k < FirstBad(bad), Some(Malformed))
  {
    hide Relayed, Bound, Extensible, WholePrefix, Warned, FirstBad;
    TwoChunks(bad, k);
    OneChunk(bad[..k]);
    NothingScanned();
    assert [bad[..k]] + [bad[k..]] + [] == [bad[..k], bad[k..]];
    assert [] + [bad[..k]] + [bad[k..]] == [bad[..k], bad[k..]] && bad[..0] == [];
    if k < FirstBad(bad) {
      CuttingResult([bad[..k]], bad[k..], [], bad, maxBytes);
    } else {
      CuttingResult([], bad[..k], [bad[k..]], bad, maxBytes);
    }
  }

  lemma TwoChunks(stream: bytes, k: nat)
    requires k <= |stream|
    ensures Concat([stream[..k], stream[k..]]) == stream
  {
    OneChunk(stream[..k]);
    assert [stream[..k], stream[k..]][..1] == [stream[..k]];
  }

  lemma WarningAfterMalformed(maxBytes: int)
    requires maxBytes > 2 + |Warning()|
    ensures var bad: bytes := [0xFF] + Warning(); var m := |Warning()|;
      && Relayed([bad], maxBytes) == Outcome([], true, Some(Malformed))
      && Relayed([bad[..m], bad[m..]], maxBytes) == Outcome([], false, Some(Malformed))
  {
    hide Relayed, Bound, Warning, Contains, WholePrefix, FirstBad;
    var bad: bytes := [0xFF] + Warning();
    assert bad[..|bad|] == bad;
    WarningAtOne(bad);
    BoundAfterWarning(bad, |bad|, |bad|, maxBytes);
    ScanStep(bad);
    assert !Extensible(bad) by { assert RuneLength(bad) == 0 && !Partial(bad) && bad[0..] == bad; }
    ScanStep(bad[..1]);
    assert !Extensible(bad[..1]) by { assert RuneLength(bad[..1]) == 0 && !Partial(bad[..1]) && bad[..1][0..] == bad[..1]; }
    FirstBadMeaning(bad, 1);
    ReadAtOnce(bad, maxBytes);
    ReadInTwo(bad, |Warning()|, maxBytes);
  }

  lemma WarningAtOne(bad: bytes)
    requires bad == [0xFF] + Warning()
    ensures FirstWarningEnd(bad, |bad|)
  {
    hide Warning;
    assert bad[1..1 + |Warning()|] == Warning();
    assert OccursAt(bad, Warning(), 1);
    assert !OccursAt(bad, Warning(), 0) by { assert bad[0] == 0xFF && Warning()[0] < 0x80; }
  }

  lemma OneChunk(stream: bytes)
    ensures Concat([stream]) == stream
  {
    assert [stream][..0] == [];
  }

  /** The warning is longer than a byte, and its last two are ASCII and not NUL. */
  lemma WarningTail(s: bytes, end: nat)
    requires end <= |s| && FirstWarningEnd(s, end)
    ensures 1 < end && 0 < s[end - 1] < 0x80 && s[end - 2] < 0x80
  {
    WarningEnds();
    var w := Warning();
    assert s[end - |w|..end] == w;
    assert s[end - |w|..end][|w| - 1] == s[end - 1] && s[end - |w|..end][|w| - 2] == s[end - 2];
  }

  lemma WarningEnds()
    ensures |Warning()| > 1 && Warning()[|Warning()| - 1] > 0
  {
    assert WARNING_TEXT[|WARNING_TEXT| - 1] == '.';
    assert Warning()[|Warning()| - 1] == AsciiByte('.');
  }

  lemma NoWarningBefore(s: bytes, end: nat, k: nat)
    requires k < end <= |s| && FirstWarningEnd(s, end)
    ensures !Contains(s[..k], Warning())
  {
    hide Warning;
    assert s[..k] == s[0..k];
    forall i: int ensures !OccursAt(s[..k], Warning(), i) {
      OccursInSlice(s, Warning(), 0, k, i);
      OccursInside(s[..k], Warning(), i);
    }
  }

  /** Malformed bytes do not become acceptable by dropping a last ASCII character after another. */
  lemma StillMalformed(s: bytes)
    requires |s| > 1 && !Extensible(s) && 0 < s[|s| - 1] < 0x80 && s[|s| - 2] < 0x80
    ensures !Extensible(s[..|s| - 1])
  {
    hide WholePrefix;
    var front, last := s[..|s| - 1], s[|s| - 1..];
    AsciiEndsWhole(front);
    assert front + last == s;
    if Extensible(front) {
      AsciiWhole(last);
      ScanPiece(front, last);
    }
  }

  lemma AsciiWhole(s: bytes)
    requires |s| == 1 && 0 < s[0] < 0x80
    ensures Extensible(s)
  {
    ScanStep(s);
    assert s[1..] == [];
  }

  lemma WholeIsExtensible(s: bytes)
    requires WholePrefix(s) == |s|
    ensures Extensible(s) && s[..WholePrefix(s)] == s
  {
    hide WholePrefix;
    assert s[|s|..] == [];
  }

  // ----- the relay itself

  /** The method's variables stand for this state of the function. */
  ghost predicate Tracks(r: Relay, failed: bool, run: Outcome, incomplete: bytes, window: bytes, total: nat) {
    r == if failed then Stopped(run) else Running(run.forwarded, incomplete, window, total)
  }

  lemma StepTracks(data: bytes, out: bytes, incomplete: bytes, window: bytes, total: nat, maxBytes: int, cutoff: nat, found: bool,
      run: Outcome, failed: bool, incomplete': bytes, window': bytes)
    requires data != [] && total < maxBytes
    requires var chunk := Admitted(data, total, maxBytes);
      && CutsAtWarning(window, incomplete + chunk, cutoff, found) && cutoff <= |incomplete + chunk|
      && ChunkRun((incomplete + chunk)[..cutoff], found, |data| > |chunk|, out, window, true, run, failed, incomplete', window')
    ensures Tracks(After(Running(out, incomplete, window, total), data, maxBytes), failed, run, incomplete', window',
                   total + |Admitted(data, total, maxBytes)|)
  {
    hide CutsAtWarning, Cutoff, Contains, Warning, WholePrefix, Extensible, Tail;
    var combined := incomplete + Admitted(data, total, maxBytes);
    CutoffUnique(window, combined, cutoff, Cutoff(window, combined), found, Contains(window + combined, Warning()));
  }

  /** A write of it went wrong: `run` is reported as failed, notices the same warning, and forwards some of what was to be forwarded. */
  ghost predicate CutShort(before: bytes, whole: Outcome, run: Outcome) {
    run.err == Some(RelayFailed) && run.warning == whole.warning && before <= run.forwarded <= whole.forwarded
  }

  lemma StepFaults(data: bytes, out: bytes, incomplete: bytes, window: bytes, total: nat, maxBytes: int, cutoff: nat, found: bool,
      run: Outcome)
    requires data != [] && total < maxBytes
    requires cutoff <= |incomplete + Admitted(data, total, maxBytes)|
    requires var candidate := (incomplete + Admitted(data, total, maxBytes))[..cutoff];
      && Extensible(candidate) && run.warning == found && run.err == Some(RelayFailed)
      && exists n: nat :: n <= |candidate[..WholePrefix(candidate)]| && run.forwarded == out + candidate[..WholePrefix(candidate)][..n]
    requires CutsAtWarning(window, incomplete + Admitted(data, total, maxBytes), cutoff, found)
    ensures CutShort(out, Concluded(After(Running(out, incomplete, window, total), data, maxBytes)), run)
  {
    hide CutsAtWarning, Cutoff, Contains, Warning, WholePrefix, Extensible, Tail;
    var combined := incomplete + Admitted(data, total, maxBytes);
    CutoffUnique(window, combined, cutoff, Cutoff(window, combined), found, Contains(window + combined, Warning()));
  }

  /** One nonempty read of a relay that has not failed. */
  method RelayChunk(data: bytes, window: bytes, incomplete: bytes, total: nat, maxBytes: int, destination: Sink, state: LoginOutputState,
    ghost seen: bytes)
    returns (window': bytes, incomplete': bytes, total': nat, failed: bool)
    requires data != []
    requires Live(seen, destination.out, incomplete, window) && total == |seen| == Cap(seen, maxBytes)
    requires !state.warning && state.err == None && !state.canceled
    modifies destination, state
    ensures old(destination.Reliable()) ==> destination.Reliable() && destination.faults == old(destination.faults)
    ensures failed == state.canceled == (state.warning || state.err.Some?)
    ensures !failed ==> Live(seen + data, destination.out, incomplete', window') && total' == |seen + data| == Cap(seen + data, maxBytes)
    ensures destination.faults == old(destination.faults) ==>
      Tracks(After(Running(old(destination.out), incomplete, window, total), data, maxBytes),
             failed, state.Result(destination.out), incomplete', window', total')
    ensures destination.faults == old(destination.faults) && failed ==> Settled(state.Result(destination.out), seen + data, maxBytes)
    ensures destination.faults == old(destination.faults) ==> WellFormed(destination.out) && NulFree(destination.out)
    ensures destination.faults != old(destination.faults) ==> failed && destination.faults > old(destination.faults)
    ensures destination.faults != old(destination.faults) ==> CutShort(old(destination.out),
      Concluded(After(Running(old(destination.out), incomplete, window, total), data, maxBytes)), state.Result(destination.out))
    ensures Safe(destination.out, seen + data, maxBytes)
  {
    hide Settled, Safe, Live, WellFormed, NulFree, WholePrefix, Extensible, CutsAtWarning, Warning, Sink.Reliable, Tail, After, CutShort,
      Concluded, Contains;
    window', incomplete', total', failed := window, incomplete, total, false;
    ghost var out := destination.out;
    var remaining := maxBytes - total;
    if remaining <= 0 {
      state.Fail(Overflow);
      state.Cancel();
      failed := true;
      FullConcludes(seen, data, out, incomplete, window, maxBytes);
      OverflowTracks(data, out, incomplete, window, total, maxBytes);
      return;
    }
    var chunk := if |data| > remaining then data[..remaining] else data;
    total' := total + |chunk|;
    var combined := incomplete + chunk;
    incomplete' := [];

    var cutoff, found := WarningCutoff(window, combined);
    var candidate := combined;
    if found {
      state.MarkWarning();
      candidate := candidate[..cutoff];
    }
    var complete, tail, valid := CompleteUtf8Prefix(candidate);
    ghost var wrote := true;
    if !valid {
      state.Fail(Malformed);
      state.Cancel();
      failed := true;
    } else {
      incomplete' := tail;
      if complete != [] {
        var ok := WriteFull(destination, complete);
        if !ok {
          wrote := false;
          state.Fail(RelayFailed);
          state.Cancel();
          failed := true;
        }
      }
      if found {
        state.Cancel();
        failed := true;
      } else if !failed {
        window' := WarningWindow(window, complete, |Warning()| - 1);
      }
    }
    if |data| > |chunk| && !failed {
      state.Fail(Overflow);
      state.Cancel();
      failed := true;
    }
    assert out + [] == out;
    ghost var run := state.Result(destination.out);
    assert candidate == (incomplete + chunk)[..cutoff];
    assert run.warning == found && failed == (run.warning || run.err.Some?);
    assert !Extensible(candidate) ==> run == Outcome(out, found, Some(Malformed));
    assert Extensible(candidate) && !wrote ==> run.err == Some(RelayFailed);
    assert Extensible(candidate) && !wrote ==> exists n: nat :: n <= |complete| && run.forwarded == out + complete[..n];
    assert Extensible(candidate) && wrote ==> run == Outcome(out + complete, found, if |data| > |chunk| && !found then Some(Overflow) else None);
    assert !failed ==> incomplete' == candidate[WholePrefix(candidate)..] && window' == Tail(window + complete, |Warning()| - 1);
    ChunkConcludes(seen, data, chunk, out, incomplete, window, cutoff, found, maxBytes, wrote,
      run, failed, incomplete', window');
    if wrote {
      StepTracks(data, out, incomplete, window, total, maxBytes, cutoff, found, run, failed, incomplete', window');
    } else {
      StepFaults(data, out, incomplete, window, total, maxBytes, cutoff, found, run);
    }
  }

  lemma OverflowTracks(data: bytes, out: bytes, incomplete: bytes, window: bytes, total: nat, maxBytes: int)
    requires data != [] && maxBytes <= total
    ensures After(Running(out, incomplete, window, total), data, maxBytes) == Stopped(Outcome(out, false, Some(Overflow)))
  {
  }

  /** A chunk that arrives when the cap is already reached. */
  lemma FullConcludes(seen: bytes, data: bytes, out: bytes, incomplete: bytes, window: bytes, maxBytes: int)
    requires data != [] && Live(seen, out, incomplete, window) && |seen| == Cap(seen, maxBytes) && maxBytes <= |seen|
    ensures Settled(Outcome(out, false, Some(Overflow)), seen + data, maxBytes)
    ensures Safe(out, seen + data, maxBytes)
    ensures WellFormed(out) && NulFree(out)
  {
    var all, k := seen + data, |seen|;
    assert all[..k] == seen;
    WholePrefixIsWhole(seen);
    ChunkSafe(all, k, k, false, out, maxBytes);
    ChunkSettles(all, k, k, false, maxBytes, Outcome(out, false, Some(Overflow)));
  }

  // ----- the relay loop

  lemma LiveInitially(maxBytes: int)
    ensures Live([], [], [], []) && Safe([], [], maxBytes) && Cap([], maxBytes) == 0 && WellFormed([]) && NulFree([])
  {
  }

  /** What is safe after some of the stream is safe after more of it. */
  lemma SafeExtends(out: bytes, seen: bytes, more: bytes, maxBytes: int)
    requires Safe(out, seen, maxBytes) && seen <= more
    ensures Safe(out, more, maxBytes)
  {
  }

  lemma SettledNow(run: Outcome, seen: bytes, maxBytes: int)
    requires Settled(run, seen, maxBytes)
    ensures Meets(run, seen, maxBytes)
  {
    assert seen + [] == seen;
  }

  // ----- how far a script is read

  /** The reads that a script cuts its stream into. */
  ghost function Cutting(events: seq<Read>): seq<bytes> {
    if events == [] then []
    else [events[0].data] + if events[0].end.More? then Cutting(events[1..]) else []
  }

  /** The first `n` reads of a script all go on. */
  ghost predicate AllMore(events: seq<Read>, n: nat) {
    n <= |events| && forall j :: 0 <= j < n ==> events[j].end.More?
  }

  /** The read before `n` failed, or was the last of a hundred that brought nothing. */
  ghost predicate Interrupted(events: seq<Read>, n: nat) {
    0 < n <= |events| && (events[n - 1].end.Broken? || (n >= MAX_STALLS && Stalls(events, n - MAX_STALLS, MAX_STALLS)))
  }

  /** No read up to the end of the stream failed or was the last of a hundred that brought nothing. */
  ghost predicate Unbroken(events: seq<Read>) {
    forall n: nat :: 0 < n <= |events| && AllMore(events, n - 1) ==> !Interrupted(events, n)
  }

  ghost predicate Going(events: seq<Read>, n: nat) {
    AllMore(events, n) && forall m: nat :: m <= n ==> !Interrupted(events, m)
  }

  /** `n` is the number of reads up to the first that ends the stream or interrupts it. */
  ghost predicate ReadsTo(events: seq<Read>, n: nat) {
    n <= |events| && (n > 0 ==> Going(events, n - 1)) && (n == |events| || (n > 0 && (!events[n - 1].end.More? || Interrupted(events, n))))
  }

  /** `n` empty reads come just before `at`, and no more. */
  ghost predicate EmptyReads(events: seq<Read>, at: nat, n: nat) {
    n <= at <= |events| && Stalls(events, at - n, n) && (n == at || events[at - n - 1] != Read([], More))
  }

  lemma NothingRead(events: seq<Read>, maxBytes: int)
    ensures Going(events, 0) && EmptyReads(events, 0, 0)
    ensures Live(Stream(events[..0]), [], [], []) && Safe([], Stream(events[..0]), maxBytes) && WellFormed([]) && NulFree([])
    ensures Stream(events[..0]) == [] && Cap([], maxBytes) == 0
    ensures Explained(Cutting(events[..0]), maxBytes, true, false, Outcome([], false, None), [], [], 0)
  {
  }

  lemma GoesOn(events: seq<Read>, at: nat, n: nat)
    requires Going(events, at) && at < |events| && events[at].end.More? && EmptyReads(events, at + 1, n) && n < MAX_STALLS
    ensures Going(events, at + 1)
  {
  }

  /** A script is unbroken if the read that the relay stops at does not interrupt it. */
  lemma EndDecides(events: seq<Read>, n: nat)
    requires ReadsTo(events, n)
    ensures Unbroken(events) <==> !Interrupted(events, n)
  {
    hide Stalls;
    if !Interrupted(events, n) {
      forall m: nat | 0 < m <= |events| && AllMore(events, m - 1) ensures !Interrupted(events, m) {
      }
    }
  }

  lemma {:induction false} TakenStream(events: seq<Read>, n: nat)
    requires AllMore(events, n)
    ensures Stream(events[..n]) + Stream(events[n..]) == Stream(events)
  {
    if n == 0 {
      assert events[0..] == events;
    } else {
      var rest, front := events[1..], events[..n];
      assert front[1..] == rest[..n - 1] && rest[n - 1..] == events[n..];
      TakenStream(rest, n - 1);
      assert Stream(front) == events[0].data + Stream(rest[..n - 1]);
    }
  }

  lemma {:induction false} TakenCutting(events: seq<Read>, n: nat)
    requires AllMore(events, n)
    ensures Cutting(events[..n]) + Cutting(events[n..]) == Cutting(events)
  {
    if n == 0 {
      assert events[0..] == events;
    } else {
      var rest, front := events[1..], events[..n];
      assert front[1..] == rest[..n - 1] && rest[n - 1..] == events[n..];
      TakenCutting(rest, n - 1);
      assert Cutting(front) == [events[0].data] + Cutting(rest[..n - 1]);
    }
  }

  lemma Taken(events: seq<Read>, n: nat)
    requires AllMore(events, n)
    ensures Cutting(events[..n]) + Cutting(events[n..]) == Cutting(events)
    ensures Stream(events[..n]) + Stream(events[n..]) == Stream(events)
  {
    hide AllMore, Cutting, Stream;
    TakenStream(events, n);
    TakenCutting(events, n);
  }

  /** One read more of a script that goes on. */
  lemma TakeOne(events: seq<Read>, at: nat)
    requires AllMore(events, at) && at < |events|
    ensures Cutting(events[..at + 1]) == Cutting(events[..at]) + [events[at].data]
    ensures Stream(events[..at + 1]) == Stream(events[..at]) + events[at].data
  {
    var taken := events[..at + 1];
    Taken(taken, at);
    assert taken[..at] == events[..at] && taken[at..] == [events[at]] && [events[at]][1..] == [];
  }

  /** What one read adds to what was read, and to the empty reads in a row. */
  lemma ReadOne(events: seq<Read>, at: nat, read: Read, n: nat)
    requires Going(events, at) && EmptyReads(events, at, n)
    requires read == if at < |events| then events[at] else Read([], Eof)
    ensures at < |events| ==> Cutting(events[..at + 1]) == Cutting(events[..at]) + [read.data]
    ensures at < |events| ==> Stream(events[..at + 1]) == Stream(events[..at]) + read.data
    ensures Stream(events[..at]) + [] == Stream(events[..at])
    ensures at < |events| ==> EmptyReads(events, at + 1, if read == Read([], More) then n + 1 else 0)
  {
    hide Cutting, Stream;
    if at < |events| {
      TakeOne(events, at);
    }
  }

  lemma StallsHere(events: seq<Read>, at: nat)
    requires Going(events, at) && EmptyReads(events, at + 1, MAX_STALLS)
    ensures ReadsTo(events, at + 1) && Interrupted(events, at + 1)
  {
  }

  lemma EndsHere(events: seq<Read>, at: nat, read: Read)
    requires Going(events, at) && !read.end.More? && read == if at < |events| then events[at] else Read([], Eof)
    ensures var n := if at < |events| then at + 1 else at; ReadsTo(events, n) && (Interrupted(events, n) <==> read.end.Broken?)
  {
  }

  /** What was read is a beginning of the stream, and all of it if the stream ended. */
  lemma ReadPart(events: seq<Read>, n: nat)
    requires ReadsTo(events, n)
    ensures Stream(events[..n]) <= Stream(events)
    ensures !Interrupted(events, n) ==> events[..n] == events || (Cutting(events[..n]) == Cutting(events) && Stream(events[..n]) == Stream(events))
  {
    if n > 0 && !events[n - 1].end.More? {
      TakeOne(events, n - 1);
      Taken(events, n - 1);
      assert events[n - 1..][0] == events[n - 1];
    } else if n > 0 {
      assert AllMore(events, n);
      Taken(events, n);
    } else {
      assert events[..0] == [];
    }
  }

  /** The stream has ended or failed: the last chance to report a failed read, or else a character cut short. */
  method FinishRelay(end: ReadEnd, failed: bool, incomplete: bytes, state: LoginOutputState, ghost out: bytes)
    requires !end.More? && failed == state.canceled == (state.warning || state.err.Some?)
    modifies state
    ensures state.Result(out) == if failed then old(state.Result(out)) else Outcome(out, false,
      if end.Broken? then Some(RelayFailed) else if incomplete != [] then Some(Malformed) else None)
    ensures state.canceled <==> state.warning || state.err.Some?
  {
    if !end.Eof? && !failed {
      state.Fail(RelayFailed);
      state.Cancel();
    }
    if !failed && incomplete != [] {
      state.Fail(Malformed);
      state.Cancel();
    }
  }

  /** A relay that reads at most a buffer at a time sees one of the cuttings. */
  lemma {:induction false} ReadsCut(events: seq<Read>)
    requires forall r :: r in events ==> |r.data| <= READ_SIZE
    ensures CutOf(Cutting(events), Stream(events))
  {
    CuttingMakesStream(events);
    SmallReads(events);
  }

  lemma {:induction false} SmallReads(events: seq<Read>)
    requires forall r :: r in events ==> |r.data| <= READ_SIZE
    ensures forall i :: 0 <= i < |Cutting(events)| ==> |Cutting(events)[i]| <= READ_SIZE
  {
    if events != [] && events[0].end.More? {
      assert forall r :: r in events[1..] ==> r in events;
      SmallReads(events[1..]);
    }
  }

  lemma {:induction false} CuttingMakesStream(events: seq<Read>)
    ensures Concat(Cutting(events)) == Stream(events)
  {
    if events != [] {
      OneChunk(events[0].data);
      if events[0].end.More? {
        CuttingMakesStream(events[1..]);
        ConcatAppend([events[0].data], Cutting(events[1..]));
      }
    }
  }

  lemma TracksFailed(r: Relay, run: Outcome, data: bytes, incomplete: bytes, window: bytes, total: nat, maxBytes: int)
    requires Tracks(r, true, run, incomplete, window, total)
    ensures After(r, data, maxBytes) == r
  {
  }

  lemma TracksIdle(r: Relay, data: bytes, maxBytes: int)
    requires data == []
    ensures After(r, data, maxBytes) == r
  {
  }

  /** The outcome of a relay whose source fails or stalls. */
  ghost function Abandoned(r: Relay): Outcome {
    if r.Stopped? then r.result else Outcome(r.out, false, Some(RelayFailed))
  }

  /** Nothing in it stops a relay: no warning, nothing malformed, not too much. */
  ghost predicate Clean(seen: bytes, maxBytes: int) {
    Extensible(seen) && !Contains(seen, Warning()) && |seen| == Cap(seen, maxBytes)
  }

  lemma {:induction false} EmptyFold(chunks: seq<bytes>, maxBytes: int)
    requires Concat(chunks) == []
    ensures Fold(chunks, maxBytes).Running?
  {
    if chunks != [] {
      EmptyFold(chunks[..|chunks| - 1], maxBytes);
    }
  }

  /** A relay that is abandoned has forwarded all whole characters if nothing stopped it before. */
  lemma AbandonedMeaning(chunks: seq<bytes>, maxBytes: int)
    ensures var run, seen := Abandoned(Fold(chunks, maxBytes)), Concat(chunks);
      if Clean(seen, maxBytes) then run == Outcome(seen[..WholePrefix(seen)], false, Some(RelayFailed))
      else Meets(run, seen, maxBytes) && (run.warning || run.err.Some?)
  {
    hide Extensible, Contains, Warning, WholePrefix, Fold, Meets, Settled, Tail, Concat;
    var f, seen := Fold(chunks, maxBytes), Concat(chunks);
    FoldInvariant(chunks, maxBytes);
    if Clean(seen, maxBytes) {
      if seen == [] {
        EmptyFold(chunks, maxBytes);
      } else {
        FoldRuns(chunks, maxBytes);
      }
    } else {
      SettledNow(f.result, seen, maxBytes);
      UncleanSpeaks(f.result, seen, maxBytes);
    }
  }

  lemma UncleanSpeaks(run: Outcome, seen: bytes, maxBytes: int)
    requires Meets(run, seen, maxBytes) && !Clean(seen, maxBytes)
    ensures run.warning || run.err.Some?
  {
    hide Extensible, Contains, Warning, WholePrefix, Bound;
    if !Contains(seen[..Cap(seen, maxBytes)], Warning()) {
      BoundWithoutWarning(seen, maxBytes);
      assert seen[..|seen|] == seen;
    }
  }

  /** The write that went wrong was the one for chunk `k`. */
  ghost predicate FaultAt(chunks: seq<bytes>, k: nat, maxBytes: int, run: Outcome) {
    && k < |chunks|
    && Fold(chunks[..k], maxBytes).Running?
    && CutShort(Fold(chunks[..k], maxBytes).out, Relayed(chunks[..k + 1], maxBytes), run)
  }

  /** Some write went wrong: the relay is as if whole up to a chunk, and of that one it forwards only a part. */
  ghost predicate Faulted(chunks: seq<bytes>, maxBytes: int, run: Outcome) {
    exists k: nat :: FaultAt(chunks, k, maxBytes, run)
  }

  lemma FaultNow(chunks: seq<bytes>, data: bytes, maxBytes: int, run: Outcome)
    requires Fold(chunks, maxBytes).Running?
    requires CutShort(Fold(chunks, maxBytes).out, Concluded(After(Fold(chunks, maxBytes), data, maxBytes)), run)
    ensures Faulted(chunks + [data], maxBytes, run)
  {
    hide Fold, After, CutShort;
    var more := chunks + [data];
    FoldSnoc(chunks, data, maxBytes);
    assert more[..|chunks|] == chunks && more[..|chunks| + 1] == more;
    assert FaultAt(more, |chunks|, maxBytes, run);
  }

  lemma FaultStays(chunks: seq<bytes>, data: bytes, maxBytes: int, run: Outcome)
    requires Faulted(chunks, maxBytes, run)
    ensures Faulted(chunks + [data], maxBytes, run)
  {
    hide Fold, CutShort;
    var k: nat :| FaultAt(chunks, k, maxBytes, run);
    var more := chunks + [data];
    assert more[..k] == chunks[..k] && more[..k + 1] == chunks[..k + 1];
    assert FaultAt(more, k, maxBytes, run);
  }

  lemma WarnedMore(part: bytes, whole: bytes, maxBytes: int)
    requires part <= whole && Warned(part, maxBytes)
    ensures Warned(whole, maxBytes)
  {
    hide Contains, Warning;
    var a, b := part[..Cap(part, maxBytes)], whole[..Cap(whole, maxBytes)];
    assert b[..|a|] == a;
    ContainsMonotone(b, |a|);
  }

  lemma MeetsWarned(run: Outcome, seen: bytes, maxBytes: int)
    requires Meets(run, seen, maxBytes) && run.warning
    ensures Warned(seen, maxBytes)
  {
    hide Contains, Warning, Extensible, WholePrefix, Bound;
  }

  /** What an outcome without faults says about the script. */
  ghost predicate RunMeaning(events: seq<Read>, n: nat, run: Outcome, maxBytes: int) {
    var seen := if n <= |events| then Stream(events[..n]) else [];
    if Unbroken(events) then
      && run == Relayed(Cutting(events), maxBytes)
      && Meets(run, Stream(events), maxBytes)
      && (!run.warning && run.err.None? ==> run.forwarded == Stream(events))
      && (run.warning ==> Warned(Stream(events), maxBytes))
    else
      && n <= |events|
      && run == Abandoned(Fold(Cutting(events[..n]), maxBytes))
      && (run.warning || run.err.Some?)
      && (run.warning ==> Warned(Stream(events), maxBytes))
      && if Clean(seen, maxBytes) then run == Outcome(seen[..WholePrefix(seen)], false, Some(RelayFailed)) else Meets(run, seen, maxBytes)
  }

  lemma FaultlessRun(events: seq<Read>, n: nat, run: Outcome, maxBytes: int)
    requires ReadsTo(events, n)
    requires run == (if Interrupted(events, n) then Abandoned(Fold(Cutting(events[..n]), maxBytes)) else Relayed(Cutting(events[..n]), maxBytes))
    ensures RunMeaning(events, n, run, maxBytes)
  {
    hide Going, Interrupted, Unbroken, Cutting, Stream, Fold, Meets, Relayed, Warned;
    var taken := events[..n];
    EndDecides(events, n);
    ReadPart(events, n);
    CuttingMakesStream(taken);
    if Interrupted(events, n) {
      AbandonedMeaning(Cutting(taken), maxBytes);
      if run.warning {
        AbandonedWarned(run, Stream(taken), maxBytes);
        WarnedMore(Stream(taken), Stream(events), maxBytes);
      }
    } else {
      RelayedMeets(Cutting(taken), maxBytes);
      UnspokenIsWhole(run, Stream(events), maxBytes);
    }
  }

  lemma AbandonedWarned(run: Outcome, seen: bytes, maxBytes: int)
    requires if Clean(seen, maxBytes) then run == Outcome(seen[..WholePrefix(seen)], false, Some(RelayFailed)) else Meets(run, seen, maxBytes)
    requires run.warning
    ensures Warned(seen, maxBytes)
  {
    hide Clean, Meets, Warned;
    MeetsWarned(run, seen, maxBytes);
  }

  lemma UnspokenIsWhole(run: Outcome, stream: bytes, maxBytes: int)
    requires Meets(run, stream, maxBytes)
    ensures !run.warning && run.err.None? ==> run.forwarded == stream
    ensures run.warning ==> Warned(stream, maxBytes)
  {
    hide Contains, Warning, Extensible, WholePrefix, Bound;
    ExpectedIsComplete(stream, maxBytes);
  }

  lemma FaultedRun(events: seq<Read>, n: nat, run: Outcome, maxBytes: int)
    requires ReadsTo(events, n) && Faulted(Cutting(events[..n]), maxBytes, run)
    ensures run.err == Some(RelayFailed)
    ensures run.warning ==> Warned(Stream(events), maxBytes)
  {
    hide Going, Interrupted, Cutting, Stream, Fold, Meets, Relayed, Warned;
    var chunks := Cutting(events[..n]);
    var k: nat :| FaultAt(chunks, k, maxBytes, run);
    ReadPart(events, n);
    CuttingMakesStream(events[..n]);
    ConcatAppend(chunks[..k + 1], chunks[k + 1..]);
    assert chunks[..k + 1] + chunks[k + 1..] == chunks;
    RelayedMeets(chunks[..k + 1], maxBytes);
    if run.warning {
      MeetsWarned(Relayed(chunks[..k + 1], maxBytes), Concat(chunks[..k + 1]), maxBytes);
      WarnedMore(Concat(chunks[..k + 1]), Stream(events), maxBytes);
    }
  }

  /** What the method's variables mean for the reads so far: those of the function, or those after a write that went wrong. */
  ghost predicate Explained(chunks: seq<bytes>, maxBytes: int, faultless: bool, failed: bool, run: Outcome,
    incomplete: bytes, window: bytes, total: nat)
  {
    if faultless then Tracks(Fold(chunks, maxBytes), failed, run, incomplete, window, total)
    else failed && Faulted(chunks, maxBytes, run)
  }

  lemma ExplainedRunning(chunks: seq<bytes>, maxBytes: int, run: Outcome, incomplete: bytes, window: bytes, total: nat)
    requires Explained(chunks, maxBytes, true, false, run, incomplete, window, total)
    ensures Fold(chunks, maxBytes) == Running(run.forwarded, incomplete, window, total)
  {
    hide Fold;
  }

  /** A read that brings nothing, or comes when the relay has failed, changes nothing. */
  lemma IdleStep(chunks: seq<bytes>, data: bytes, maxBytes: int, faultless: bool, failed: bool, run: Outcome,
      incomplete: bytes, window: bytes, total: nat)
    requires Explained(chunks, maxBytes, faultless, failed, run, incomplete, window, total) && (data == [] || failed)
    ensures Explained(chunks + [data], maxBytes, faultless, failed, run, incomplete, window, total)
    ensures Explained(chunks, maxBytes, faultless, failed, run, incomplete, window, total)
  {
    hide Fold, Faulted;
    FoldSnoc(chunks, data, maxBytes);
    if faultless && failed {
      TracksFailed(Fold(chunks, maxBytes), run, data, incomplete, window, total, maxBytes);
    } else if faultless {
      TracksIdle(Fold(chunks, maxBytes), data, maxBytes);
    } else {
      FaultStays(chunks, data, maxBytes, run);
    }
  }

  lemma ChunkStep(chunks: seq<bytes>, r: Relay, data: bytes, maxBytes: int, faultless: bool, failed: bool, run: Outcome,
      incomplete: bytes, window: bytes, total: nat)
    requires Fold(chunks, maxBytes) == r && r.Running?
    requires faultless ==> Tracks(After(r, data, maxBytes), failed, run, incomplete, window, total)
    requires !faultless ==> failed && CutShort(r.out, Concluded(After(r, data, maxBytes)), run)
    ensures Explained(chunks + [data], maxBytes, faultless, failed, run, incomplete, window, total)
  {
    hide Fold, After, CutShort, Faulted;
    FoldSnoc(chunks, data, maxBytes);
    if !faultless {
      FaultNow(chunks, data, maxBytes, run);
    }
  }

  /** The outcome at the end of the reads, and what it means for the script. */
  lemma RunEnds(events: seq<Read>, n: nat, faultless: bool, failed: bool, run: Outcome, incomplete: bytes, window: bytes, total: nat,
      maxBytes: int)
    requires ReadsTo(events, n) && Explained(Cutting(events[..n]), maxBytes, faultless, failed, run, incomplete, window, total)
    requires failed == (run.warning || run.err.Some?)
    requires Safe(run.forwarded, Stream(events[..n]), maxBytes)
    ensures Safe(run.forwarded, Stream(events), maxBytes)
    ensures var final := if failed then run else Outcome(run.forwarded, false,
        if Interrupted(events, n) then Some(RelayFailed) else if incomplete != [] then Some(Malformed) else None);
      && (if faultless then RunMeaning(events, n, final, maxBytes)
          else
            && final.err == Some(RelayFailed) && (final.warning ==> Warned(Stream(events), maxBytes))
            && Faulted(Cutting(events[..n]), maxBytes, final))
  {
    hide Going, Interrupted, Cutting, Stream, Fold, Faulted, Warned, RunMeaning;
    ReadPart(events, n);
    SafeExtends(run.forwarded, Stream(events[..n]), Stream(events), maxBytes);
    if faultless {
      FaultlessRun(events, n, if failed then run else Outcome(run.forwarded, false,
        if Interrupted(events, n) then Some(RelayFailed) else if incomplete != [] then Some(Malformed) else None), maxBytes);
    } else {
      FaultedRun(events, n, run, maxBytes);
    }
  }

  /** The relay of one login stream, for every script of reads and writes. It reads up to the first read that ends, fails or makes a
      hundred empty ones. When no write goes wrong its outcome is the function of how the stream is cut; when one does, it says so. Only
      the whole stream, forwarded, goes without a warning and without an error. */
  method RelayLoginOutput(source: Source, destination: Sink, maxBytes: int, state: LoginOutputState)
    requires source.Valid() && source.pos == 0 && destination.out == []
    requires !state.warning && state.err == None && !state.canceled
    modifies source, destination, state
    ensures old(destination.Reliable()) ==> destination.faults == old(destination.faults)
    ensures ReadsTo(source.events, source.pos)
    ensures destination.faults == old(destination.faults) && Unbroken(source.events) ==>
      && state.Result(destination.out) == Relayed(Cutting(source.events), maxBytes)
      && Meets(state.Result(destination.out), Stream(source.events), maxBytes)
    ensures destination.faults == old(destination.faults) && !Unbroken(source.events) ==>
      state.Result(destination.out) == Abandoned(Fold(Cutting(source.events[..source.pos]), maxBytes))
    ensures destination.faults == old(destination.faults) && !Unbroken(source.events) ==>
      var seen := Stream(source.events[..source.pos]);
      if Clean(seen, maxBytes) then state.Result(destination.out) == Outcome(seen[..WholePrefix(seen)], false, Some(RelayFailed))
      else Meets(state.Result(destination.out), seen, maxBytes)
    ensures destination.faults != old(destination.faults) ==> destination.faults > old(destination.faults) && state.err == Some(RelayFailed)
    ensures destination.faults != old(destination.faults) ==>
      Faulted(Cutting(source.events[..source.pos]), maxBytes, state.Result(destination.out))
    ensures state.err.None? && !state.warning ==> Unbroken(source.events) && destination.out == Stream(source.events)
    ensures state.warning ==> Warned(Stream(source.events), maxBytes)
    ensures Safe(destination.out, Stream(source.events), maxBytes)
    ensures destination.faults == old(destination.faults) ==> WellFormed(destination.out) && NulFree(destination.out)
    ensures state.canceled <==> state.warning || state.err.Some?
  {
    hide ReadsTo, Going, EmptyReads, AllMore, Interrupted, Unbroken, Stalls, Settled, Meets, Safe, Live, WellFormed, NulFree, Cap, Sink.Reliable,
      Stream, Cutting, Concat, Tracks, Fold, After, Concluded, Relayed, Abandoned, CutShort, Faulted, Explained, Warned, Clean, Extensible,
      WholePrefix;
    var window, incomplete := [], [];
    var total: nat := 0;
    var failed := false;
    var noProgress := 0;
    ghost var events := source.events;
    ghost var faults := destination.faults;
    NothingRead(events, maxBytes);
    while true
      invariant source.Valid() && source.events == events
      invariant Going(events, source.pos) && EmptyReads(events, source.pos, noProgress) && 0 <= noProgress < MAX_STALLS
      invariant old(destination.Reliable()) ==> destination.Reliable() && destination.faults == faults
      invariant failed == state.canceled == (state.warning || state.err.Some?)
      invariant !failed ==> destination.faults == faults && total == |Stream(events[..source.pos])| == Cap(Stream(events[..source.pos]), maxBytes)
      invariant !failed ==> Live(Stream(events[..source.pos]), destination.out, incomplete, window)
      invariant destination.faults >= faults
      invariant destination.faults == faults ==> WellFormed(destination.out) && NulFree(destination.out)
      invariant Explained(Cutting(events[..source.pos]), maxBytes, destination.faults == faults, failed, state.Result(destination.out),
                          incomplete, window, total)
      invariant Safe(destination.out, Stream(events[..source.pos]), maxBytes)
      decreases |events| - source.pos
    {
      ghost var at := source.pos;
      ghost var seen, chunks := Stream(events[..at]), Cutting(events[..at]);
      var read := source.Next();
      ReadOne(events, at, read, noProgress);
      if read.data == [] && read.end.More? {
        noProgress := noProgress + 1;
        if noProgress >= MAX_STALLS {
          StallsHere(events, at);
          IdleStep(chunks, [], maxBytes, destination.faults == faults, failed, state.Result(destination.out), incomplete, window, total);
          RunEnds(events, at + 1, destination.faults == faults, failed, state.Result(destination.out), incomplete, window, total, maxBytes);
          if !failed {
            state.Fail(RelayFailed);
            state.Cancel();
          }
          return;
        }
      } else {
        noProgress := 0;
      }
      if read.data != [] && !failed {
        ghost var r := Running(destination.out, incomplete, window, total);
        ExplainedRunning(chunks, maxBytes, state.Result(destination.out), incomplete, window, total);
        window, incomplete, total, failed := RelayChunk(read.data, window, incomplete, total, maxBytes, destination, state, seen);
        ChunkStep(chunks, r, read.data, maxBytes, destination.faults == faults, failed, state.Result(destination.out), incomplete, window, total);
      } else {
        IdleStep(chunks, read.data, maxBytes, destination.faults == faults, failed, state.Result(destination.out), incomplete, window, total);
        SafeExtends(destination.out, seen, seen + read.data, maxBytes);
      }

      if !read.end.More? {
        EndsHere(events, at, read);
        RunEnds(events, source.pos, destination.faults == faults, failed, state.Result(destination.out), incomplete, window, total, maxBytes);
        FinishRelay(read.end, failed, incomplete, state, destination.out);
        return;
      }
      GoesOn(events, at, noProgress);
    }
  }
}
