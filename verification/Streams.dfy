/** Readers and writers with scripted behaviour: every theorem quantifies over the scripts. */
module Streams {
  import opened Bytes
  import opened Wrappers

  /** One Read: some bytes, and how it ended. */
  datatype ReadEnd = More | Eof | Broken
  datatype Read = Read(data: bytes, end: ReadEnd)

  /** The bytes a reader delivers up to and including its first end or failure. */
  ghost function Stream(events: seq<Read>): bytes {
    if events == [] then []
    else if events[0].end.More? then events[0].data + Stream(events[1..])
    else events[0].data
  }

  lemma StreamStep(events: seq<Read>, at: nat, read: Read)
    requires at <= |events| && read == if at < |events| then events[at] else Read([], Eof)
    ensures Stream(events[at..]) == if read.end.More? then read.data + Stream(events[at + 1..]) else read.data
  {
  }

  ghost predicate Stalls(events: seq<Read>, i: nat, n: nat) {
    && i + n <= |events|
    && forall j :: i <= j < i + n ==> events[j] == Read([], More)
  }

  /** A source that replays a script and then reports the end of the stream for ever. */
  class Source {
    const events: seq<Read>
    var pos: nat

    ghost predicate Valid()
      reads this
    {
      pos <= |events|
    }

    constructor (events: seq<Read>)
      ensures Valid() && this.events == events && pos == 0
    {
      this.events := events;
      pos := 0;
    }

    method Next() returns (r: Read)
      requires Valid()
      modifies this
      ensures Valid()
      ensures old(pos) < |events| ==> pos == old(pos) + 1 && r == events[old(pos)]
      ensures old(pos) == |events| ==> pos == old(pos) && r == Read([], Eof)
    {
      if pos < |events| {
        r := events[pos];
        pos := pos + 1;
      } else {
        r := Read([], Eof);
      }
    }
  }

  /** What one Write does: take at most `n` bytes and say so, take at most `n` and fail, or claim too much. */
  datatype WriteStep = Accept(n: nat) | Fail(n: nat) | Overclaim(n: nat)

  /** A destination that follows a script and afterwards takes everything. */
  class Sink {
    var out: bytes
    var script: seq<WriteStep>
    /** How many writes failed, claimed too much or took nothing of something. */
    ghost var faults: nat

    constructor (script: seq<WriteStep>)
      ensures out == [] && this.script == script && faults == 0
    {
      out := [];
      this.script := script;
      faults := 0;
    }

    ghost predicate Reliable()
      reads this
    {
      forall step :: step in script ==> step.Accept? && step.n > 0
    }

    method Write(data: bytes) returns (n: int, ok: bool)
      modifies this
      ensures old(Reliable()) ==> Reliable() && ok && n <= |data| && (data != [] ==> n > 0)
      ensures faults == if ok && 0 <= n <= |data| && (n > 0 || data == []) then old(faults) else old(faults) + 1
      ensures old(script) == [] ==> script == [] && ok && n == |data| && out == old(out) + data
      ensures exists k: nat :: k <= |data| && out == old(out) + data[..k] && (ok && 0 <= n <= |data| ==> k == n)
    {
      if script == [] {
        out := out + data;
        assert data[..|data|] == data;
        return |data|, true;
      }
      var step := script[0];
      script := script[1..];
      var k := Min(step.n, |data|);
      out := out + data[..k];
      faults := if step.Accept? && (k > 0 || data == []) then faults else faults + 1;
      match step {
        case Accept(_) => return k, true;
        case Fail(_) => return k, false;
        case Overclaim(_) => return |data| + 1, true;
      }
    }
  }

  /** Writes until everything is taken; gives up on a failure or an impossible count. */
  method WriteFull(destination: Sink, data: bytes) returns (ok: bool)
    modifies destination
    ensures old(destination.Reliable()) ==> destination.Reliable() && ok
    ensures destination.faults == if ok then old(destination.faults) else old(destination.faults) + 1
    ensures ok ==> destination.out == old(destination.out) + data
    ensures exists k: nat :: k <= |data| && destination.out == old(destination.out) + data[..k]
  {
    var rest := data;
    ghost var done: nat := 0;
    while rest != []
      invariant done <= |data| && rest == data[done..]
      invariant destination.out == old(destination.out) + data[..done]
      invariant old(destination.Reliable()) ==> destination.Reliable()
      invariant destination.faults == old(destination.faults)
      decreases |rest|
    {
      var n, good := destination.Write(rest);
      ghost var k: nat :| k <= |rest|
          && destination.out == old(destination.out) + data[..done] + rest[..k]
          && (good && 0 <= n <= |rest| ==> k == n);
      assert old(destination.out) + data[..done] + rest[..k] == old(destination.out) + data[..done + k];
      if !good || n <= 0 || n > |rest| {
        return false;
      }
      rest := rest[n..];
      done := done + n;
    }
    assert data[..done] == data;
    return true;
  }
}
