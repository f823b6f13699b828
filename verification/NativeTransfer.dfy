/** The bounded native transfer of internal/productnative/client.go and its credential scanner. */
module NativeTransfer {
  import opened Bytes
  import opened Streams
  import opened Wrappers

  const MAX_BYTES := 8388608
  const MAX_STREAM_BYTES := 67108864
  const MAX_REQUESTS := 64

  // ----- specification of the scan

  /** Some nonempty secret occurs in `s`. */
  ghost predicate Leaks(s: bytes, secrets: seq<bytes>) {
    exists secret :: secret in secrets && secret != [] && Contains(s, secret)
  }

  /** How many trailing bytes the start of a secret can still hide in. */
  function Keep(secrets: seq<bytes>): (n: nat)
    ensures forall secret :: secret in secrets && secret != [] ==> |secret| - 1 <= n
  {
    if secrets == [] then 0
    else
      var last := secrets[|secrets| - 1];
      var n := Keep(secrets[..|secrets| - 1]);
      if |last| - 1 > n then |last| - 1 else n
  }

  /** A secret that is not in `s` occurs in `s + p` exactly when it occurs across the kept tail and `p`. */
  lemma TailSuffices(s: bytes, p: bytes, secret: bytes, keep: nat)
    requires secret != [] && |secret| - 1 <= keep && !Contains(s, secret)
    ensures Contains(Tail(s, keep) + p, secret) <==> Contains(s + p, secret)
  {
    var skip := |s| - |Tail(s, keep)|;
    if i :| OccursAt(Tail(s, keep) + p, secret, i) {
      AcrossTail(s, p, secret, keep, i + skip);
      assert OccursAt(s + p, secret, i + skip);
    }
    if i :| OccursAt(s + p, secret, i) {
      AcrossTail(s, p, secret, keep, i);
      assert OccursAt(Tail(s, keep) + p, secret, i - skip);
    }
  }

  /** Refusing on the tail and the new bytes is refusing on the whole of what was written. */
  lemma ScanSuffices(s: bytes, p: bytes, secrets: seq<bytes>)
    requires !Leaks(s, secrets)
    ensures Leaks(Tail(s, Keep(secrets)) + p, secrets) <==> Leaks(s + p, secrets)
  {
    forall secret | secret in secrets && secret != []
      ensures Contains(Tail(s, Keep(secrets)) + p, secret) <==> Contains(s + p, secret)
    {
      TailSuffices(s, p, secret, Keep(secrets));
    }
  }

  /** A leak in the beginning is a leak in the whole. */
  lemma LeakMonotone(s: bytes, t: bytes, secrets: seq<bytes>)
    requires Leaks(s, secrets)
    ensures Leaks(s + t, secrets)
  {
    var secret :| secret in secrets && secret != [] && Contains(s, secret);
    var i :| OccursAt(s, secret, i);
    assert (s + t)[0..|s|] == s;
    OccursInSlice(s + t, secret, 0, |s|, i);
    assert OccursAt(s + t, secret, i);
  }

  lemma NothingLeaks(secrets: seq<bytes>)
    ensures !Leaks([], secrets)
  {
  }

  // ----- the scanner

  datatype WriteError = Refused | WriteFailed
  class CredentialWriter {
    const dst: Sink
    const secrets: seq<bytes>
    var tail: bytes
    /** Everything let through so far. */
    ghost var accepted: bytes

    ghost predicate Valid()
      reads this
    {
      tail == Tail(accepted, Keep(secrets)) && !Leaks(accepted, secrets)
    }

    constructor (dst: Sink, secrets: seq<bytes>)
      ensures Valid() && this.dst == dst && this.secrets == secrets && accepted == []
    {
      this.dst, this.secrets, tail, accepted := dst, secrets, [], [];
      new;
      NothingLeaks(secrets);
    }

    /** Refuses exactly when the bytes let through so far and these ones complete a secret. */
    method Write(p: bytes) returns (n: int, err: Option<WriteError>)
      requires Valid()
      modifies this, dst
      ensures Valid()
      ensures err == Some(Refused) <==> Leaks(old(accepted) + p, secrets)
      ensures err == Some(Refused) ==> n == 0 && accepted == old(accepted) && dst.out == old(dst.out) && dst.script == old(dst.script)
      ensures err != Some(Refused) ==> accepted == old(accepted) + p
      ensures old(dst.script) == [] ==> dst.script == [] && (err != Some(Refused) ==> err == None && n == |p| && dst.out == old(dst.out) + p)
      ensures exists k: nat :: k <= |p| && dst.out == old(dst.out) + p[..k] && (err == None && 0 <= n <= |p| ==> n == k)
    {
      hide Contains, Tail, Leaks, Keep;
      var check := tail + p;
      var keep := 0;
      ScanSuffices(accepted, p, secrets);
      NoSecrets(check);
      for i := 0 to |secrets|
        invariant unchanged(this) && unchanged(dst)
        invariant keep == Keep(secrets[..i]) && !Leaks(check, secrets[..i])
      {
        SecretStep(check, secrets, i);
        var secret := secrets[i];
        if |secret| > 0 {
          var at := Index(check, secret);
          if at >= 0 {
            assert p[..0] == [];
            assert dst.out == old(dst.out) + p[..0];
            return 0, Some(Refused);
          }
        }
        keep := if |secret| - 1 > keep then |secret| - 1 else keep;
      }
      assert secrets[..|secrets|] == secrets;
      TailOfTail(accepted, p, keep);
      TailIs(check, keep);
      tail := check[if |check| > keep then |check| - keep else 0..];
      accepted := accepted + p;
      var ok;
      n, ok := dst.Write(p);
      err := if ok then None else Some(WriteFailed);
    }
  }

  lemma NoSecrets(s: bytes)
    ensures Keep([]) == 0 && !Leaks(s, [])
  {
  }

  lemma SecretStep(s: bytes, secrets: seq<bytes>, i: nat)
    requires i < |secrets|
    ensures Keep(secrets[..i + 1]) == if |secrets[i]| - 1 > Keep(secrets[..i]) then |secrets[i]| - 1 else Keep(secrets[..i])
    ensures Leaks(s, secrets[..i + 1]) <==> Leaks(s, secrets[..i]) || (secrets[i] != [] && Contains(s, secrets[i]))
    ensures secrets[i] != [] && Contains(s, secrets[i]) ==> Leaks(s, secrets)
  {
    var upto := secrets[..i + 1];
    assert upto[|upto| - 1] == secrets[i] && upto[..|upto| - 1] == secrets[..i];
    assert upto == secrets[..i] + [secrets[i]];
  }

  lemma TailIs(s: bytes, keep: nat)
    ensures Tail(s, keep) == s[if |s| > keep then |s| - keep else 0..]
  {
  }

  // ----- every sequence of writes

  function Flatten(pieces: seq<bytes>): bytes {
    if pieces == [] then [] else pieces[0] + Flatten(pieces[1..])
  }

  lemma FlattenFrom(done: bytes, pieces: seq<bytes>)
    ensures done + Flatten(pieces) == if pieces == [] then done else (done + pieces[0]) + Flatten(pieces[1..])
  {
  }

  /** A writer that remembers only `tail` refuses none of these writes. */
  ghost predicate AdmitsAll(tail: bytes, pieces: seq<bytes>, secrets: seq<bytes>)
    decreases |pieces|
  {
    pieces == [] ||
    (!Leaks(tail + pieces[0], secrets) && AdmitsAll(Tail(tail + pieces[0], Keep(secrets)), pieces[1..], secrets))
  }

  /** However a text is cut into writes, all are accepted exactly when no secret occurs anywhere in the text. */
  lemma {:induction false} AdmitsAllMeansClean(done: bytes, pieces: seq<bytes>, secrets: seq<bytes>)
    requires !Leaks(done, secrets)
    ensures AdmitsAll(Tail(done, Keep(secrets)), pieces, secrets) <==> !Leaks(done + Flatten(pieces), secrets)
    decreases |pieces|
  {
    hide Leaks, Tail, Keep, Flatten;
    FlattenFrom(done, pieces);
    if pieces != [] {
      var p, rest := pieces[0], Flatten(pieces[1..]);
      ScanSuffices(done, p, secrets);
      TailOfTail(done, p, Keep(secrets));
      if Leaks(done + p, secrets) {
        LeakMonotone(done + p, rest, secrets);
      } else {
        AdmitsAllMeansClean(done + p, pieces[1..], secrets);
      }
    }
  }

  // ----- copying a bounded body through the scanner

  datatype CopyError = CredentialEcho | ReadFailed | WriteBroken

  /** Where a bounded copy stands: `done` went through, `rest` is what the source still has. */
  ghost predicate Copying(done: bytes, rest: bytes, body: bytes, limit: nat) {
    done + rest == body && |done| <= limit
  }

  /** The bytes a bounded copy may take. */
  ghost function Scope(body: bytes, limit: nat): bytes {
    body[..Min(limit, |body|)]
  }

  lemma CopyStep(done: bytes, rest: bytes, body: bytes, limit: nat, read: Read, rest': bytes)
    requires Copying(done, rest, body, limit) && rest == if read.end.More? then read.data + rest' else read.data
    ensures var data := if |read.data| > limit - |done| then read.data[..limit - |done|] else read.data;
      && |done + data| <= limit
      && done + data <= Scope(body, limit)
      && (|read.data| > limit - |done| ==> done + data == Scope(body, limit))
      && (data == read.data ==> if read.end.More? then Copying(done + data, rest', body, limit) else done + data == Scope(body, limit) == body)
  {
  }

  lemma CopyFull(done: bytes, rest: bytes, body: bytes, limit: nat)
    requires Copying(done, rest, body, limit) && |done| == limit
    ensures done == Scope(body, limit)
  {
  }

  lemma LeakInScope(done: bytes, scope: bytes, secrets: seq<bytes>)
    requires Leaks(done, secrets) && done <= scope
    ensures Leaks(scope, secrets)
  {
    assert scope == done + scope[|done|..];
    LeakMonotone(done, scope[|done|..], secrets);
  }

  /** One write of io.Copy: what counts as written, and whether copying may go on. */
  method CopyWrite(scanner: CredentialWriter, data: bytes) returns (n: nat, err: Option<CopyError>)
    requires scanner.Valid() && scanner.dst.out == scanner.accepted
    modifies scanner, scanner.dst
    ensures scanner.Valid() && n <= |data|
    ensures err == Some(CredentialEcho) <==> Leaks(old(scanner.accepted) + data, scanner.secrets)
    ensures scanner.accepted == if err == Some(CredentialEcho) then old(scanner.accepted) else old(scanner.accepted) + data
    ensures scanner.dst.out <= scanner.accepted
    ensures err != Some(WriteBroken) ==> scanner.dst.out == scanner.accepted && n == if err == None then |data| else 0
    ensures err.None? || err == Some(CredentialEcho) || err == Some(WriteBroken)
    ensures old(scanner.dst.script) == [] ==> scanner.dst.script == [] && err != Some(WriteBroken)
  {
    hide Leaks, Tail, Keep;
    var m, writeErr := scanner.Write(data);
    if writeErr == Some(Refused) {
      return 0, Some(CredentialEcho);
    }
    assert data[..|data|] == data;
    n := if 0 <= m <= |data| then m else 0;
    err := if writeErr != None || m != |data| then Some(WriteBroken) else None;
  }

  /** How a copy ends: with a prefix of its scope through the scanner, and with all of it unless a write was refused or failed. */
  ghost predicate Copied(out: bytes, accepted: bytes, written: nat, scope: bytes, secrets: seq<bytes>, err: Option<CopyError>) {
    && out <= accepted <= scope && written <= |accepted|
    && (err == Some(CredentialEcho) ==> Leaks(scope, secrets))
    && (err != Some(WriteBroken) ==> out == accepted && |accepted| == written)
    && (err.None? || err == Some(ReadFailed) ==> accepted == scope)
  }

  /** One read and one write of io.Copy. */
  method CopyOnce(source: Source, scanner: CredentialWriter, room: nat, ghost body: bytes, ghost limit: nat) returns (n: nat, more: bool, err: Option<CopyError>)
    requires source.Valid() && scanner.Valid() && scanner.dst.out == scanner.accepted && |scanner.accepted| + room == limit && room > 0
    requires Copying(scanner.accepted, Stream(source.events[source.pos..]), body, limit)
    modifies source, scanner, scanner.dst
    ensures source.Valid() && scanner.Valid() && source.pos >= old(source.pos) && (more ==> source.pos > old(source.pos))
    ensures more ==> scanner.dst.out == scanner.accepted && |scanner.accepted| == |old(scanner.accepted)| + n <= limit
    ensures more ==> Copying(scanner.accepted, Stream(source.events[source.pos..]), body, limit)
    ensures !more ==> Copied(scanner.dst.out, scanner.accepted, |old(scanner.accepted)| + n, Scope(body, limit), scanner.secrets, err)
    ensures err == Some(ReadFailed) ==> exists r :: r in source.events && r.end.Broken?
    ensures old(scanner.dst.script) == [] ==> scanner.dst.script == [] && err != Some(WriteBroken)
  {
    hide Leaks, Stream, Tail, Keep, Scope, Copying;
    ghost var events, at, before := source.events, source.pos, scanner.accepted;
    var read := source.Next();
    StreamStep(events, at, read);
    CopyStep(before, Stream(events[at..]), body, limit, read, if at < |events| then Stream(events[at + 1..]) else []);
    CopyPart(before, Stream(events[at..]), body, limit);
    var truncated := |read.data| > room;
    var data := if truncated then read.data[..room] else read.data;
    n, err := 0, None;
    if data != [] {
      n, err := CopyWrite(scanner, data);
      if err == Some(CredentialEcho) {
        LeakInScope(before + data, Scope(body, limit), scanner.secrets);
      }
    }
    assert err != Some(CredentialEcho) ==> scanner.accepted == before + data;
    more := err.None? && !truncated && read.end.More?;
    if err.None? && !truncated && read.end.Broken? {
      err := Some(ReadFailed);
    }
  }

  /** io.Copy of a reader limited to `limit` bytes. */
  method CopyLimited(source: Source, scanner: CredentialWriter, limit: nat) returns (written: nat, err: Option<CopyError>)
    requires source.Valid() && source.pos == 0 && scanner.Valid() && scanner.accepted == [] && scanner.dst.out == []
    modifies source, scanner, scanner.dst
    ensures Copied(scanner.dst.out, scanner.accepted, written, Scope(Stream(source.events), limit), scanner.secrets, err)
    ensures !Leaks(scanner.accepted, scanner.secrets)
    ensures err == Some(ReadFailed) ==> exists r :: r in source.events && r.end.Broken?
    ensures old(scanner.dst.script) == [] ==> err != Some(WriteBroken)
  {
    hide Leaks, Stream, Tail, Keep, Scope, Copying;
    written, err := 0, None;
    ghost var body := Stream(source.events);
    assert source.events[0..] == source.events;
    CopyStart(body, limit);
    var more := true;
    while more
      invariant source.Valid() && scanner.Valid()
      invariant old(scanner.dst.script) == [] ==> scanner.dst.script == [] && err != Some(WriteBroken)
      invariant err == Some(ReadFailed) ==> exists r :: r in source.events && r.end.Broken?
      invariant more ==> scanner.dst.out == scanner.accepted && |scanner.accepted| == written <= limit
      invariant more ==> Copying(scanner.accepted, Stream(source.events[source.pos..]), body, limit)
      invariant !more ==> Copied(scanner.dst.out, scanner.accepted, written, Scope(body, limit), scanner.secrets, err)
      decreases |source.events| - source.pos, more
    {
      if written == limit {
        CopyFull(scanner.accepted, Stream(source.events[source.pos..]), body, limit);
        return written, None;
      }
      var n;
      n, more, err := CopyOnce(source, scanner, limit - written, body, limit);
      written := written + n;
    }
  }

  lemma CopyPart(done: bytes, rest: bytes, body: bytes, limit: nat)
    requires Copying(done, rest, body, limit)
    ensures done <= Scope(body, limit)
  {
  }

  lemma CopyStart(body: bytes, limit: nat)
    ensures Copying([], body, body, limit)
  {
  }

  // ----- one transfer under the operation's budget

  datatype Method = Get | Head | Other

  /** What the provider answers: nothing, or a status with headers and a body. A negative length is unknown. */
  datatype Reply =
    | NoReply
    | Reply(status: int, safeHeaders: bool, identityEncoding: bool, contentLength: int, body: seq<Read>)

  datatype TransferError = Canceled | BudgetExceeded | Upstream | Redirect | Rejected | UnsafeHeaders

  datatype Transfer = Failed(error: TransferError, status: int) | Done(status: int, length: nat)

  /** A complete, truthful answer that echoes no secret. */
  ghost predicate Honest(reply: Reply, verb: Method, secrets: seq<bytes>) {
    && reply.Reply? && 200 <= reply.status <= 299 && reply.safeHeaders && reply.identityEncoding
    && (forall r :: r in reply.body ==> !r.end.Broken?)
    && (verb.Head? || reply.contentLength < 0 || reply.contentLength == |Stream(reply.body)|)
    && !Leaks(Stream(reply.body), secrets)
  }

  class Client {
    const secrets: seq<bytes>
    var requests: nat
    var buffered: nat
    var streamed: nat

    /** The budget: at most one byte past either limit was ever read, to notice that the limit was reached. */
    ghost predicate Valid()
      reads this
    {
      requests <= MAX_REQUESTS && buffered <= MAX_BYTES + 1 && streamed <= MAX_STREAM_BYTES + 1
    }

    constructor (secrets: seq<bytes>)
      ensures Valid() && this.secrets == secrets && requests == 0 && buffered == 0 && streamed == 0
    {
      this.secrets, requests, buffered, streamed := secrets, 0, 0, 0;
    }

    /** Reads an answer that passed the screening, and charges what was read to its budget. */
    method Receive(verb: Method, bound: nat, stream: bool, reply: Reply, lost: bool, dst: Sink) returns (r: Transfer)
      requires Valid() && dst.out == [] && reply.Reply? && Screen(verb, bound, reply).None?
      requires 0 < bound <= if stream then MAX_STREAM_BYTES - streamed else MAX_BYTES - buffered
      modifies this`buffered, this`streamed, dst
      ensures Valid() && Charged(old(buffered), old(streamed), buffered, streamed, stream, |dst.out|, old(dst.script) == [])
      ensures dst.out <= Scope(Stream(reply.body), bound + 1) && !Leaks(dst.out, secrets)
      ensures r.status == reply.status && (r.Failed? ==> r.error == if lost then Canceled else Upstream) && (lost ==> r.Failed?)
      ensures r.Done? ==> dst.out == Stream(reply.body) && r.status == reply.status && r.length == |dst.out| <= bound
      ensures r.Done? ==> buffered + streamed == old(buffered) + old(streamed) + r.length
      ensures r.Done? ==> verb.Head? || reply.contentLength < 0 || reply.contentLength == r.length
      ensures !lost && Honest(reply, verb, secrets) && |Stream(reply.body)| <= bound && old(dst.script) == [] ==> r.Done?
    {
      hide Leaks, Stream, Scope;
      var source := new Source(reply.body);
      var scanner := new CredentialWriter(dst, secrets);
      var n, copyErr := CopyLimited(source, scanner, bound + 1);
      PartIsClean(dst.out, scanner.accepted, secrets);
      CopyMeans(reply, verb, secrets, bound, dst.out, scanner.accepted, n, copyErr);
      hide Copied, Honest;
      if stream {
        streamed := streamed + n;
      } else {
        buffered := buffered + n;
      }
      if lost {
        return Failed(Canceled, reply.status);
      }
      if copyErr != None || n > bound || (!verb.Head? && reply.contentLength >= 0 && reply.contentLength != n) {
        return Failed(Upstream, reply.status);
      }
      return Done(reply.status, n);
    }

    /** `canceled` before the request and `lost` after it stand for the two contexts at those points. */
    method Transfer(verb: Method, maxBytes: nat, stream: bool, reply: Reply, canceled: bool, lost: bool, dst: Sink) returns (r: Transfer)
      requires Valid() && dst.out == []
      requires 0 < maxBytes <= if stream then MAX_STREAM_BYTES else MAX_BYTES
      modifies this, dst
      ensures Valid() && requests <= old(requests) + 1
      ensures requests > old(requests) <==> (
        && !canceled && old(requests) < MAX_REQUESTS
        && 0 < (if stream then MAX_STREAM_BYTES - old(streamed) else MAX_BYTES - old(buffered)))
      ensures requests == old(requests) ==> r.Failed? && dst.out == [] && buffered == old(buffered) && streamed == old(streamed)
      ensures requests == old(requests) ==> r == Failed(if canceled then Canceled else BudgetExceeded, 0)
      ensures requests > old(requests) && reply.NoReply? ==> r == Failed(if lost then Canceled else Upstream, 0)
      ensures requests > old(requests) && reply.Reply? ==>
        Explains(verb, Min(maxBytes, if stream then MAX_STREAM_BYTES - old(streamed) else MAX_BYTES - old(buffered)), reply, lost, r)
      ensures Charged(old(buffered), old(streamed), buffered, streamed, stream, |dst.out|, old(dst.script) == [])
      ensures dst.out != [] ==> reply.Reply? && dst.out <= Stream(reply.body) && |dst.out| <= maxBytes + 1 && !Leaks(dst.out, secrets)
      ensures r.Done? ==> reply.Reply? && 200 <= r.status == reply.status <= 299 && reply.safeHeaders && reply.identityEncoding
      ensures r.Done? ==> dst.out == Stream(reply.body) && r.length == |dst.out| <= maxBytes
      ensures r.Done? ==> (if stream then streamed <= MAX_STREAM_BYTES else buffered <= MAX_BYTES)
      ensures r.Done? ==> verb.Head? || reply.contentLength < 0 || reply.contentLength == r.length
      ensures !canceled && !lost && old(requests) < MAX_REQUESTS && Honest(reply, verb, secrets) && old(dst.script) == []
        && |Stream(reply.body)| <= Min(maxBytes, if stream then MAX_STREAM_BYTES - old(streamed) else MAX_BYTES - old(buffered))
        && 0 < (if stream then MAX_STREAM_BYTES - old(streamed) else MAX_BYTES - old(buffered))
        ==> r.Done?
    {
      hide Leaks, Stream, Scope;
      if canceled {
        return Failed(Canceled, 0);
      }
      var remaining := if stream then MAX_STREAM_BYTES - streamed else MAX_BYTES - buffered;
      if remaining <= 0 || requests >= MAX_REQUESTS {
        return Failed(BudgetExceeded, 0);
      }
      var bound := Min(maxBytes, remaining);
      requests := requests + 1;
      if reply.NoReply? {
        return Failed(if lost then Canceled else Upstream, 0);
      }
      var refused := Screen(verb, bound, reply);
      if refused.Some? {
        return refused.value;
      }
      CopyBounds(Stream(reply.body), bound + 1);
      r := Receive(verb, bound, stream, reply, lost, dst);
    }
  }

  /** Which error an answer leads to: one for its status, one for its headers, one for a context that is done once it is received,
      and Upstream for all else. */
  ghost predicate Explains(verb: Method, bound: nat, reply: Reply, lost: bool, r: Transfer)
    requires reply.Reply?
  {
    var good := 200 <= reply.status <= 299;
    var receivable := good && reply.safeHeaders && reply.identityEncoding && (verb.Head? || reply.contentLength <= bound);
    && r.status == reply.status
    && (r == Failed(Redirect, r.status) <==> 300 <= reply.status <= 399)
    && (r == Failed(Rejected, r.status) <==> reply.status < 200 || reply.status >= 400)
    && (r == Failed(UnsafeHeaders, r.status) <==> good && !reply.safeHeaders)
    && (r == Failed(Canceled, r.status) <==> receivable && lost)
    && (r.Done? ==> receivable && !lost)
    && (r.Failed? ==> r.error != BudgetExceeded)
  }

  /** What is wrong with an answer before its body is read: a redirect, another failure, unsafe or unexpected headers. */
  function Screen(verb: Method, bound: nat, reply: Reply): (refused: Option<Transfer>)
    requires reply.Reply?
    ensures refused.None? ==> 200 <= reply.status <= 299 && reply.safeHeaders && reply.identityEncoding
    ensures refused.Some? ==> refused.value.Failed? && refused.value.status == reply.status
    ensures refused.Some? && 300 <= reply.status <= 399 ==> refused.value.error == Redirect
  {
    if 300 <= reply.status <= 399 then Some(Failed(Redirect, reply.status))
    else if reply.status < 200 || reply.status >= 300 then Some(Failed(Rejected, reply.status))
    else if !reply.safeHeaders then Some(Failed(UnsafeHeaders, reply.status))
    else if !reply.identityEncoding || (!verb.Head? && reply.contentLength > bound) then Some(Failed(Upstream, reply.status))
    else None
  }

  /** One budget grew, by no less than what arrived; by exactly that when the destination takes everything. The other stays. */
  ghost predicate Charged(buffered: nat, streamed: nat, buffered': nat, streamed': nat, stream: bool, arrived: nat, exact: bool) {
    && (if stream then buffered' == buffered && streamed' >= streamed else streamed' == streamed && buffered' >= buffered)
    && (exact ==> buffered' + streamed' == buffered + streamed + arrived)
  }

  /** What Receive concludes from a copy of one byte more than the bound. */
  lemma CopyMeans(reply: Reply, verb: Method, secrets: seq<bytes>, bound: nat, out: bytes, accepted: bytes, n: nat, err: Option<CopyError>)
    requires reply.Reply? && Copied(out, accepted, n, Scope(Stream(reply.body), bound + 1), secrets, err)
    requires err == Some(ReadFailed) ==> exists r :: r in reply.body && r.end.Broken?
    ensures out <= Scope(Stream(reply.body), bound + 1) && n <= bound + 1
    ensures err != Some(WriteBroken) ==> n == |out|
    ensures err.None? && n <= bound ==> out == Stream(reply.body)
    ensures Honest(reply, verb, secrets) && |Stream(reply.body)| <= bound && err != Some(WriteBroken) ==>
      err.None? && n == |Stream(reply.body)| && (verb.Head? || reply.contentLength < 0 || reply.contentLength == n)
  {
    hide Leaks, Stream, Scope;
    CopyBounds(Stream(reply.body), bound + 1);
    match err { case None => case Some(CredentialEcho) => case Some(ReadFailed) => case Some(WriteBroken) => }
  }

  lemma CopyBounds(body: bytes, limit: nat)
    ensures Scope(body, limit) <= body && |Scope(body, limit)| <= limit
    ensures |Scope(body, limit)| < limit || |body| <= limit ==> Scope(body, limit) == body
  {
  }

  lemma PartIsClean(part: bytes, whole: bytes, secrets: seq<bytes>)
    requires part <= whole && !Leaks(whole, secrets)
    ensures !Leaks(part, secrets)
  {
    if Leaks(part, secrets) {
      LeakInScope(part, whole, secrets);
    }
  }
}
