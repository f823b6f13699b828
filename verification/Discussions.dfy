/** The fair-share allocator `boundDiscussionOutput` of internal/product/discussions.go. */
module Discussions {
  import opened Bytes
  import opened Utf8
  import opened BoundedText
  import opened Wrappers

  const MAX_NOTES := 1000
  const MAX_BODIES_BYTES := 2097152
  const MAX_DESCRIPTION_BYTES := 131072

  datatype Note = Note(id: int, body: bytes)
  datatype Discussion = Discussion(id: int, notes: seq<Note>)

  function Sum(s: seq<nat>): nat {
    if s == [] then 0 else s[0] + Sum(s[1..])
  }

  function Lengths(discussions: seq<Discussion>): (lens: seq<nat>)
    ensures |lens| == |discussions|
    ensures forall i :: 0 <= i < |lens| ==> lens[i] == |discussions[i].notes|
  {
    seq(|discussions|, i requires 0 <= i < |discussions| => |discussions[i].notes|)
  }

  // ----- the note slots: water filling

  /** Every thread has `level` notes, the first `raised` threads one more, and no thread more than it has. */
  ghost predicate WaterFilled(lens: seq<nat>, kept: seq<nat>, level: nat, raised: nat) {
    && |kept| == |lens| && raised <= |lens|
    && forall i :: 0 <= i < |lens| ==> kept[i] == Min(lens[i], if i < raised then level + 1 else level)
  }

  ghost predicate Pointwise(a: seq<nat>, b: seq<nat>) {
    |a| == |b| && forall i :: 0 <= i < |a| ==> a[i] <= b[i]
  }

  lemma {:induction false} PointwiseSum(a: seq<nat>, b: seq<nat>)
    requires Pointwise(a, b)
    ensures Sum(a) <= Sum(b)
    ensures Sum(a) == Sum(b) ==> a == b
  {
    if a != [] {
      assert Pointwise(a[1..], b[1..]);
      PointwiseSum(a[1..], b[1..]);
    }
  }

  /** A higher water level never lowers a thread. */
  lemma WaterOrdered(lens: seq<nat>, a: seq<nat>, la: nat, ra: nat, b: seq<nat>, lb: nat, rb: nat)
    requires WaterFilled(lens, a, la, ra) && WaterFilled(lens, b, lb, rb) && (la < lb || (la == lb && ra <= rb))
    ensures Pointwise(a, b)
  {
  }

  /** The shape determines the allocation: two water fillings with the same number of notes are the same. */
  lemma WaterFillingUnique(lens: seq<nat>, a: seq<nat>, la: nat, ra: nat, b: seq<nat>, lb: nat, rb: nat)
    requires WaterFilled(lens, a, la, ra) && WaterFilled(lens, b, lb, rb) && Sum(a) == Sum(b)
    ensures a == b
  {
    if la < lb || (la == lb && ra <= rb) {
      WaterOrdered(lens, a, la, ra, b, lb, rb);
      PointwiseSum(a, b);
    } else {
      WaterOrdered(lens, b, lb, rb, a, la, ra);
      PointwiseSum(b, a);
    }
  }

  lemma {:induction false} SumUpdate(s: seq<nat>, i: nat, x: nat)
    requires i < |s|
    ensures Sum(s[i := x]) == Sum(s) - s[i] + x
  {
    if i == 0 {
      assert s[0 := x][1..] == s[1..];
    } else {
      assert s[i := x][1..] == s[1..][i - 1 := x];
      SumUpdate(s[1..], i - 1, x);
    }
  }

  lemma {:induction false} SumOfOnes(s: seq<nat>)
    requires forall i :: 0 <= i < |s| ==> s[i] == 1
    ensures Sum(s) == |s|
  {
    if s != [] {
      SumOfOnes(s[1..]);
    }
  }

  /** When every thread is already at its length, no slot is left over. */
  lemma FullIsAll(lens: seq<nat>, kept: seq<nat>)
    requires |kept| == |lens| && forall i :: 0 <= i < |lens| ==> lens[i] <= kept[i]
    ensures Sum(lens) <= Sum(kept)
  {
  }

  /** Shares the slots round by round, in thread order. */
  method ShareSlots(lens: seq<nat>) returns (kept: array<nat>)
    requires Sum(lens) > MAX_NOTES && |lens| <= MAX_NOTES
    requires forall i :: 0 <= i < |lens| ==> lens[i] > 0
    ensures fresh(kept) && kept.Length == |lens| && Sum(kept[..]) == MAX_NOTES
    ensures forall i :: 0 <= i < |lens| ==> 1 <= kept[i] <= lens[i]
    ensures exists level: nat, raised: nat :: WaterFilled(lens, kept[..], level, raised)
  {
    hide Sum;
    kept := new nat[|lens|](_ => 1);
    SumOfOnes(kept[..]);
    var remaining := MAX_NOTES - |lens|;
    ghost var level: nat := 1;
    ghost var raised: nat := 0;
    while remaining > 0
      invariant 0 <= remaining && Sum(kept[..]) + remaining == MAX_NOTES
      invariant level >= 1 && WaterFilled(lens, kept[..], level, raised)
      invariant remaining > 0 ==> raised == 0
      decreases remaining
    {
      var progress := false;
      ghost var before := remaining;
      var index := 0;
      while index < |lens|
        invariant index <= |lens| && 0 < remaining <= before
        invariant Sum(kept[..]) + remaining == MAX_NOTES
        invariant WaterFilled(lens, kept[..], level, index)
        invariant progress <==> remaining < before
        invariant !progress ==> forall i :: 0 <= i < index ==> lens[i] <= kept[i]
      {
        raised := index + 1;
        if kept[index] < lens[index] {
          SumUpdate(kept[..], index, kept[index] + 1);
          ghost var old_ := kept[..];
          kept[index] := kept[index] + 1;
          assert kept[..] == old_[index := old_[index] + 1];
          remaining := remaining - 1;
          progress := true;
          if remaining == 0 {
            break;
          }
        }
        index := index + 1;
      }
      if !progress {
        FullIsAll(lens, kept[..]);
        break;
      }
      if remaining > 0 {
        level, raised := level + 1, 0;
      }
    }
  }

  // ----- the body bytes: a running quotient

  function Allowance(budget: nat, remaining: nat): nat
    requires remaining > 0
  {
    Min(budget / remaining, MAX_DESCRIPTION_BYTES)
  }

  function Spend(budget: nat, used: nat): nat {
    budget - Min(used, budget)
  }

  /** The allowance of body `i` when `remaining` notes, starting with these bodies, share `budget`. */
  function AllowanceAt(bodies: seq<bytes>, budget: nat, remaining: nat, i: nat): nat
    requires i < |bodies| <= remaining
  {
    if i == 0 then Allowance(budget, remaining)
    else AllowanceAt(bodies[1..], Spend(budget, |Bounded(bodies[0], Allowance(budget, remaining))|), remaining - 1, i - 1)
  }

  function Share(bodies: seq<bytes>, budget: nat, remaining: nat): (shared: seq<bytes>)
    requires |bodies| <= remaining
    ensures |shared| == |bodies|
  {
    if bodies == [] then []
    else
      var text := Bounded(bodies[0], Allowance(budget, remaining));
      [text] + Share(bodies[1..], Spend(budget, |text|), remaining - 1)
  }

  function Left(bodies: seq<bytes>, budget: nat, remaining: nat): nat
    requires |bodies| <= remaining
  {
    if bodies == [] then budget
    else Left(bodies[1..], Spend(budget, |Bounded(bodies[0], Allowance(budget, remaining))|), remaining - 1)
  }

  predicate AnyCut(bodies: seq<bytes>, budget: nat, remaining: nat)
    requires |bodies| <= remaining
  {
    bodies != [] &&
    (|| Cut(bodies[0], Allowance(budget, remaining))
     || AnyCut(bodies[1..], Spend(budget, |Bounded(bodies[0], Allowance(budget, remaining))|), remaining - 1))
  }

  function TotalBytes(bodies: seq<bytes>): nat {
    if bodies == [] then 0 else |bodies[0]| + TotalBytes(bodies[1..])
  }

  ghost predicate AllValid(bodies: seq<bytes>) {
    forall body :: body in bodies ==> ValidText(body, true)
  }

  /** Spending at most the quotient never lowers it. */
  lemma QuotientNeverDecreases(budget: nat, remaining: nat, used: nat)
    requires remaining > 1 && used <= budget / remaining
    ensures Spend(budget, used) / (remaining - 1) >= budget / remaining
  {
    QuotientTimes(budget, remaining);
    QuotientSmall(budget, remaining);
    OneFewer(budget / remaining, remaining);
    QuotientAtLeast(budget - used, remaining - 1, budget / remaining);
  }

  lemma QuotientTimes(a: nat, b: nat)
    requires b > 0
    ensures a / b * b <= a
  {
  }

  lemma OneFewer(q: nat, n: nat)
    requires n > 0
    ensures q * (n - 1) == q * n - q
  {
  }

  lemma MulMonotone(x: nat, y: nat, b: nat)
    requires x <= y
    ensures x * b <= y * b
  {
    assert y * b == x * b + (y - x) * b;
  }

  lemma QuotientAtLeast(a: nat, b: nat, q: nat)
    requires b > 0 && a >= q * b
    ensures a / b >= q
  {
    var d := a / b;
    if d < q {
      MulMonotone(d + 1, q, b);
    }
  }

  /** The first body fits its allowance, and the quotient for the rest is at least as large. */
  lemma FirstShare(body: bytes, budget: nat, remaining: nat)
    requires ValidText(body, true) && remaining > 0 && budget / remaining >= |MARKER|
    ensures var text := Bounded(body, Allowance(budget, remaining));
      && 0 < |text| <= Allowance(budget, remaining) <= budget
      && ValidText(text, true)
      && (remaining > 1 ==> Spend(budget, |text|) / (remaining - 1) >= budget / remaining)
  {
    hide WellFormed, NulFree, WholePrefix, Spend;
    BoundedPromises(body, Allowance(budget, remaining));
    QuotientSmall(budget, remaining);
    if remaining > 1 {
      QuotientNeverDecreases(budget, remaining, |Bounded(body, Allowance(budget, remaining))|);
    }
  }

  lemma QuotientSmall(budget: nat, remaining: nat)
    requires remaining > 0
    ensures budget / remaining <= budget
  {
    MulMonotone(1, remaining, budget / remaining);
  }

  /** Nothing is spent twice: the shared bodies and what is left add up to the budget. */
  lemma {:induction false} BytesAreConserved(bodies: seq<bytes>, budget: nat, remaining: nat)
    requires AllValid(bodies) && |bodies| <= remaining && (bodies != [] ==> budget / remaining >= |MARKER|)
    ensures TotalBytes(Share(bodies, budget, remaining)) + Left(bodies, budget, remaining) == budget
    decreases |bodies|
  {
    hide ValidText, Bounded;
    if bodies != [] {
      FirstShare(bodies[0], budget, remaining);
      var text := Bounded(bodies[0], Allowance(budget, remaining));
      assert AllValid(bodies[1..]);
      BytesAreConserved(bodies[1..], Spend(budget, |text|), remaining - 1);
      assert Share(bodies, budget, remaining)[1..] == Share(bodies[1..], Spend(budget, |text|), remaining - 1);
    }
  }

  /** Body `i` of those that `remaining` notes share a budget for, from lengths and totals alone. It is whole exactly if it fits the
      limit and, times the notes still to come, the bytes still left. A cut body is a beginning with the marker that fits so too, is at
      most three bytes short of that, and leaves no room for one more character. */
  ghost predicate FairAt(bodies: seq<bytes>, shared: seq<bytes>, budget: nat, remaining: nat, i: nat)
    requires i < |bodies| == |shared| <= remaining
  {
    var body, text, notes, left := bodies[i], shared[i], remaining - i, budget - TotalBytes(shared[..i]);
    && (text == body <==> |body| <= MAX_DESCRIPTION_BYTES && |body| * notes <= left)
    && (text != body ==>
          && |text| <= MAX_DESCRIPTION_BYTES && |text| * notes <= left
          && (MAX_DESCRIPTION_BYTES <= |text| + 3 || left < (|text| + 4) * notes)
          && |MARKER| <= |text| <= |body| + |MARKER| && text == body[..|text| - |MARKER|] + MARKER
          && forall k :: |text| - |MARKER| < k <= |body| && WellFormed(body[..k]) ==>
                MAX_DESCRIPTION_BYTES < k + |MARKER| || left < (k + |MARKER|) * notes)
  }

  ghost predicate FairShares(bodies: seq<bytes>, shared: seq<bytes>, budget: nat, remaining: nat)
    requires |bodies| <= remaining
  {
    |shared| == |bodies| && forall i :: 0 <= i < |bodies| ==> FairAt(bodies, shared, budget, remaining, i)
  }

  lemma FitsQuotient(a: nat, budget: nat, notes: nat)
    requires notes > 0
    ensures a <= budget / notes <==> a * notes <= budget
  {
    QuotientTimes(budget, notes);
    if a <= budget / notes {
      MulMonotone(a, budget / notes, notes);
    } else if a * notes <= budget {
      QuotientAtLeast(budget, notes, a);
    }
  }

  lemma FirstIsFair(bodies: seq<bytes>, shared: seq<bytes>, budget: nat, remaining: nat)
    requires 0 < |bodies| == |shared| <= remaining && ValidText(bodies[0], true) && budget / remaining >= |MARKER|
    requires shared[0] == Bounded(bodies[0], Allowance(budget, remaining))
    ensures FairAt(bodies, shared, budget, remaining, 0)
  {
    hide WellFormed, NulFree, WholePrefix;
    var body, text, allowance := bodies[0], shared[0], Allowance(budget, remaining);
    assert shared[..0] == [];
    FitsQuotient(|body|, budget, remaining);
    if |body| <= allowance {
      BoundedPromises(body, allowance);
    } else {
      CutLosesLittle(body, allowance);
      FitsQuotient(|text|, budget, remaining);
      FitsQuotient(|text| + 4, budget, remaining);
      forall k | |text| - |MARKER| < k <= |body| && WellFormed(body[..k])
        ensures MAX_DESCRIPTION_BYTES < k + |MARKER| || budget < (k + |MARKER|) * remaining
      {
        if k <= Room(allowance) {
          CutKeepsTheMost(body, allowance, k);
        }
        FitsQuotient(k + |MARKER|, budget, remaining);
      }
      assert text != body;
    }
  }

  /** The running quotient is fair to every body. */
  lemma {:induction false} ShareIsFair(bodies: seq<bytes>, budget: nat, remaining: nat)
    requires AllValid(bodies) && |bodies| <= remaining && (bodies != [] ==> budget / remaining >= |MARKER|)
    ensures FairShares(bodies, Share(bodies, budget, remaining), budget, remaining)
    decreases |bodies|
  {
    hide ValidText, Bounded, FairAt;
    if bodies != [] {
      var text, shared := Bounded(bodies[0], Allowance(budget, remaining)), Share(bodies, budget, remaining);
      FirstShare(bodies[0], budget, remaining);
      FirstIsFair(bodies, shared, budget, remaining);
      assert AllValid(bodies[1..]);
      ShareIsFair(bodies[1..], Spend(budget, |text|), remaining - 1);
      forall i | 0 < i < |bodies| ensures FairAt(bodies, shared, budget, remaining, i) {
        FairLater(bodies, shared, budget, remaining, i);
      }
    }
  }

  lemma FairLater(bodies: seq<bytes>, shared: seq<bytes>, budget: nat, remaining: nat, i: nat)
    requires 0 < i < |bodies| == |shared| <= remaining && |shared[0]| <= budget
    requires FairAt(bodies[1..], shared[1..], budget - |shared[0]|, remaining - 1, i - 1)
    ensures FairAt(bodies, shared, budget, remaining, i)
  {
    hide WellFormed;
    assert shared[..i][1..] == shared[1..][..i - 1];
    assert TotalBytes(shared[..i]) == |shared[0]| + TotalBytes(shared[1..][..i - 1]);
  }

  /** Every body gets the bounded text of its own allowance, and allowances only grow along the threads. */
  lemma {:induction false} ShareAt(bodies: seq<bytes>, budget: nat, remaining: nat, i: nat)
    requires AllValid(bodies) && i < |bodies| <= remaining && budget / remaining >= |MARKER|
    ensures var text := Share(bodies, budget, remaining)[i]; var allowance := AllowanceAt(bodies, budget, remaining, i);
      && text == Bounded(bodies[i], allowance)
      && 0 < |text| <= allowance && ValidText(text, true)
      && Allowance(budget, remaining) <= allowance <= MAX_DESCRIPTION_BYTES
      && FairAt(bodies, Share(bodies, budget, remaining), budget, remaining, i)
    decreases |bodies|
  {
    hide ValidText, Bounded, FairAt;
    ShareIsFair(bodies, budget, remaining);
    FirstShare(bodies[0], budget, remaining);
    if i > 0 {
      var text := Bounded(bodies[0], Allowance(budget, remaining));
      assert AllValid(bodies[1..]);
      ShareAt(bodies[1..], Spend(budget, |text|), remaining - 1, i - 1);
    }
  }

  lemma {:induction false} AllowancesNeverDecrease(bodies: seq<bytes>, budget: nat, remaining: nat, i: nat, j: nat)
    requires AllValid(bodies) && i <= j < |bodies| <= remaining && budget / remaining >= |MARKER|
    ensures AllowanceAt(bodies, budget, remaining, i) <= AllowanceAt(bodies, budget, remaining, j)
    decreases |bodies|
  {
    hide ValidText, Bounded;
    if i == 0 {
      ShareAt(bodies, budget, remaining, j);
    } else {
      FirstShare(bodies[0], budget, remaining);
      assert AllValid(bodies[1..]);
      AllowancesNeverDecrease(bodies[1..], Spend(budget, |Bounded(bodies[0], Allowance(budget, remaining))|), remaining - 1, i - 1, j - 1);
    }
  }

  lemma {:induction false} ShareAppend(a: seq<bytes>, b: seq<bytes>, budget: nat, remaining: nat)
    requires |a| + |b| <= remaining
    ensures Share(a + b, budget, remaining) == Share(a, budget, remaining) + Share(b, Left(a, budget, remaining), remaining - |a|)
    ensures Left(a + b, budget, remaining) == Left(b, Left(a, budget, remaining), remaining - |a|)
    ensures AnyCut(a + b, budget, remaining) <==> AnyCut(a, budget, remaining) || AnyCut(b, Left(a, budget, remaining), remaining - |a|)
    decreases |a|
  {
    hide Bounded;
    if a == [] {
      assert a + b == b;
    } else {
      assert (a + b)[1..] == a[1..] + b;
      ShareAppend(a[1..], b, Spend(budget, |Bounded(a[0], Allowance(budget, remaining))|), remaining - 1);
    }
  }

  // ----- the whole allocator

  function NoteBodies(notes: seq<Note>): (bodies: seq<bytes>)
    ensures |bodies| == |notes|
  {
    seq(|notes|, i requires 0 <= i < |notes| => notes[i].body)
  }

  function Bodies(discussions: seq<Discussion>): seq<bytes> {
    if discussions == [] then [] else NoteBodies(discussions[0].notes) + Bodies(discussions[1..])
  }

  /** Each thread cut to its first `kept[i]` notes. */
  function Trimmed(discussions: seq<Discussion>, kept: seq<nat>): (trimmed: seq<Discussion>)
    requires |kept| == |discussions|
    requires forall i :: 0 <= i < |kept| ==> kept[i] <= |discussions[i].notes|
  {
    seq(|discussions|, i requires 0 <= i < |discussions| => discussions[i].(notes := discussions[i].notes[..kept[i]]))
  }

  ghost predicate SameNotes(a: seq<Note>, b: seq<Note>) {
    |a| == |b| && forall i :: 0 <= i < |a| ==> a[i].id == b[i].id
  }

  /** Everything but the bodies is the same. */
  ghost predicate SameShape(a: seq<Discussion>, b: seq<Discussion>) {
    |a| == |b| && forall i :: 0 <= i < |a| ==> a[i].id == b[i].id && SameNotes(a[i].notes, b[i].notes)
  }

  /** The slots each thread keeps: all of them under the cap, else the water filling with exactly the cap. */
  ghost predicate Allocation(discussions: seq<Discussion>, kept: seq<nat>) {
    var lens := Lengths(discussions);
    if Sum(lens) <= MAX_NOTES then kept == lens
    else
      && |kept| == |lens| && Sum(kept) == MAX_NOTES
      && (forall i :: 0 <= i < |lens| ==> 1 <= kept[i] <= lens[i])
      && exists level: nat, raised: nat :: WaterFilled(lens, kept, level, raised)
  }

  lemma {:induction false} BodiesCount(discussions: seq<Discussion>)
    ensures |Bodies(discussions)| == Sum(Lengths(discussions))
  {
    if discussions != [] {
      BodiesCount(discussions[1..]);
      assert Lengths(discussions)[1..] == Lengths(discussions[1..]);
    }
  }

  lemma {:induction false} BodiesSnoc(discussions: seq<Discussion>, d: Discussion)
    ensures Bodies(discussions + [d]) == Bodies(discussions) + NoteBodies(d.notes)
  {
    if discussions == [] {
      assert [] + [d] == [d] && [d][1..] == [];
      assert Bodies([d]) == NoteBodies(d.notes) + [];
    } else {
      assert (discussions + [d])[1..] == discussions[1..] + [d];
      BodiesSnoc(discussions[1..], d);
    }
  }

  lemma TrimmedCount(discussions: seq<Discussion>, kept: seq<nat>)
    requires |kept| == |discussions| && forall i :: 0 <= i < |kept| ==> kept[i] <= |discussions[i].notes|
    ensures |Bodies(Trimmed(discussions, kept))| == Sum(kept)
  {
    BodiesCount(Trimmed(discussions, kept));
    assert Lengths(Trimmed(discussions, kept)) == kept;
  }

  datatype Outcome = TooManyThreads | InvalidBody | Bounds(recordTruncated: bool, bodyTruncated: bool)

  /** Cutting is exactly what changes a body. */
  lemma {:induction false} CutMeansChanged(bodies: seq<bytes>, budget: nat, remaining: nat)
    requires AllValid(bodies) && |bodies| <= remaining && (bodies != [] ==> budget / remaining >= |MARKER|)
    ensures AnyCut(bodies, budget, remaining) <==> Share(bodies, budget, remaining) != bodies
    decreases |bodies|
  {
    hide ValidText, WellFormed, WholePrefix;
    if bodies != [] {
      FirstShare(bodies[0], budget, remaining);
      var text := Bounded(bodies[0], Allowance(budget, remaining));
      assert AllValid(bodies[1..]);
      CutMeansChanged(bodies[1..], Spend(budget, |text|), remaining - 1);
      assert bodies == [bodies[0]] + bodies[1..];
    }
  }

  /** The guarantee of the body pass, for at most a thousand notes. */
  lemma BodiesWithinBudget(bodies: seq<bytes>, i: nat)
    requires AllValid(bodies) && i < |bodies| <= MAX_NOTES
    ensures var shared := Share(bodies, MAX_BODIES_BYTES, |bodies|);
      && TotalBytes(shared) <= MAX_BODIES_BYTES
      && shared[i] == Bounded(bodies[i], AllowanceAt(bodies, MAX_BODIES_BYTES, |bodies|, i))
      && |MARKER| <= MAX_BODIES_BYTES / MAX_NOTES <= AllowanceAt(bodies, MAX_BODIES_BYTES, |bodies|, i)
      && ValidText(shared[i], true) && |shared[i]| <= MAX_DESCRIPTION_BYTES
      && (|bodies[i]| <= MAX_BODIES_BYTES / MAX_NOTES ==> shared[i] == bodies[i])
  {
    hide ValidText, WellFormed, WholePrefix;
    MulMonotone(|bodies|, MAX_NOTES, 2097);
    QuotientAtLeast(MAX_BODIES_BYTES, |bodies|, 2097);
    BytesAreConserved(bodies, MAX_BODIES_BYTES, |bodies|);
    ShareAt(bodies, MAX_BODIES_BYTES, |bodies|, i);
  }

  /** What the body pass owes for at most a thousand notes, without its functions. */
  ghost predicate FairlyCut(bodies: seq<bytes>, shared: seq<bytes>, cut: bool) {
    && FairShares(bodies, shared, MAX_BODIES_BYTES, |bodies|)
    && TotalBytes(shared) <= MAX_BODIES_BYTES
    && (cut <==> shared != bodies)
  }

  lemma SharesAreFair(bodies: seq<bytes>)
    requires AllValid(bodies) && |bodies| <= MAX_NOTES
    ensures FairlyCut(bodies, Share(bodies, MAX_BODIES_BYTES, |bodies|), AnyCut(bodies, MAX_BODIES_BYTES, |bodies|))
  {
    hide ValidText, FairShares, Share, AnyCut;
    if bodies != [] {
      MulMonotone(|bodies|, MAX_NOTES, 2097);
      QuotientAtLeast(MAX_BODIES_BYTES, |bodies|, 2097);
    }
    ShareIsFair(bodies, MAX_BODIES_BYTES, |bodies|);
    BytesAreConserved(bodies, MAX_BODIES_BYTES, |bodies|);
    CutMeansChanged(bodies, MAX_BODIES_BYTES, |bodies|);
  }

  /** One step of the running quotient, seen from the remaining bodies. */
  lemma ShareStep(bodies: seq<bytes>, i: nat, budget: nat, remaining: nat)
    requires i < |bodies| && |bodies| - i <= remaining
    ensures var rest := bodies[i..]; var text := Bounded(bodies[i], Allowance(budget, remaining)); var left := Spend(budget, |text|);
      && Share(rest, budget, remaining) == [text] + Share(bodies[i + 1..], left, remaining - 1)
      && Left(rest, budget, remaining) == Left(bodies[i + 1..], left, remaining - 1)
      && (AnyCut(rest, budget, remaining) <==> Cut(bodies[i], Allowance(budget, remaining)) || AnyCut(bodies[i + 1..], left, remaining - 1))
  {
    assert bodies[i..][1..] == bodies[i + 1..];
  }

  /** Bounds the bodies of one thread. */
  method BoundThread(notes: seq<Note>, budget: nat, remaining: nat) returns (ok: bool, bounded: seq<Note>, left: nat, cut: bool)
    requires |notes| <= remaining
    ensures ok <==> AllValid(NoteBodies(notes))
    ensures ok ==> SameNotes(bounded, notes) && NoteBodies(bounded) == Share(NoteBodies(notes), budget, remaining)
    ensures ok ==> left == Left(NoteBodies(notes), budget, remaining) && cut == AnyCut(NoteBodies(notes), budget, remaining)
  {
    hide ValidText, Bounded, Share, Left, AnyCut, Spend, Allowance, Cut;
    ok, bounded, left, cut := true, [], budget, false;
    ghost var bodies := NoteBodies(notes);
    assert bodies[0..] == bodies;
    var remainingNotes := remaining;
    for index := 0 to |notes|
      invariant remainingNotes == remaining - index
      invariant SameNotes(bounded, notes[..index])
      invariant forall j :: 0 <= j < index ==> ValidText(bodies[j], true)
      invariant Share(bodies, budget, remaining) == NoteBodies(bounded) + Share(bodies[index..], left, remainingNotes)
      invariant Left(bodies, budget, remaining) == Left(bodies[index..], left, remainingNotes)
      invariant AnyCut(bodies, budget, remaining) <==> cut || AnyCut(bodies[index..], left, remainingNotes)
    {
      ShareStep(bodies, index, left, remainingNotes);
      var allowance := Allowance(left, remainingNotes);
      var text, shortened := BoundText(notes[index].body, allowance, true);
      if text.None? {
        assert notes[index].body == bodies[index];
        return false, [], 0, false;
      }
      ghost var before := NoteBodies(bounded);
      bounded := bounded + [notes[index].(body := text.value)];
      assert NoteBodies(bounded) == before + [text.value];
      cut := cut || shortened;
      left := Spend(left, |text.value|);
      remainingNotes := remainingNotes - 1;
    }
    ShareNothing(left, remainingNotes);
    assert bodies[|notes|..] == [] && notes[..|notes|] == notes;
  }

  lemma ShareNothing(budget: nat, remaining: nat)
    ensures Share([], budget, remaining) == [] && Left([], budget, remaining) == budget && !AnyCut([], budget, remaining)
  {
  }

  lemma NextThread(trimmed: seq<Discussion>, i: nat, budget: nat, remaining: nat)
    requires i < |trimmed| && |Bodies(trimmed[i..])| <= remaining
    ensures var own, rest := NoteBodies(trimmed[i].notes), Bodies(trimmed[i + 1..]); var left := Left(own, budget, remaining);
      && Bodies(trimmed[i..]) == own + rest
      && Share(Bodies(trimmed[i..]), budget, remaining) == Share(own, budget, remaining) + Share(rest, left, remaining - |own|)
      && (AnyCut(Bodies(trimmed[i..]), budget, remaining) <==> AnyCut(own, budget, remaining) || AnyCut(rest, left, remaining - |own|))
  {
    assert trimmed[i..][0] == trimmed[i] && trimmed[i..][1..] == trimmed[i + 1..];
    ShareAppend(NoteBodies(trimmed[i].notes), Bodies(trimmed[i + 1..]), budget, remaining);
  }

  /** There is only one allocation to choose. */
  lemma AllocationUnique(discussions: seq<Discussion>, a: seq<nat>, b: seq<nat>)
    requires Allocation(discussions, a) && Allocation(discussions, b)
    ensures a == b
  {
    var lens := Lengths(discussions);
    if Sum(lens) > MAX_NOTES {
      var la: nat, ra: nat :| WaterFilled(lens, a, la, ra);
      var lb: nat, rb: nat :| WaterFilled(lens, b, lb, rb);
      WaterFillingUnique(lens, a, la, ra, b, lb, rb);
    }
  }

  /** The discussions after both passes: the allocated notes, with the shared bodies. */
  ghost predicate Allocated(after: seq<Discussion>, trimmed: seq<Discussion>) {
    && SameShape(after, trimmed)
    && Bodies(after) == Share(Bodies(trimmed), MAX_BODIES_BYTES, |Bodies(trimmed)|)
  }

  /** The first pass: cuts each thread to its slots. */
  method TrimNotes(discussions: array<Discussion>) returns (ghost slots: seq<nat>)
    requires Sum(Lengths(discussions[..])) > MAX_NOTES && discussions.Length <= MAX_NOTES
    requires forall i :: 0 <= i < discussions.Length ==> discussions[i].notes != []
    modifies discussions
    ensures Allocation(old(discussions[..]), slots) && discussions[..] == Trimmed(old(discussions[..]), slots)
  {
    hide Sum, WaterFilled;
    ghost var before := discussions[..];
    var kept := ShareSlots(Lengths(discussions[..]));
    slots := kept[..];
    assert Allocation(before, slots);
    hide Allocation;
    ghost var trimmed := Trimmed(before, slots);
    for i := 0 to discussions.Length
      invariant forall j :: 0 <= j < i ==> discussions[j] == trimmed[j]
      invariant forall j :: i <= j < discussions.Length ==> discussions[j] == before[j]
      invariant kept[..] == slots
    {
      assert kept[i] == slots[i];
      discussions[i] := discussions[i].(notes := discussions[i].notes[..kept[i]]);
    }
  }

  /** The second pass: shares the body bytes. */
  method BoundBodies(discussions: array<Discussion>, totalNotes: nat) returns (ok: bool, cut: bool)
    requires totalNotes == |Bodies(discussions[..])|
    modifies discussions
    ensures var bodies := Bodies(old(discussions[..]));
      && (ok <==> AllValid(bodies))
      && (ok ==> SameShape(discussions[..], old(discussions[..])))
      && (ok ==> Bodies(discussions[..]) == Share(bodies, MAX_BODIES_BYTES, |bodies|))
      && (ok ==> cut == AnyCut(bodies, MAX_BODIES_BYTES, |bodies|))
      && (ok && |bodies| <= MAX_NOTES ==> FairlyCut(bodies, Bodies(discussions[..]), cut))
  {
    hide Bodies, Share, AnyCut, Left, ValidText, FairlyCut;
    ghost var trimmed := discussions[..];
    ghost var all := Bodies(trimmed);
    var remainingBytes: nat := MAX_BODIES_BYTES;
    var remainingNotes := totalNotes;
    ok, cut := true, false;
    assert trimmed[0..] == trimmed && discussions[..0] == [];
    NoBodies();
    for index := 0 to discussions.Length
      invariant remainingNotes == |Bodies(trimmed[index..])|
      invariant discussions[index..] == trimmed[index..] && SameShape(discussions[..index], trimmed[..index])
      invariant Share(all, MAX_BODIES_BYTES, |all|) == Bodies(discussions[..index]) + Share(Bodies(trimmed[index..]), remainingBytes, remainingNotes)
      invariant AnyCut(all, MAX_BODIES_BYTES, |all|) <==> cut || AnyCut(Bodies(trimmed[index..]), remainingBytes, remainingNotes)
      invariant AllValid(all) <==> AllValid(Bodies(trimmed[index..]))
    {
      NextThread(trimmed, index, remainingBytes, remainingNotes);
      assert discussions[index] == discussions[index..][0] == trimmed[index];
      var valid, bounded, left, shortened := BoundThread(discussions[index].notes, remainingBytes, remainingNotes);
      if !valid {
        return false, false;
      }
      ghost var done := discussions[..index];
      discussions[index] := discussions[index].(notes := bounded);
      assert discussions[..index + 1] == done + [discussions[index]];
      BodiesSnoc(done, discussions[index]);
      remainingBytes, remainingNotes := left, remainingNotes - |bounded|;
      cut := cut || shortened;
    }
    ShareNothing(remainingBytes, remainingNotes);
    if |all| <= MAX_NOTES {
      SharesAreFair(all);
    }
    assert trimmed[|trimmed|..] == [] && discussions[..discussions.Length] == discussions[..] && trimmed[..|trimmed|] == trimmed;
  }

  /** Bounds the notes and then their bodies, in place. */
  method BoundDiscussionOutput(discussions: array<Discussion>) returns (r: Outcome, ghost trimmed: seq<Discussion>)
    requires Sum(Lengths(discussions[..])) > MAX_NOTES ==> forall i :: 0 <= i < discussions.Length ==> discussions[i].notes != []
    modifies discussions
    ensures r.TooManyThreads? <==> Sum(Lengths(old(discussions[..]))) > MAX_NOTES && discussions.Length > MAX_NOTES
    ensures !r.TooManyThreads? ==> exists kept :: Allocation(old(discussions[..]), kept) && trimmed == Trimmed(old(discussions[..]), kept)
    ensures r.InvalidBody? ==> !AllValid(Bodies(trimmed))
    ensures r.Bounds? ==> AllValid(Bodies(trimmed)) && |Bodies(trimmed)| <= MAX_NOTES
    ensures r.Bounds? ==> Allocated(discussions[..], trimmed)
    ensures r.Bounds? ==> FairlyCut(Bodies(trimmed), Bodies(discussions[..]), r.bodyTruncated)
    ensures r.Bounds? ==> r.recordTruncated == (Sum(Lengths(old(discussions[..]))) > MAX_NOTES)
    ensures r.Bounds? ==> r.bodyTruncated == AnyCut(Bodies(trimmed), MAX_BODIES_BYTES, |Bodies(trimmed)|)
  {
    hide Sum, Bodies, Share, AnyCut, Left, ValidText, WaterFilled, FairlyCut;
    ghost var before := discussions[..];
    ghost var slots := Lengths(before);
    BodiesCount(before);
    TrimmedInFull(before);
    var totalNotes := Sum(Lengths(discussions[..]));
    var recordTruncated := totalNotes > MAX_NOTES;
    if recordTruncated {
      if discussions.Length > MAX_NOTES {
        return TooManyThreads, before;
      }
      slots := TrimNotes(discussions);
      totalNotes := MAX_NOTES;
      TrimmedCount(before, slots);
    }
    trimmed := discussions[..];
    assert Allocation(before, slots) && trimmed == Trimmed(before, slots);
    var ok, bodyTruncated := BoundBodies(discussions, totalNotes);
    if !ok {
      return InvalidBody, trimmed;
    }
    return Bounds(recordTruncated, bodyTruncated), trimmed;
  }

  lemma TrimmedInFull(discussions: seq<Discussion>)
    ensures Trimmed(discussions, Lengths(discussions)) == discussions
  {
    forall i | 0 <= i < |discussions| ensures Trimmed(discussions, Lengths(discussions))[i] == discussions[i] {
      assert discussions[i].notes[..|discussions[i].notes|] == discussions[i].notes;
    }
  }

  lemma NoBodies()
    ensures Bodies([]) == []
  {
  }
}
