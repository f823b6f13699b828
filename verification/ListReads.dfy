/** Bounded paginated list reads (internal/product/commands_read.go). */
module ListReads {
  import opened Wrappers

  const MAX_PAGES := 10

  datatype Reason = NoReason | PaginationFailure | ProviderResponse | DisplayLimit | HardPageLimit | FieldLimit
  datatype ListState = ListState(count: nat, complete: bool, truncated: bool, reason: Reason)
  datatype Fetched<T> = Fetched(items: Option<seq<T>>, state: ListState)

  /** One provider answer: an error, or the records of one page. */
  datatype Reply<R> = Failed | Records(records: seq<R>)
  datatype Exchange<R> = Exchange(page: nat, perPage: nat, reply: Reply<R>)

  /** A page read by the command: refused, or its items and whether a field was cut. */
  datatype Normal<T> = Rejected | Items(items: seq<T>, cut: bool)

  /** A reader may remember the pages it has read before. */
  type Reader<!R, T> = (seq<seq<R>>, seq<R>) -> Normal<T>

  class Provider<R> {
    /** Some for a provider that serves one fixed list and never fails. */
    const catalogue: Option<seq<R>>
    var log: seq<Exchange<R>>

    constructor (catalogue: Option<seq<R>>)
      ensures this.catalogue == catalogue && log == []
    {
      this.catalogue, log := catalogue, [];
    }

    method Do(page: nat, perPage: nat) returns (reply: Reply<R>)
      requires page > 0
      modifies this`log
      ensures log == old(log) + [Exchange(page, perPage, reply)]
      ensures catalogue.Some? ==> reply == Records(PageOf(catalogue.value, perPage, page))
    {
      reply := *;
      if catalogue.Some? {
        reply := Records(PageOf(catalogue.value, perPage, page));
      }
      log := log + [Exchange(page, perPage, reply)];
    }
  }

  function Width(limit: nat): (w: nat)
    ensures 0 < w <= 100
  {
    Min(100, limit + 1)
  }

  /** Where the records after `n` pages start. */
  function Offset(width: nat, n: nat): (k: nat) {
    n * width
  }

  lemma {:induction false} OffsetGrows(width: nat, a: nat, b: nat)
    requires a <= b
    ensures Offset(width, a) <= Offset(width, b)
    decreases b
  {
  }

  /** The records of a fixed list on one of its pages, counted from 1. */
  function PageOf<R>(catalogue: seq<R>, width: nat, page: nat): seq<R>
    requires page > 0
  {
    catalogue[Min(|catalogue|, Offset(width, page - 1))..Min(|catalogue|, Offset(width, page))]
  }

  // ----- what a run of requests amounts to

  function Bodies<R>(calls: seq<Exchange<R>>): seq<seq<R>> {
    if calls == [] then []
    else Bodies(calls[..|calls| - 1]) + [if calls[|calls| - 1].reply.Records? then calls[|calls| - 1].reply.records else []]
  }

  function PageAt<R, T>(read: Reader<R, T>, calls: seq<Exchange<R>>, i: nat): Normal<T>
    requires i < |calls|
  {
    if calls[i].reply.Records? then read(Bodies(calls[..i]), calls[i].reply.records) else Rejected
  }

  function ItemsAt<R, T>(read: Reader<R, T>, calls: seq<Exchange<R>>, i: nat): seq<T>
    requires i < |calls|
  {
    if PageAt(read, calls, i).Items? then PageAt(read, calls, i).items else []
  }

  function CutAt<R, T>(read: Reader<R, T>, calls: seq<Exchange<R>>, i: nat): bool
    requires i < |calls|
  {
    PageAt(read, calls, i).Items? && PageAt(read, calls, i).cut
  }

  /** The items of the first `n` pages, in order. */
  function Gathered<R, T>(read: Reader<R, T>, calls: seq<Exchange<R>>, n: nat): seq<T>
    requires n <= |calls|
  {
    if n == 0 then [] else Gathered(read, calls, n - 1) + ItemsAt(read, calls, n - 1)
  }

  ghost predicate AnyCut<R, T>(read: Reader<R, T>, calls: seq<Exchange<R>>, n: nat)
    requires n <= |calls|
  {
    exists i :: 0 <= i < n && CutAt(read, calls, i)
  }

  predicate Asked<R>(limit: nat, calls: seq<Exchange<R>>, i: nat)
    requires i < |calls|
  {
    calls[i].page == i + 1 && calls[i].perPage == Width(limit)
  }

  predicate GoodPage<R, T>(read: Reader<R, T>, limit: nat, calls: seq<Exchange<R>>, i: nat)
    requires i < |calls|
  {
    PageAt(read, calls, i).Items? && |ItemsAt(read, calls, i)| <= Width(limit)
  }

  /** A page after which reading goes on: full, and not yet more items than wanted. */
  predicate GoesOn<R, T>(read: Reader<R, T>, limit: nat, calls: seq<Exchange<R>>, i: nat)
    requires i < |calls|
  {
    GoodPage(read, limit, calls, i) && |ItemsAt(read, calls, i)| == Width(limit) && |Gathered(read, calls, i + 1)| <= limit
  }

  /** Pages 1, 2, … at one width, each asked for only because reading had to go on. */
  ghost predicate Requests<R, T>(read: Reader<R, T>, limit: nat, calls: seq<Exchange<R>>) {
    && 0 < |calls| <= MAX_PAGES
    && (forall i :: 0 <= i < |calls| ==> Asked(limit, calls, i))
    && (forall i :: 0 <= i < |calls| - 1 ==> GoesOn(read, limit, calls, i))
  }

  /** What is reported after a request whose page could not be used. */
  ghost predicate Breaks<R, T>(read: Reader<R, T>, limit: nat, calls: seq<Exchange<R>>, state: ListState)
    requires calls != []
  {
    var last := |calls| - 1;
    && !GoodPage(read, limit, calls, last)
    && state.count == Min(|Gathered(read, calls, last)|, limit)
    && !state.complete && state.truncated == (Gathered(read, calls, last) != [])
    && state.reason == if calls[last].reply.Failed? then PaginationFailure else ProviderResponse
  }

  /** What is reported once reading ends: a prefix of what was gathered, with the truth about it. */
  ghost predicate Ends<R, T>(read: Reader<R, T>, limit: nat, calls: seq<Exchange<R>>, items: seq<T>, state: ListState)
    requires calls != []
  {
    var last, all := |calls| - 1, Gathered(read, calls, |calls|);
    && GoodPage(read, limit, calls, last)
    && (GoesOn(read, limit, calls, last) ==> |calls| == MAX_PAGES)
    && items == all[..Min(|all|, limit)] && state.count == |items|
    && state.complete == (|all| <= limit && |ItemsAt(read, calls, last)| < Width(limit))
    && state.truncated == (!state.complete || AnyCut(read, calls, |calls|))
    && state.reason == (if |all| > limit then DisplayLimit else if !state.complete then HardPageLimit
                        else if state.truncated then FieldLimit else NoReason)
  }

  ghost predicate Answers<R, T>(read: Reader<R, T>, limit: nat, calls: seq<Exchange<R>>, r: Fetched<T>) {
    && Requests(read, limit, calls)
    && if r.items.Some? then Ends(read, limit, calls, r.items.value, r.state) else Breaks(read, limit, calls, r.state)
  }

  // ----- earlier pages do not change as more are asked for

  lemma {:induction false} GatheredStays<R, T>(read: Reader<R, T>, calls: seq<Exchange<R>>, next: Exchange<R>, n: nat)
    requires n <= |calls|
    ensures Gathered(read, calls + [next], n) == Gathered(read, calls, n)
  {
    hide PageAt;
    PagesStay(read, calls, next);
    if n > 0 {
      GatheredStays(read, calls, next, n - 1);
    }
  }

  lemma CutStays<R, T>(read: Reader<R, T>, calls: seq<Exchange<R>>, next: Exchange<R>)
    ensures AnyCut(read, calls + [next], |calls|) == AnyCut(read, calls, |calls|)
  {
    hide PageAt;
    PagesStay(read, calls, next);
    assert forall i :: 0 <= i < |calls| ==> CutAt(read, calls + [next], i) == CutAt(read, calls, i);
  }

  lemma PagesStay<R, T>(read: Reader<R, T>, calls: seq<Exchange<R>>, next: Exchange<R>)
    ensures forall i :: 0 <= i < |calls| ==> PageAt(read, calls + [next], i) == PageAt(read, calls, i)
  {
    hide Bodies;
    forall i | 0 <= i < |calls| ensures PageAt(read, calls + [next], i) == PageAt(read, calls, i) {
      assert (calls + [next])[..i] == calls[..i];
    }
  }

  lemma RequestsGrow<R, T>(read: Reader<R, T>, limit: nat, calls: seq<Exchange<R>>, next: Exchange<R>)
    requires |calls| < MAX_PAGES && next.page == |calls| + 1 && next.perPage == Width(limit)
    requires calls == [] || (Requests(read, limit, calls) && GoesOn(read, limit, calls, |calls| - 1))
    ensures Requests(read, limit, calls + [next])
    ensures Gathered(read, calls + [next], |calls|) == Gathered(read, calls, |calls|)
    ensures AnyCut(read, calls + [next], |calls|) == AnyCut(read, calls, |calls|)
  {
    hide PageAt, Gathered, AnyCut;
    var now := calls + [next];
    PagesStay(read, calls, next);
    GatheredStays(read, calls, next, |calls|);
    CutStays(read, calls, next);
    forall i | 0 <= i < |now| - 1 ensures GoesOn(read, limit, now, i) {
      assert GoesOn(read, limit, calls, i);
      GatheredStays(read, calls, next, i + 1);
    }
    forall i | 0 <= i < |now| ensures Asked(limit, now, i) {
      if i < |calls| { assert Asked(limit, calls, i); }
    }
  }

  lemma CutGrows<R, T>(read: Reader<R, T>, calls: seq<Exchange<R>>, n: nat)
    requires n < |calls|
    ensures AnyCut(read, calls, n + 1) == (AnyCut(read, calls, n) || CutAt(read, calls, n))
  {
  }

  /** The state of the loop before page `page`, or once reading is over. */
  ghost predicate Reading<R, T>(read: Reader<R, T>, limit: nat, calls: seq<Exchange<R>>, page: nat, going: bool,
      bodies: seq<seq<R>>, items: seq<T>, cut: bool, state: ListState)
  {
    && 1 <= page <= MAX_PAGES + 1
    && bodies == Bodies(calls) && items == Gathered(read, calls, |calls|) && cut == AnyCut(read, calls, |calls|)
    && (calls != [] ==> Requests(read, limit, calls) && GoodPage(read, limit, calls, |calls| - 1))
    && (going ==> |calls| == page - 1 && (calls != [] ==> GoesOn(read, limit, calls, |calls| - 1)))
    && (!going ==> calls != [] && !GoesOn(read, limit, calls, |calls| - 1))
    && state.count == 0 && Progress(read, limit, calls, state)
  }

  /** What is known of the pages while reading. */
  ghost predicate Progress<R, T>(read: Reader<R, T>, limit: nat, calls: seq<Exchange<R>>, state: ListState) {
    var over := |Gathered(read, calls, |calls|)| > limit;
    var short := calls != [] && |ItemsAt(read, calls, |calls| - 1)| < Width(limit);
    && state.complete == (!over && short)
    && state.truncated == (over || (|calls| == MAX_PAGES && !short))
    && state.reason == if over then DisplayLimit else if |calls| == MAX_PAGES && !short then HardPageLimit else NoReason
  }

  method FetchList<R, T>(provider: Provider<R>, limit: nat, read: Reader<R, T>) returns (r: Fetched<T>, ghost calls: seq<Exchange<R>>)
    modifies provider`log
    ensures provider.log == old(provider.log) + calls
    ensures Answers(read, limit, calls, r)
    ensures provider.catalogue.Some? ==> Serves(provider.catalogue.value, calls)
  {
    hide PageOf, Reading, Answers, Serves;
    var items: seq<T> := [];
    var bodies: seq<seq<R>> := [];
    var state := ListState(0, false, false, NoReason);
    var fieldTruncated := false;
    var perPage := Min(100, limit + 1);
    calls := [];
    NothingYet(read, limit, state);
    NothingServed(provider.catalogue);
    var page, going := 1, true;
    while page <= MAX_PAGES && going
      invariant 1 <= page && provider.log == old(provider.log) + calls
      invariant provider.catalogue.Some? ==> Serves(provider.catalogue.value, calls)
      invariant Reading(read, limit, calls, page, going, bodies, items, fieldTruncated, state)
      decreases MAX_PAGES + 1 - page, going
    {
      var response := provider.Do(page, perPage);
      ghost var before, was, next := calls, state, Exchange(page, perPage, response);
      calls := calls + [next];
      if provider.catalogue.Some? {
        ServesGrows(provider.catalogue.value, before, next);
      }
      if response.Failed? {
        state := ListState(Min(|items|, limit), false, |items| > 0, PaginationFailure);
        PageFails(read, limit, before, page, bodies, items, fieldTruncated, was, next, state);
        return Fetched(None, state), calls;
      }
      var pageItems := read(bodies, response.records);
      if pageItems.Rejected? || |pageItems.items| > perPage {
        state := ListState(Min(|items|, limit), false, |items| > 0, ProviderResponse);
        PageFails(read, limit, before, page, bodies, items, fieldTruncated, was, next, state);
        return Fetched(None, state), calls;
      }
      ghost var had, hadCut, hadBodies, at := items, fieldTruncated, bodies, page;
      fieldTruncated := fieldTruncated || pageItems.cut;
      items := items + pageItems.items;
      bodies := bodies + [response.records];
      if |items| > limit {
        state := state.(reason := DisplayLimit, truncated := true);
        going := false;
      } else if |pageItems.items| < perPage {
        state := state.(complete := true);
        going := false;
      } else {
        if page == MAX_PAGES {
          state := state.(reason := HardPageLimit, truncated := true);
        }
        page := page + 1;
      }
      PageKept(read, limit, before, at, hadBodies, had, hadCut, was, next, page, going, state);
    }
    ghost var gathered, ended := items, state;
    if |items| > limit {
      items := items[..limit];
      state := state.(truncated := true, complete := false);
    }
    if fieldTruncated {
      state := state.(truncated := true);
      if state.reason == NoReason {
        state := state.(reason := FieldLimit);
      }
    }
    state := state.(count := |items|);
    r := Fetched(Some(items), state);
    ReadingEnds(read, limit, calls, page, going, bodies, gathered, fieldTruncated, ended, r);
  }

  lemma PageFails<R, T>(read: Reader<R, T>, limit: nat, calls: seq<Exchange<R>>, page: nat,
      bodies: seq<seq<R>>, items: seq<T>, cut: bool, state: ListState, next: Exchange<R>, failed: ListState)
    requires Reading(read, limit, calls, page, true, bodies, items, cut, state) && page <= MAX_PAGES
    requires next.page == page && next.perPage == Width(limit)
    requires next.reply.Records? ==>
      var n := read(bodies, next.reply.records); n.Rejected? || |n.items| > Width(limit)
    requires failed == ListState(Min(|items|, limit), false, |items| > 0, if next.reply.Failed? then PaginationFailure else ProviderResponse)
    ensures Answers(read, limit, calls + [next], Fetched(None, failed))
  {
    hide PageAt, CutAt, AnyCut, Gathered, Requests, Progress;
    RequestsGrow(read, limit, calls, next);
    PageRead(read, calls, next);
  }

  lemma PageKept<R, T>(read: Reader<R, T>, limit: nat, calls: seq<Exchange<R>>, page: nat,
      bodies: seq<seq<R>>, items: seq<T>, cut: bool, state: ListState, next: Exchange<R>, page': nat, going': bool, state': ListState)
    requires Reading(read, limit, calls, page, true, bodies, items, cut, state) && page <= MAX_PAGES
    requires next.page == page && next.perPage == Width(limit) && next.reply.Records?
    requires read(bodies, next.reply.records).Items? && |read(bodies, next.reply.records).items| <= Width(limit)
    requires var n := read(bodies, next.reply.records);
      var over, short := |items + n.items| > limit, |n.items| < Width(limit);
      && going' == (!over && !short) && page' == (if going' then page + 1 else page)
      && state' == if over then state.(reason := DisplayLimit, truncated := true)
                   else if short then state.(complete := true)
                   else if page == MAX_PAGES then state.(reason := HardPageLimit, truncated := true)
                   else state
    ensures var n := read(bodies, next.reply.records);
      Reading(read, limit, calls + [next], page', going', bodies + [next.reply.records], items + n.items, cut || n.cut, state')
  {
    hide PageAt, CutAt, AnyCut, Gathered, Requests;
    RequestsGrow(read, limit, calls, next);
    PageRead(read, calls, next);
    CutGrows(read, calls + [next], |calls|);
  }

  lemma ReadingEnds<R, T>(read: Reader<R, T>, limit: nat, calls: seq<Exchange<R>>, page: nat, going: bool,
      bodies: seq<seq<R>>, items: seq<T>, cut: bool, state: ListState, r: Fetched<T>)
    requires Reading(read, limit, calls, page, going, bodies, items, cut, state) && !(page <= MAX_PAGES && going)
    requires r.items == Some(if |items| > limit then items[..limit] else items)
    requires r.state.count == |r.items.value|
    requires r.state.complete == (|items| <= limit && state.complete)
    requires r.state.truncated == (state.truncated || |items| > limit || cut)
    requires r.state.reason == if cut && state.reason == NoReason then FieldLimit else state.reason
    ensures Answers(read, limit, calls, r)
  {
  }

  lemma ServesGrows<R>(catalogue: seq<R>, calls: seq<Exchange<R>>, next: Exchange<R>)
    requires Serves(catalogue, calls) && next.page > 0 && next.reply == Records(PageOf(catalogue, next.perPage, next.page))
    ensures Serves(catalogue, calls + [next])
  {
  }

  lemma NothingServed<R>(catalogue: Option<seq<R>>)
    ensures catalogue.Some? ==> Serves(catalogue.value, [])
  {
  }

  lemma NothingYet<R, T>(read: Reader<R, T>, limit: nat, state: ListState)
    requires state == ListState(0, false, false, NoReason)
    ensures Reading(read, limit, [], 1, true, [], [], false, state)
  {
  }

  lemma PageRead<R, T>(read: Reader<R, T>, calls: seq<Exchange<R>>, next: Exchange<R>)
    ensures var now := calls + [next];
      && (next.reply.Failed? ==> PageAt(read, now, |calls|) == Rejected)
      && (next.reply.Records? ==> PageAt(read, now, |calls|) == read(Bodies(calls), next.reply.records))
      && (next.reply.Records? ==> Bodies(now) == Bodies(calls) + [next.reply.records])
      && CutAt(read, now, |calls|) == (PageAt(read, now, |calls|).Items? && PageAt(read, now, |calls|).cut)
      && Gathered(read, now, |calls| + 1) == Gathered(read, now, |calls|) + ItemsAt(read, now, |calls|)
  {
    assert (calls + [next])[..|calls|] == calls;
  }

  // ----- a provider that holds a fixed catalogue

  ghost predicate Serves<R>(catalogue: seq<R>, calls: seq<Exchange<R>>) {
    forall i :: 0 <= i < |calls| ==>
      calls[i].page > 0 && calls[i].reply == Records(PageOf(catalogue, calls[i].perPage, calls[i].page))
  }

  function Map<R, T>(one: R -> T, s: seq<R>): (m: seq<T>)
    ensures |m| == |s| && forall i :: 0 <= i < |s| ==> m[i] == one(s[i])
  {
    if s == [] then [] else [one(s[0])] + Map(one, s[1..])
  }

  predicate AnyShort<R>(short: R -> bool, s: seq<R>) {
    exists i :: 0 <= i < |s| && short(s[i])
  }

  /** An accepted page gives one item for each of its records, and tells whether any of them was shortened. */
  ghost predicate Faithful<R(!new), T>(read: Reader<R, T>, one: R -> T, short: R -> bool) {
    forall earlier, page :: read(earlier, page).Items? ==>
      read(earlier, page).items == Map(one, page) && read(earlier, page).cut == AnyShort(short, page)
  }

  ghost predicate Accepted<R, T>(read: Reader<R, T>, calls: seq<Exchange<R>>, n: nat)
    requires n <= |calls|
  {
    forall i :: 0 <= i < n ==> PageAt(read, calls, i).Items?
  }

  lemma OnePage<R(!new), T>(catalogue: seq<R>, read: Reader<R, T>, one: R -> T, short: R -> bool, limit: nat, calls: seq<Exchange<R>>, i: nat)
    requires Serves(catalogue, calls) && Faithful(read, one, short) && i < |calls| && Asked(limit, calls, i)
    requires PageAt(read, calls, i).Items?
    ensures ItemsAt(read, calls, i) == Map(one, PageOf(catalogue, Width(limit), i + 1))
    ensures CutAt(read, calls, i) == AnyShort(short, PageOf(catalogue, Width(limit), i + 1))
  {
  }

  lemma NextPage<R>(catalogue: seq<R>, width: nat, n: nat)
    ensures var before, after := catalogue[..Min(|catalogue|, Offset(width, n))], catalogue[..Min(|catalogue|, Offset(width, n + 1))];
      after == before + PageOf(catalogue, width, n + 1)
  {
  }

  lemma MapAppends<R, T>(one: R -> T, short: R -> bool, a: seq<R>, b: seq<R>)
    ensures Map(one, a + b) == Map(one, a) + Map(one, b)
    ensures AnyShort(short, a + b) == (AnyShort(short, a) || AnyShort(short, b))
  {
    if i :| 0 <= i < |a| && short(a[i]) {
      assert (a + b)[i] == a[i];
    } else if j :| 0 <= j < |b| && short(b[j]) {
      assert (a + b)[|a| + j] == b[j];
    }
  }

  /** What the first pages give is what the start of the catalogue gives. */
  lemma {:induction false} GatheredIsPrefix<R(!new), T>(catalogue: seq<R>, read: Reader<R, T>, one: R -> T, short: R -> bool, limit: nat,
      calls: seq<Exchange<R>>, n: nat)
    requires Serves(catalogue, calls) && Faithful(read, one, short) && n <= |calls| && Accepted(read, calls, n)
    requires forall i :: 0 <= i < |calls| ==> Asked(limit, calls, i)
    ensures Gathered(read, calls, n) == Map(one, catalogue[..Min(|catalogue|, Offset(Width(limit), n))])
    ensures AnyCut(read, calls, n) == AnyShort(short, catalogue[..Min(|catalogue|, Offset(Width(limit), n))])
  {
    hide Offset, PageAt, CutAt, PageOf, Map, AnyShort, AnyCut, Serves, Faithful, Width;
    if n == 0 {
      NothingGathered(catalogue, read, one, short, limit, calls);
    } else {
      GatheredIsPrefix(catalogue, read, one, short, limit, calls, n - 1);
      OnePage(catalogue, read, one, short, limit, calls, n - 1);
      CutGrows(read, calls, n - 1);
      var before := catalogue[..Min(|catalogue|, Offset(Width(limit), n - 1))];
      NextPage(catalogue, Width(limit), n - 1);
      MapAppends(one, short, before, PageOf(catalogue, Width(limit), n));
    }
  }

  lemma NothingGathered<R, T>(catalogue: seq<R>, read: Reader<R, T>, one: R -> T, short: R -> bool, limit: nat, calls: seq<Exchange<R>>)
    ensures Gathered(read, calls, 0) == Map(one, catalogue[..Min(|catalogue|, Offset(Width(limit), 0))]) == []
    ensures AnyCut(read, calls, 0) == AnyShort(short, catalogue[..Min(|catalogue|, Offset(Width(limit), 0))])
  {
    assert catalogue[..Min(|catalogue|, Offset(Width(limit), 0))] == [];
  }

  /** A page never holds more than the width, and is full exactly while the catalogue lasts. */
  lemma PageSize<R>(catalogue: seq<R>, width: nat, page: nat)
    requires page > 0
    ensures |PageOf(catalogue, width, page)| <= width
    ensures width > 0 ==> (|PageOf(catalogue, width, page)| == width <==> Offset(width, page) <= |catalogue|)
    ensures width > 0 && |PageOf(catalogue, width, page)| < width ==> Min(|catalogue|, Offset(width, page)) == |catalogue|
  {
  }

  lemma AllAccepted<R, T>(read: Reader<R, T>, limit: nat, calls: seq<Exchange<R>>)
    requires Requests(read, limit, calls)
    ensures Accepted(read, calls, |calls| - 1)
    ensures GoodPage(read, limit, calls, |calls| - 1) ==> Accepted(read, calls, |calls|)
  {
    hide PageAt, ItemsAt, Gathered;
    forall i | 0 <= i < |calls| - 1 ensures PageAt(read, calls, i).Items? {
      assert GoesOn(read, limit, calls, i);
    }
  }

  lemma LastPage<R(!new), T>(catalogue: seq<R>, read: Reader<R, T>, one: R -> T, short: R -> bool, limit: nat, calls: seq<Exchange<R>>, i: nat)
    requires Serves(catalogue, calls) && Faithful(read, one, short) && i < |calls| && Asked(limit, calls, i)
    requires PageAt(read, calls, i).Items?
    ensures |ItemsAt(read, calls, i)| <= Width(limit)
    ensures |ItemsAt(read, calls, i)| == Width(limit) <==> Offset(Width(limit), i + 1) <= |catalogue|
  {
  }

  /** All that a successful read has seen: the catalogue up to the last page, which is full unless the catalogue ends there. */
  lemma PrefixRead<R(!new), T>(catalogue: seq<R>, read: Reader<R, T>, one: R -> T, short: R -> bool, limit: nat, calls: seq<Exchange<R>>, m: nat)
    requires Serves(catalogue, calls) && Faithful(read, one, short) && Requests(read, limit, calls)
    requires GoodPage(read, limit, calls, |calls| - 1) && m == Min(|catalogue|, Offset(Width(limit), |calls|))
    ensures Gathered(read, calls, |calls|) == Map(one, catalogue[..m]) && |Gathered(read, calls, |calls|)| == m
    ensures AnyCut(read, calls, |calls|) == AnyShort(short, catalogue[..m])
    ensures |ItemsAt(read, calls, |calls| - 1)| <= Width(limit)
    ensures |ItemsAt(read, calls, |calls| - 1)| == Width(limit) <==> Offset(Width(limit), |calls|) <= |catalogue|
  {
    hide Offset, PageAt, CutAt, PageOf, Map, AnyShort, AnyCut, Serves, Faithful, Gathered, ItemsAt, Width, Asked, GoesOn;
    AllAccepted(read, limit, calls);
    GatheredIsPrefix(catalogue, read, one, short, limit, calls, |calls|);
    LastPage(catalogue, read, one, short, limit, calls, |calls| - 1);
    MapLength(one, catalogue[..m]);
  }

  /** Against a fixed catalogue a read gives exactly its first items, and claims completeness exactly when nothing is left out. */
  lemma FixedCatalogue<R(!new), T>(catalogue: seq<R>, read: Reader<R, T>, one: R -> T, short: R -> bool, limit: nat,
      calls: seq<Exchange<R>>, r: Fetched<T>)
    requires Serves(catalogue, calls) && Faithful(read, one, short) && Answers(read, limit, calls, r) && r.items.Some?
    ensures |calls| <= MAX_PAGES
    ensures r.items.value == Map(one, catalogue[..Min(Min(|catalogue|, limit), Offset(Width(limit), MAX_PAGES))])
    ensures r.state.complete <==> |catalogue| <= limit && |catalogue| < Offset(Width(limit), MAX_PAGES)
    ensures r.state.truncated <==> !r.state.complete || AnyShort(short, catalogue)
    ensures r.state.count == |r.items.value|
  {
    hide Offset, PageAt, CutAt, PageOf, Map, AnyShort, AnyCut, Serves, Faithful, Gathered, ItemsAt, Width;
    var k, w, n := |calls|, Width(limit), |catalogue|;
    var m := Min(n, Offset(w, k));
    PrefixRead(catalogue, read, one, short, limit, calls, m);
    OffsetGrows(w, k, MAX_PAGES);
    if m > limit {
      MapPrefix(one, catalogue[..m], limit);
      assert catalogue[..m][..limit] == catalogue[..limit];
    } else {
      assert r.items.value == Gathered(read, calls, k);
      assert catalogue[..n] == catalogue;
    }
  }

  lemma MapLength<R, T>(one: R -> T, s: seq<R>)
    ensures |Map(one, s)| == |s|
  {
  }

  lemma MapPrefix<R, T>(one: R -> T, s: seq<R>, n: nat)
    requires n <= |s|
    ensures Map(one, s)[..n] == Map(one, s[..n])
  {
  }

  /** Within the command's own limits that is simply the first `limit` items. */
  lemma WithinLimits<R>(catalogue: seq<R>, limit: nat)
    requires limit <= 1000
    ensures Min(Min(|catalogue|, limit), Offset(Width(limit), MAX_PAGES)) == Min(|catalogue|, limit)
    ensures limit < 1000 ==> (|catalogue| <= limit && |catalogue| < Offset(Width(limit), MAX_PAGES) <==> |catalogue| <= limit)
  {
  }

  /** Against a fixed catalogue a read fails only on a page its reader refuses. */
  lemma OnlyRefusalsFail<R(!new), T>(catalogue: seq<R>, read: Reader<R, T>, one: R -> T, short: R -> bool, limit: nat,
      calls: seq<Exchange<R>>, r: Fetched<T>)
    requires Serves(catalogue, calls) && Faithful(read, one, short) && Answers(read, limit, calls, r) && r.items.None?
    ensures read(Bodies(calls[..|calls| - 1]), PageOf(catalogue, Width(limit), |calls|)).Rejected?
    ensures r.state.reason == ProviderResponse
  {
    hide PageOf, Map, AnyShort, AnyCut, Faithful, Gathered, Bodies;
    var last := |calls| - 1;
    assert Asked(limit, calls, last);
    PageSize(catalogue, Width(limit), last + 1);
    MapLength(one, PageOf(catalogue, Width(limit), last + 1));
    if PageAt(read, calls, last).Items? {
      OnePage(catalogue, read, one, short, limit, calls, last);
    }
  }
}
