/** Creation-ordered repository search (internal/product/discovery.go). */
module CreatedSearch {
  import opened Arrangements
  import opened ListReads
  import opened Sorting
  import opened Wrappers

  /** A search hit: its ID, its creation instant when the stamp is short and well formed, the shown data,
      whether a field was shortened, and whether the record can be read at all. */
  datatype Hit<D> = Hit(id: int, created: Option<int>, data: D, shortened: bool, readable: bool)
  datatype Candidate<D> = Candidate(data: D, id: int, created: int)

  const FETCH_LIMIT := 1000

  // ----- evidence

  /** Ordering evidence: every hit is readable with a usable ID and stamp, and no ID repeats. */
  predicate Evidence<D>(hits: seq<Hit<D>>) {
    && (forall i :: 0 <= i < |hits| ==> Usable(hits[i]))
    && (forall i, j :: 0 <= i < j < |hits| ==> hits[i].id != hits[j].id)
  }

  function Id<D>(h: Hit<D>): int {
    h.id
  }

  predicate Usable<D>(h: Hit<D>) {
    h.readable && h.id >= 1 && h.created.Some?
  }

  function One<D>(h: Hit<D>): Candidate<D> {
    Candidate(h.data, h.id, if h.created.Some? then h.created.value else 0)
  }

  function Shortened<D>(h: Hit<D>): bool {
    h.shortened
  }

  function Data<D>(c: Candidate<D>): D {
    c.data
  }

  function Pages<D>(bodies: seq<seq<Hit<D>>>): seq<Hit<D>> {
    if bodies == [] then [] else Pages(bodies[..|bodies| - 1]) + bodies[|bodies| - 1]
  }

  /** A page is accepted when it extends the evidence of the pages before it. */
  function ReadHits<D>(earlier: seq<seq<Hit<D>>>, page: seq<Hit<D>>): Normal<Candidate<D>> {
    if Evidence(Pages(earlier) + page) then Items(Map(One, page), AnyShort(Shortened, page)) else Rejected
  }

  function Ids<D>(hits: seq<Hit<D>>): (ids: set<int>)
    ensures forall i :: 0 <= i < |hits| ==> hits[i].id in ids
  {
    set i | 0 <= i < |hits| :: hits[i].id
  }

  lemma EvidenceStep<D>(hits: seq<Hit<D>>, h: Hit<D>)
    ensures Evidence(hits + [h]) <==> Evidence(hits) && Usable(h) && h.id !in Ids(hits)
    ensures Ids(hits + [h]) == Ids(hits) + {h.id}
  {
    var now := hits + [h];
    assert now[|hits|] == h && forall i :: 0 <= i < |hits| ==> now[i] == hits[i];
    if Evidence(now) {
      assert forall i, j :: 0 <= i < j < |hits| ==> now[i].id != now[j].id;
    }
  }

  lemma EvidencePrefix<D>(a: seq<Hit<D>>, b: seq<Hit<D>>)
    requires Evidence(a + b)
    ensures Evidence(a)
  {
    assert forall i :: 0 <= i < |a| ==> (a + b)[i] == a[i];
  }

  /** The loop of the reader: `seen` holds the IDs of the pages accepted before. */
  method AdmitPage<D>(seen: set<int>, page: seq<Hit<D>>, ghost earlier: seq<seq<Hit<D>>>) returns (r: Normal<Candidate<D>>, seen': set<int>)
    requires Evidence(Pages(earlier)) && seen == Ids(Pages(earlier))
    ensures r == ReadHits(earlier, page)
    ensures r.Items? ==> seen' == Ids(Pages(earlier + [page]))
  {
    hide Evidence, Ids, AnyShort, Map;
    seen' := seen;
    var out: seq<Candidate<D>> := [];
    var cut := AnyShort(Shortened, page);
    ghost var before := Pages(earlier);
    assert before + page[..0] == before;
    for i := 0 to |page|
      invariant Evidence(before + page[..i]) && seen' == Ids(before + page[..i])
      invariant out == Map(One, page[..i])
    {
      var h := page[i];
      EvidenceStep(before + page[..i], h);
      assert before + page[..i] + [h] == before + page[..i + 1];
      if !Usable(h) || h.id in seen' {
        assert before + page == before + page[..i + 1] + page[i + 1..];
        if Evidence(before + page) {
          EvidencePrefix(before + page[..i + 1], page[i + 1..]);
        }
        return Rejected, seen';
      }
      seen' := seen' + {h.id};
      MapSnoc(page[..i], h);
      assert page[..i] + [h] == page[..i + 1];
      out := out + [One(h)];
    }
    assert page[..|page|] == page && (earlier + [page])[..|earlier|] == earlier;
    r := Items(out, cut);
  }

  lemma MapSnoc<D>(s: seq<Hit<D>>, h: Hit<D>)
    ensures Map(One, s + [h]) == Map(One, s) + [One(h)]
  {
  }

  // ----- order

  predicate NewestFirst<D>(a: Candidate<D>, b: Candidate<D>) {
    a.created > b.created || (a.created == b.created && a.id >= b.id)
  }

  lemma NewestFirstOrders<D(!new)>()
    ensures TotalPreorder<Candidate<D>>(NewestFirst)
  {
  }

  /** The one arrangement of hits by creation and then ID, both descending. */
  function Newest<D>(hits: seq<Hit<D>>): seq<Candidate<D>> {
    Sort(Map(One, hits), NewestFirst)
  }

  /** sort.Slice: some arrangement in order; nothing else is known of it. */
  method SortSlice<D(!new)>(s: seq<Candidate<D>>) returns (t: seq<Candidate<D>>)
    ensures Sorted(t, NewestFirst) && multiset(t) == multiset(s) && |t| == |s|
  {
    NewestFirstOrders<D>();
    t := Sort(s, NewestFirst);
    SortSorts(s, NewestFirst);
  }

  lemma EvidenceSeparates<D>(hits: seq<Hit<D>>, s: seq<Candidate<D>>)
    requires Evidence(hits) && multiset(s) == multiset(Map(One, hits))
    ensures Separates(s, NewestFirst)
  {
    hide Evidence, Map;
    forall i, j | 0 <= i < |s| && 0 <= j < |s| && NewestFirst(s[i], s[j]) && NewestFirst(s[j], s[i]) ensures s[i] == s[j] {
      var a := SourceOf(hits, s, i);
      var b := SourceOf(hits, s, j);
      OneId(hits, a, b);
    }
  }

  lemma SourceOf<D>(hits: seq<Hit<D>>, s: seq<Candidate<D>>, i: nat) returns (a: nat)
    requires multiset(s) == multiset(Map(One, hits)) && i < |s|
    ensures a < |hits| && s[i] == One(hits[a])
  {
    assert s[i] in multiset(s);
    a := IndexOf(Map(One, hits), s[i]);
  }

  lemma OneId<D>(hits: seq<Hit<D>>, a: nat, b: nat)
    requires Evidence(hits) && a < |hits| && b < |hits| && hits[a].id == hits[b].id
    ensures a == b
  {
  }

  /** With evidence every sort gives the same arrangement. */
  lemma OneArrangement<D(!new)>(hits: seq<Hit<D>>, s: seq<Candidate<D>>)
    requires Evidence(hits) && Sorted(s, NewestFirst) && multiset(s) == multiset(Map(One, hits))
    ensures s == Newest(hits)
  {
    hide Evidence, Sorted, Separates, TotalPreorder, NewestFirst;
    NewestFirstOrders<D>();
    SortSorts(Map(One, hits), NewestFirst);
    EvidenceSeparates(hits, s);
    SortedUnique(s, Newest(hits), NewestFirst);
  }

  // ----- the search

  /** The hits of all pages of a run. */
  function Seen<D>(calls: seq<Exchange<Hit<D>>>): seq<Hit<D>> {
    Pages(Bodies(calls))
  }

  /** What is shown of a complete list with evidence, and nothing of any other. */
  function Shown<D>(hits: seq<Hit<D>>, limit: nat): seq<D> {
    Map(Data, Newest(hits)[..Min(|Newest(hits)|, limit)])
  }

  function ShownState<D>(hits: seq<Hit<D>>, limit: nat): ListState {
    var over := |hits| > limit;
    ListState(Min(|hits|, limit), !over, over || AnyShort(Shortened, hits),
              if over then DisplayLimit else if AnyShort(Shortened, hits) then FieldLimit else NoReason)
  }

  /** Created later, or at the same instant with a larger ID. */
  predicate Newer<D>(a: Hit<D>, b: Hit<D>) {
    && a.created.Some? && b.created.Some?
    && (a.created.value > b.created.value || (a.created.value == b.created.value && a.id > b.id))
  }

  /** The positions of the newest hits, newest first; every hit left out is older than each of them. */
  ghost predicate NewestAt<D>(hits: seq<Hit<D>>, places: seq<nat>) {
    && (forall k :: 0 <= k < |places| ==> places[k] < |hits|)
    && (forall j, k :: 0 <= j < k < |places| ==> Newer(hits[places[j]], hits[places[k]]))
    && (forall i, k :: 0 <= i < |hits| && i !in places && 0 <= k < |places| ==> Newer(hits[places[k]], hits[i]))
  }

  /** What a search owes for the hits it saw, from their instants and IDs alone: the newest `limit` of them, newest first. */
  ghost predicate ShowsNewest<D>(hits: seq<Hit<D>>, limit: nat, shown: seq<D>) {
    && |shown| == Min(|hits|, limit)
    && exists places: seq<nat> :: |places| == |shown| && NewestAt(hits, places)
        && forall k :: 0 <= k < |places| ==> shown[k] == hits[places[k]].data
  }

  /** What it says of them: complete unless some were left out, and truncated if some were or if a field was shortened. */
  ghost predicate SaysOf<D>(hits: seq<Hit<D>>, limit: nat, state: ListState) {
    var shortened := exists h :: h in hits && h.shortened;
    && state.count == Min(|hits|, limit)
    && (state.complete <==> |hits| <= limit)
    && (state.truncated <==> |hits| > limit || shortened)
    && (state.reason == DisplayLimit <==> |hits| > limit)
    && (state.reason == FieldLimit <==> |hits| <= limit && shortened)
    && (state.reason == NoReason <==> |hits| <= limit && !shortened)
  }

  function CandidateId<D>(c: Candidate<D>): int {
    c.id
  }

  /** The hit of each candidate in an arrangement. */
  lemma {:induction false} Sources<D>(hits: seq<Hit<D>>, s: seq<Candidate<D>>, n: nat) returns (places: seq<nat>)
    requires multiset(s) == multiset(Map(One, hits)) && n <= |s|
    ensures |places| == n && forall k :: 0 <= k < n ==> places[k] < |hits| && s[k] == One(hits[places[k]])
  {
    if n == 0 {
      places := [];
    } else {
      places := Sources(hits, s, n - 1);
      var a := SourceOf(hits, s, n - 1);
      places := places + [a];
    }
  }

  lemma NewerThan<D>(a: Hit<D>, b: Hit<D>)
    requires Usable(a) && Usable(b) && a.id != b.id && NewestFirst(One(a), One(b))
    ensures Newer(a, b)
  {
  }

  lemma ArrangedApart<D>(hits: seq<Hit<D>>, s: seq<Candidate<D>>)
    requires Evidence(hits) && multiset(s) == multiset(Map(One, hits))
    ensures KeysApart(CandidateId, s)
  {
    forall i, j | 0 <= i < j < |hits| ensures CandidateId(Map(One, hits)[i]) != CandidateId(Map(One, hits)[j]) {
      assert Map(One, hits)[i] == One(hits[i]) && Map(One, hits)[j] == One(hits[j]);
    }
    KeysApartKept(CandidateId, Map(One, hits), s);
  }

  /** A hit whose place is not among the first is a later candidate. */
  lemma LeftOut<D>(hits: seq<Hit<D>>, s: seq<Candidate<D>>, places: seq<nat>, i: nat) returns (m: nat)
    requires multiset(s) == multiset(Map(One, hits)) && |places| <= |s| && i < |hits| && i !in places && Evidence(hits)
    requires forall k :: 0 <= k < |places| ==> places[k] < |hits| && s[k] == One(hits[places[k]])
    ensures |places| <= m < |s| && s[m] == One(hits[i])
  {
    assert Map(One, hits)[i] == One(hits[i]);
    assert One(hits[i]) in multiset(Map(One, hits));
    m := IndexOf(s, One(hits[i]));
    if m < |places| {
      assert places[m] in places;
      OneId(hits, places[m], i);
    }
  }

  lemma ArrangementShows<D(!new)>(hits: seq<Hit<D>>, s: seq<Candidate<D>>, n: nat) returns (places: seq<nat>)
    requires Evidence(hits) && Sorted(s, NewestFirst) && multiset(s) == multiset(Map(One, hits)) && n <= |s|
    ensures |places| == n && NewestAt(hits, places) && forall k :: 0 <= k < n ==> places[k] < |hits| && s[k].data == hits[places[k]].data
  {
    hide Map, Newer, NewestFirst;
    places := Sources(hits, s, n);
    ArrangedApart(hits, s);
    forall j, k | 0 <= j < k < n ensures Newer(hits[places[j]], hits[places[k]]) {
      assert CandidateId(s[j]) != CandidateId(s[k]);
      NewerThan(hits[places[j]], hits[places[k]]);
    }
    forall i, k | 0 <= i < |hits| && i !in places && 0 <= k < n ensures Newer(hits[places[k]], hits[i]) {
      var m := LeftOut(hits, s, places, i);
      assert CandidateId(s[k]) != CandidateId(s[m]);
      NewerThan(hits[places[k]], hits[i]);
    }
  }

  lemma ArrangementIsShown<D>(hits: seq<Hit<D>>, limit: nat, s: seq<Candidate<D>>, places: seq<nat>)
    requires |s| == |hits| && |places| == Min(|hits|, limit) && NewestAt(hits, places)
    requires forall k :: 0 <= k < |places| ==> places[k] < |hits| && s[k].data == hits[places[k]].data
    ensures ShowsNewest(hits, limit, Map(Data, s[..Min(|s|, limit)]))
  {
    hide NewestAt;
    var shown := Map(Data, s[..|places|]);
    assert forall k :: 0 <= k < |places| ==> shown[k] == Data(s[k]);
  }

  lemma StateIsSaid<D>(hits: seq<Hit<D>>, limit: nat)
    ensures SaysOf(hits, limit, ShownState(hits, limit))
  {
    if h :| h in hits && h.shortened {
      var i :| 0 <= i < |hits| && hits[i] == h;
      assert Shortened(hits[i]);
    }
  }

  /** What is shown are the newest hits, and what is said of them is so. */
  lemma ShownIsNewest<D(!new)>(hits: seq<Hit<D>>, limit: nat)
    requires Evidence(hits)
    ensures ShowsNewest(hits, limit, Shown(hits, limit)) && SaysOf(hits, limit, ShownState(hits, limit))
  {
    hide Evidence, NewestAt, NewestFirst, TotalPreorder, Sorted, ShowsNewest, SaysOf, Map, Sort;
    NewestFirstOrders<D>();
    SortSorts(Map(One, hits), NewestFirst);
    var s := Newest(hits);
    MapLength(One, hits);
    var places := ArrangementShows(hits, s, Min(|hits|, limit));
    ArrangementIsShown(hits, limit, s, places);
    StateIsSaid(hits, limit);
  }

  method DataOf<D>(s: seq<Candidate<D>>) returns (out: seq<D>)
    ensures out == Map(Data, s)
  {
    out := [];
    for i := 0 to |s|
      invariant out == Map(Data, s[..i])
    {
      DataSnoc(s[..i], s[i]);
      assert s[..i] + [s[i]] == s[..i + 1];
      out := out + [s[i].data];
    }
    assert s[..|s|] == s;
  }

  method FetchCreatedRepoSearch<D(!new)>(provider: Provider<Hit<D>>, displayLimit: nat)
    returns (r: Fetched<D>, ghost calls: seq<Exchange<Hit<D>>>, ghost fetched: Fetched<Candidate<D>>)
    modifies provider`log
    ensures provider.log == old(provider.log) + calls
    ensures Answers(ReadHits, FETCH_LIMIT, calls, fetched)
    ensures provider.catalogue.Some? ==> Serves(provider.catalogue.value, calls)
    ensures r.items.Some? <==> fetched.items.Some? && fetched.state.complete
    ensures r.items.Some? ==> Evidence(Seen(calls)) && r.items.value == Shown(Seen(calls), displayLimit)
    ensures r.items.Some? ==> r.state == ShownState(Seen(calls), displayLimit)
    ensures r.items.Some? ==> ShowsNewest(Seen(calls), displayLimit, r.items.value) && SaysOf(Seen(calls), displayLimit, r.state)
    ensures provider.catalogue.Some? ==>
      (r.items.Some? <==> |provider.catalogue.value| < FETCH_LIMIT && Evidence(provider.catalogue.value))
    ensures provider.catalogue.Some? && r.items.Some? ==> Seen(calls) == provider.catalogue.value
    ensures r.items.None? ==> r.state == fetched.state.(count := Min(fetched.state.count, displayLimit))
  {
    hide Answers, Serves, Evidence, Sorted, NewestFirst, Newest, AnyShort, ShowsNewest, SaysOf;
    var candidates, log := FetchList(provider, FETCH_LIMIT, ReadHits);
    fetched, calls := candidates, log;
    if provider.catalogue.Some? {
      SearchesCatalogue(provider.catalogue.value, displayLimit, calls, fetched);
    }
    var state := candidates.state.(count := Min(candidates.state.count, displayLimit));
    if candidates.items.None? || !state.complete {
      return Fetched(None, state), calls, fetched;
    }
    CompleteReads(calls, fetched);
    var sorted := SortSlice(candidates.items.value);
    OneArrangement(Seen(calls), sorted);
    if |sorted| > displayLimit {
      sorted := sorted[..displayLimit];
      state := state.(complete := false, truncated := true, reason := DisplayLimit);
    }
    assert sorted == Newest(Seen(calls))[..Min(|Newest(Seen(calls))|, displayLimit)] by {
      assert sorted == sorted[..|sorted|];
    }
    var out := DataOf(sorted);
    state := state.(count := |out|);
    ShownIsNewest(Seen(calls), displayLimit);
    r := Fetched(Some(out), state);
  }

  lemma DataSnoc<D>(s: seq<Candidate<D>>, c: Candidate<D>)
    ensures Map(Data, s + [c]) == Map(Data, s) + [c.data]
  {
  }

  /** A complete read holds one candidate for each hit seen, all with evidence. */
  lemma CompleteReads<D(!new)>(calls: seq<Exchange<Hit<D>>>, fetched: Fetched<Candidate<D>>)
    requires Answers(ReadHits, FETCH_LIMIT, calls, fetched) && fetched.items.Some? && fetched.state.complete
    ensures Evidence(Seen(calls)) && fetched.items.value == Map(One, Seen(calls)) && |fetched.items.value| == |Seen(calls)|
    ensures fetched.state.truncated == AnyShort(Shortened, Seen(calls))
    ensures fetched.state.reason == if fetched.state.truncated then FieldLimit else NoReason
  {
    hide Evidence, Requests, GoodPage, Gathered, AnyCut, AnyShort, PageAt, ItemsAt, Bodies;
    AllAccepted(ReadHits, FETCH_LIMIT, calls);
    GatheredHits(calls, |calls|);
    assert calls[..|calls|] == calls;
    MapLength(One, Seen(calls));
    assert fetched.items.value == Gathered(ReadHits, calls, |calls|);
  }

  lemma {:induction false} GatheredHits<D(!new)>(calls: seq<Exchange<Hit<D>>>, n: nat)
    requires n <= |calls| && Accepted(ReadHits, calls, n)
    ensures Gathered(ReadHits, calls, n) == Map(One, Seen(calls[..n])) && Evidence(Seen(calls[..n]))
    ensures AnyCut(ReadHits, calls, n) == AnyShort(Shortened, Seen(calls[..n]))
  {
    hide Evidence, AnyCut, AnyShort, Map;
    if n == 0 {
      NothingSeen(calls);
    } else {
      GatheredHits(calls, n - 1);
      assert PageAt(ReadHits, calls, n - 1).Items?;
      SeenStep(calls, n - 1);
      CutGrows(ReadHits, calls, n - 1);
      MapAppends(One, Shortened, Seen(calls[..n - 1]), calls[n - 1].reply.records);
    }
  }

  lemma NothingSeen<D>(calls: seq<Exchange<Hit<D>>>)
    ensures Seen(calls[..0]) == [] && Evidence(Seen(calls[..0])) && Map(One, Seen(calls[..0])) == []
    ensures !AnyCut(ReadHits, calls, 0) && !AnyShort(Shortened, Seen(calls[..0]))
  {
  }

  lemma SeenStep<D>(calls: seq<Exchange<Hit<D>>>, n: nat)
    requires n < |calls| && calls[n].reply.Records?
    ensures Seen(calls[..n + 1]) == Seen(calls[..n]) + calls[n].reply.records
  {
    var b := Bodies(calls[..n]);
    assert calls[..n + 1][..n] == calls[..n] && calls[..n + 1][n] == calls[n];
    assert Bodies(calls[..n + 1]) == b + [calls[n].reply.records];
    assert (b + [calls[n].reply.records])[..|b|] == b;
  }

  // ----- a provider that holds a fixed catalogue

  lemma HitsAreFaithful<D(!new)>()
    ensures Faithful<Hit<D>, Candidate<D>>(ReadHits, One, Shortened)
  {
  }

  lemma ServedPage<D>(catalogue: seq<Hit<D>>, limit: nat, calls: seq<Exchange<Hit<D>>>, i: nat)
    requires Serves(catalogue, calls) && i < |calls| && Asked(limit, calls, i)
    ensures calls[i].reply.Records? && calls[i].reply.records == PageOf(catalogue, Width(limit), i + 1)
  {
  }

  lemma {:induction false} SeenIsPrefix<D>(catalogue: seq<Hit<D>>, limit: nat, calls: seq<Exchange<Hit<D>>>, n: nat)
    requires Serves(catalogue, calls) && n <= |calls| && forall i :: 0 <= i < |calls| ==> Asked(limit, calls, i)
    ensures Seen(calls[..n]) == catalogue[..Min(|catalogue|, Offset(Width(limit), n))]
  {
    hide PageOf, Offset, Width, Bodies;
    if n == 0 {
      assert calls[..0] == [];
      NothingSeen(calls);
      StartOffset(limit);
    } else {
      SeenIsPrefix(catalogue, limit, calls, n - 1);
      assert Asked(limit, calls, n - 1);
      ServedPage(catalogue, limit, calls, n - 1);
      SeenStep(calls, n - 1);
      NextPage(catalogue, Width(limit), n - 1);
    }
  }

  lemma StartOffset(limit: nat)
    ensures Offset(Width(limit), 0) == 0
  {
  }

  lemma EvidenceOfPart<D>(hits: seq<Hit<D>>, n: nat)
    requires Evidence(hits) && n <= |hits|
    ensures Evidence(hits[..n])
  {
  }

  /** The search answers exactly when the catalogue fits the bounds and carries evidence, and then shows its newest hits. */
  lemma SearchesCatalogue<D(!new)>(catalogue: seq<Hit<D>>, displayLimit: nat, calls: seq<Exchange<Hit<D>>>, fetched: Fetched<Candidate<D>>)
    requires Serves(catalogue, calls) && Answers(ReadHits, FETCH_LIMIT, calls, fetched)
    ensures fetched.items.Some? && fetched.state.complete <==> |catalogue| < FETCH_LIMIT && Evidence(catalogue)
    ensures fetched.items.Some? && fetched.state.complete ==> Seen(calls) == catalogue
  {
    hide Evidence, Serves, Answers, Offset, PageOf, Faithful, Requests, Bodies;
    HitsAreFaithful<D>();
    FetchWidth();
    if fetched.items.Some? {
      FixedCatalogue(catalogue, ReadHits, One, Shortened, FETCH_LIMIT, calls, fetched);
      if fetched.state.complete {
        CompleteReads(calls, fetched);
        WholeCatalogueSeen(catalogue, calls, fetched);
      }
    } else if Evidence(catalogue) {
      RefusedWithoutEvidence(catalogue, calls, fetched);
    }
  }

  lemma FetchWidth()
    ensures Width(FETCH_LIMIT) == 100 && Offset(Width(FETCH_LIMIT), MAX_PAGES) == FETCH_LIMIT
  {
  }

  lemma WholeCatalogueSeen<D(!new)>(catalogue: seq<Hit<D>>, calls: seq<Exchange<Hit<D>>>, fetched: Fetched<Candidate<D>>)
    requires Serves(catalogue, calls) && Answers(ReadHits, FETCH_LIMIT, calls, fetched) && fetched.items.Some? && fetched.state.complete
    ensures Seen(calls) == catalogue
  {
    hide Evidence, Serves, Offset, PageOf, Faithful, Bodies, Width, Map;
    HitsAreFaithful<D>();
    SeenIsPrefix(catalogue, FETCH_LIMIT, calls, |calls|);
    assert calls[..|calls|] == calls;
    CompleteReads(calls, fetched);
    FixedCatalogue(catalogue, ReadHits, One, Shortened, FETCH_LIMIT, calls, fetched);
    MapLength(One, catalogue[..Min(Min(|catalogue|, FETCH_LIMIT), Offset(Width(FETCH_LIMIT), MAX_PAGES))]);
    assert |Seen(calls)| == |catalogue|;
    assert catalogue[..|catalogue|] == catalogue;
  }

  lemma RefusedWithoutEvidence<D(!new)>(catalogue: seq<Hit<D>>, calls: seq<Exchange<Hit<D>>>, fetched: Fetched<Candidate<D>>)
    requires Serves(catalogue, calls) && Answers(ReadHits, FETCH_LIMIT, calls, fetched) && fetched.items.None?
    ensures !Evidence(catalogue)
  {
    hide Evidence, Serves, Offset, PageOf, Faithful, Bodies, Width, Map;
    HitsAreFaithful<D>();
    var last := |calls| - 1;
    OnlyRefusalsFail(catalogue, ReadHits, One, Shortened, FETCH_LIMIT, calls, fetched);
    SeenIsPrefix(catalogue, FETCH_LIMIT, calls, last);
    NextPage(catalogue, Width(FETCH_LIMIT), last);
    if Evidence(catalogue) {
      EvidenceOfPart(catalogue, Min(|catalogue|, Offset(Width(FETCH_LIMIT), last + 1)));
    }
  }

  // ----- the order in which a provider serves its hits does not matter

  lemma TakenOut<D>(s: seq<Hit<D>>, i: nat)
    requires i < |s|
    ensures multiset(Map(One, s)) == multiset(Map(One, Without(s, i))) + multiset{One(s[i])}
    ensures AnyShort(Shortened, s) <==> AnyShort(Shortened, Without(s, i)) || s[i].shortened
  {
    hide Map, AnyShort;
    SplitAround(s, i);
    ThreeParts(s[..i], [s[i]], s[i + 1..]);
    OneHit(s[i]);
  }

  lemma SplitAround<T>(s: seq<T>, i: nat)
    requires i < |s|
    ensures s == s[..i] + ([s[i]] + s[i + 1..]) && Without(s, i) == s[..i] + s[i + 1..]
  {
  }

  lemma ThreeParts<D>(x: seq<Hit<D>>, y: seq<Hit<D>>, z: seq<Hit<D>>)
    ensures multiset(Map(One, x + (y + z))) == multiset(Map(One, x + z)) + multiset(Map(One, y))
    ensures AnyShort(Shortened, x + (y + z)) <==> AnyShort(Shortened, x + z) || AnyShort(Shortened, y)
  {
    hide Map, AnyShort;
    MapAppends(One, Shortened, x, y + z);
    MapAppends(One, Shortened, y, z);
    MapAppends(One, Shortened, x, z);
  }

  lemma OneHit<D>(h: Hit<D>)
    ensures Map(One, [h]) == [One(h)] && AnyShort(Shortened, [h]) == h.shortened
  {
    assert Shortened([h][0]) == h.shortened;
  }

  lemma {:induction false} MapKeepsMultiset<D>(a: seq<Hit<D>>, b: seq<Hit<D>>)
    requires multiset(a) == multiset(b)
    ensures multiset(Map(One, a)) == multiset(Map(One, b))
    ensures AnyShort(Shortened, a) == AnyShort(Shortened, b)
    decreases |a|
  {
    hide Map, AnyShort, Without;
    assert |multiset(a)| == |a| && |multiset(b)| == |b|;
    if a == [] {
      assert b == [];
    } else {
      assert a[0] in multiset(a);
      var i := IndexOf(b, a[0]);
      WithoutOne(a, 0);
      WithoutOne(b, i);
      MapKeepsMultiset(Without(a, 0), Without(b, i));
      TakenOut(a, 0);
      TakenOut(b, i);
    }
  }

  lemma EvidenceKept<D>(a: seq<Hit<D>>, b: seq<Hit<D>>)
    requires Evidence(a) && multiset(a) == multiset(b)
    ensures Evidence(b)
  {
    forall i | 0 <= i < |b| ensures Usable(b[i]) {
      assert b[i] in multiset(b);
      var k := IndexOf(a, b[i]);
    }
    KeysApartKept(Id, a, b);
    assert forall i, j :: 0 <= i < j < |b| ==> Id(b[i]) != Id(b[j]);
  }

  /** Two providers whose catalogues are rearrangements of each other lead to the same answer: the same hits in the same
      order with the same state, or no hits from either. */
  lemma ProviderOrderIsIrrelevant<D(!new)>(a: seq<Hit<D>>, b: seq<Hit<D>>, displayLimit: nat)
    requires multiset(a) == multiset(b)
    ensures |a| == |b| && (Evidence(a) <==> Evidence(b))
    ensures Evidence(a) ==> Shown(a, displayLimit) == Shown(b, displayLimit) && ShownState(a, displayLimit) == ShownState(b, displayLimit)
  {
    hide Evidence, AnyShort, NewestFirst, TotalPreorder, Sorted;
    assert |multiset(a)| == |a| && |multiset(b)| == |b|;
    if Evidence(b) {
      EvidenceKept(b, a);
    }
    if Evidence(a) {
      EvidenceKept(a, b);
      MapKeepsMultiset(a, b);
      NewestFirstOrders<D>();
      SortSorts(Map(One, a), NewestFirst);
      OneArrangement(b, Newest(a));
    }
  }
}
