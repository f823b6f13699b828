/** The guarded merge: one write, only after a complete green reading (internal/product/commands_merge.go). */
module Merge {
  import opened ObjectIds
  import opened Rejections
  import opened Wrappers

  const PAGE_BYTES := 2 * 1024 * 1024
  const OPERATION_BYTES := 8 * 1024 * 1024
  const PAGE_SIZE := 100
  const MAX_PAGES := 10
  const MAX_CHECKS := 1000
  const MAX_TEXT := 1024

  // ----- what the provider says

  datatype Project = Project(id: int, path: string, url: string, pipelinesRequired: bool, discussionsRequired: bool)
  datatype Pipeline = Pipeline(id: int, sha: string, status: string, url: string)
  datatype Check = Check(id: int, name: string, stage: string, pipeline: Option<Pipeline>, url: string, status: string,
                         allowFailure: bool, downstream: Option<Pipeline>)

  /** `mergeable` is the normalised merge status; an instant is None when missing or zero. */
  datatype MR = MR(id: int, iid: int, sourceProject: int, targetProject: int, url: string, sha: string,
                   source: string, target: string, state: string, draft: bool, conflicts: bool, mergeable: bool,
                   resolved: bool, autoMerge: bool, removeSource: bool, pipeline: Option<Pipeline>, squash: bool,
                   mergedAt: Option<int>, mergeUser: Option<string>, mergedBy: Option<string>, squashSha: string, mergeSha: string)

  /** An error with its HTTP status, or a body with its size and what it decodes to. */
  datatype Reply<T> = Failed(status: nat) | Body(size: nat, value: Option<T>)

  datatype Kind = Job | Bridge
  datatype Input = Input(sha: string, squash: bool, removeSource: bool, autoMerge: bool)

  datatype Event =
    | SawProject(project: Reply<Project>)
    | SawMR(iid: int, record: Reply<MR>)
    | SawChecks(kind: Kind, pipelineId: int, page: nat, checks: Reply<seq<Check>>)
    | SentMerge(iid: int, input: Input, answer: Reply<MR>)

  // ----- what the caller expects

  /** The selected project and its canonical URLs; which branch names and texts are valid. */
  datatype Site = Site(path: string, projectUrl: string, mrUrl: int -> string, decimal: int -> string,
                       branch: string -> bool, text: string -> bool)
  datatype Expected = Expected(url: string, head: string, source: string, target: string)
  datatype Snapshot = Snapshot(pipelineId: int, sha: string, checks: nat)

  predicate ProjectFits(site: Site, p: Project) {
    && p.id >= 1 && p.path == site.path && p.url == site.projectUrl
    && p.pipelinesRequired && p.discussionsRequired
  }

  predicate Identity(site: Site, r: MR, projectId: int, iid: int, e: Expected) {
    && r.id >= 1 && r.iid == iid && r.sourceProject == projectId && r.targetProject == projectId
    && r.url == e.url && r.url == site.mrUrl(iid)
    && r.sha == e.head && Oid(r.sha)
    && site.branch(r.source) && site.branch(r.target) && r.source != r.target
    && r.source == e.source && r.target == e.target
    && (r.state == "opened" || r.state == "merged")
  }

  predicate OpenFor(r: MR, head: string) {
    && r.state == "opened" && r.sha == head && !r.draft && !r.conflicts && r.mergeable
    && r.resolved && !r.autoMerge && !r.removeSource
  }

  /** An exact successful pipeline of the head. */
  predicate HeadPipeline(site: Site, p: Option<Pipeline>, head: string) {
    && p.Some? && p.value.id >= 1 && p.value.sha == head && p.value.status == "success"
    && p.value.url == site.projectUrl + "/-/pipelines/" + site.decimal(p.value.id)
  }

  predicate SamePipeline(site: Site, p: Option<Pipeline>, s: Snapshot) {
    HeadPipeline(site, p, s.sha) && p.value.id == s.pipelineId
  }

  predicate ValidText(site: Site, text: string, required: bool) {
    (required ==> text != "") && |text| <= MAX_TEXT && site.text(text)
  }

  predicate GreenStatus(status: string, allowFailure: bool) {
    status == "success" || status == "skipped" || ((status == "failed" || status == "manual") && allowFailure)
  }

  predicate Green(site: Site, c: Check, s: Snapshot) {
    && c.id >= 1 && ValidText(site, c.name, true) && ValidText(site, c.stage, false)
    && c.pipeline.Some? && c.pipeline.value.id == s.pipelineId && c.pipeline.value.sha == s.sha && c.pipeline.value.status == "success"
    && c.url == site.projectUrl + "/-/jobs/" + site.decimal(c.id)
    && GreenStatus(c.status, c.allowFailure)
    && (c.downstream.Some? ==>
          var d := c.downstream.value; d.id >= 1 && Oid(d.sha) && GreenStatus(d.status, c.allowFailure))
  }

  predicate ValidActor(site: Site, primary: Option<string>, legacy: Option<string>) {
    && ((primary.Some? && ValidText(site, primary.value, true)) || (legacy.Some? && ValidText(site, legacy.value, true)))
    && (primary.Some? && legacy.Some? ==> primary.value == legacy.value)
  }

  /** Merged by an immediate squash of the expected head, with attribution and a commit. */
  predicate Squashed(site: Site, r: MR, projectId: int, iid: int, e: Expected) {
    && Identity(site, r, projectId, iid, e)
    && r.state == "merged" && !r.draft && !r.conflicts && r.squash && r.resolved
    && r.mergedAt.Some? && ValidActor(site, r.mergeUser, r.mergedBy)
    && Oid(r.squashSha) && (r.mergeSha != "" ==> Oid(r.mergeSha))
    && !r.autoMerge && !r.removeSource
  }

  predicate Postcondition(site: Site, r: MR, projectId: int, iid: int, e: Expected, s: Snapshot) {
    Squashed(site, r, projectId, iid, e) && SamePipeline(site, r.pipeline, s)
  }

  /** HTTP statuses that say the request was refused. */
  predicate Recognised(status: nat) {
    status == 405 || status == 406 || HttpRejection(status)
  }

  // ----- budgets

  /** What a reply costs; one over the page limit is not counted. */
  function Cost<T>(r: Reply<T>): nat {
    if r.Body? && r.size <= PAGE_BYTES then r.size else 0
  }

  function EventCost(e: Event): nat {
    match e
    case SawProject(r) => Cost(r)
    case SawMR(_, r) => Cost(r)
    case SawChecks(_, _, _, r) => Cost(r)
    case SentMerge(_, _, r) => Cost(r)
  }

  function Spent(log: seq<Event>): nat {
    if log == [] then 0 else Spent(log[..|log| - 1]) + EventCost(log[|log| - 1])
  }

  lemma SpentSnoc(log: seq<Event>, e: Event)
    ensures Spent(log + [e]) == Spent(log) + EventCost(e)
  {
    assert (log + [e])[..|log|] == log;
  }

  /** A reply that stays within the page and operation limits and decodes. */
  function Usable<T>(r: Reply<T>, spent: nat): Option<T> {
    if r.Body? && r.size <= PAGE_BYTES && spent + r.size <= OPERATION_BYTES then r.value else None
  }

  // ----- check catalogues

  function Listed(e: Event): seq<Check> {
    if e.SawChecks? && e.checks.Body? && e.checks.value.Some? then e.checks.value.value else []
  }

  function Checks(events: seq<Event>): seq<Check> {
    if events == [] then [] else Checks(events[..|events| - 1]) + Listed(events[|events| - 1])
  }

  lemma ChecksSnoc(events: seq<Event>, e: Event)
    ensures Checks(events + [e]) == Checks(events) + Listed(e)
  {
    assert (events + [e])[..|events|] == events;
  }

  ghost predicate PageEvent(e: Event, kind: Kind, pipelineId: int, page: nat) {
    e.SawChecks? && e.kind == kind && e.pipelineId == pipelineId && e.page == page && e.checks.Body? && e.checks.value.Some?
  }

  ghost predicate FullPages(events: seq<Event>, kind: Kind, pipelineId: int) {
    forall i :: 0 <= i < |events| ==> PageEvent(events[i], kind, pipelineId, i + 1) && |Listed(events[i])| == PAGE_SIZE
  }

  /** Every page of a list, to its short last page. */
  ghost predicate Catalogue(events: seq<Event>, kind: Kind, pipelineId: int) {
    && 0 < |events| <= MAX_PAGES && FullPages(events[..|events| - 1], kind, pipelineId)
    && PageEvent(events[|events| - 1], kind, pipelineId, |events|) && |Listed(events[|events| - 1])| < PAGE_SIZE
  }

  ghost predicate AllGreen(site: Site, checks: seq<Check>, s: Snapshot) {
    forall i :: 0 <= i < |checks| ==> Green(site, checks[i], s)
  }

  ghost predicate DistinctIds(checks: seq<Check>) {
    forall i, j :: 0 <= i < j < |checks| ==> checks[i].id != checks[j].id
  }

  function Ids(checks: seq<Check>): (ids: set<int>)
    ensures forall i :: 0 <= i < |checks| ==> checks[i].id in ids
  {
    set i | 0 <= i < |checks| :: checks[i].id
  }

  lemma ChecksGrow(site: Site, checks: seq<Check>, c: Check, s: Snapshot)
    ensures AllGreen(site, checks + [c], s) <==> AllGreen(site, checks, s) && Green(site, c, s)
    ensures DistinctIds(checks + [c]) <==> DistinctIds(checks) && c.id !in Ids(checks)
    ensures Ids(checks + [c]) == Ids(checks) + {c.id}
  {
    hide Green;
    var now := checks + [c];
    assert now[|checks|] == c && forall i :: 0 <= i < |checks| ==> now[i] == checks[i];
    if DistinctIds(now) {
      assert forall i, j :: 0 <= i < j < |checks| ==> now[i].id != now[j].id;
    }
  }

  // ----- the client

  /** A run's requests, its byte budget, and how many of its writes took effect. */
  class Session {
    ghost var log: seq<Event>
    ghost var commits: nat
    var bytes: nat

    ghost predicate Valid()
      reads this
    {
      bytes == Spent(log)
    }

    constructor ()
      ensures Valid() && log == [] && commits == 0
    {
      log, commits, bytes := [], 0, 0;
    }

    /** Charges a reply that arrived; a page over the limit is refused uncounted. */
    method Charge(size: nat) returns (ok: bool)
      modifies this`bytes
      ensures ok <==> size <= PAGE_BYTES && old(bytes) + size <= OPERATION_BYTES
      ensures bytes == old(bytes) + if size <= PAGE_BYTES then size else 0
    {
      if size > PAGE_BYTES {
        return false;
      }
      bytes := bytes + size;
      return bytes <= OPERATION_BYTES;
    }

    method AskProject() returns (r: Reply<Project>)
      modifies this`log
      ensures log == old(log) + [SawProject(r)]
    {
      r := *;
      log := log + [SawProject(r)];
    }

    method AskMR(iid: int) returns (r: Reply<MR>)
      modifies this`log
      ensures log == old(log) + [SawMR(iid, r)]
    {
      r := *;
      log := log + [SawMR(iid, r)];
    }

    method AskChecks(kind: Kind, pipelineId: int, page: nat) returns (r: Reply<seq<Check>>)
      modifies this`log
      ensures log == old(log) + [SawChecks(kind, pipelineId, page, r)]
    {
      r := *;
      log := log + [SawChecks(kind, pipelineId, page, r)];
    }

    /** The provider may lose the answer to a merge it made, but does not make one it refuses with a recognised status. */
    method SendMerge(iid: int, input: Input) returns (r: Reply<MR>)
      modifies this`log, this`commits
      ensures log == old(log) + [SentMerge(iid, input, r)]
      ensures r.Failed? && Recognised(r.status) ==> commits == old(commits)
    {
      r := *;
      log := log + [SentMerge(iid, input, r)];
      var takesEffect: bool := *;
      if takesEffect && !(r.Failed? && Recognised(r.status)) {
        commits := commits + 1;
      }
    }

    method LoadProject(site: Site) returns (r: Option<Project>, ghost reply: Reply<Project>)
      requires Valid()
      modifies this`log, this`bytes
      ensures Valid() && log == old(log) + [SawProject(reply)] && bytes == old(bytes) + Cost(reply)
      ensures r == if Usable(reply, old(bytes)).Some? && ProjectFits(site, Usable(reply, old(bytes)).value) then Usable(reply, old(bytes)) else None
    {
      var got := AskProject();
      reply := got;
      SpentSnoc(old(log), SawProject(got));
      if got.Failed? {
        return None, reply;
      }
      var ok := Charge(got.size);
      if !ok || got.value.None? || !ProjectFits(site, got.value.value) {
        return None, reply;
      }
      return got.value, reply;
    }

    method LoadMR(iid: int) returns (r: Option<MR>, ghost reply: Reply<MR>)
      requires Valid()
      modifies this`log, this`bytes
      ensures Valid() && log == old(log) + [SawMR(iid, reply)] && bytes == old(bytes) + Cost(reply)
      ensures r == Usable(reply, old(bytes)) && (r.Some? ==> bytes <= OPERATION_BYTES)
    {
      var got := AskMR(iid);
      reply := got;
      SpentSnoc(old(log), SawMR(iid, got));
      if got.Failed? {
        return None, reply;
      }
      var ok := Charge(got.size);
      return if ok then got.value else None, reply;
    }

    /** One page: no repeated check, all green, within the count. */
    method AdmitPage(site: Site, s: Snapshot, items: seq<Check>, seen: set<int>, count: nat, ghost before: seq<Check>)
      returns (ok: bool, seen': set<int>, count': nat)
      requires seen == Ids(before) && DistinctIds(before) && AllGreen(site, before, s) && count <= MAX_CHECKS
      ensures ok <==> AllGreen(site, before + items, s) && DistinctIds(before + items) && count + |items| <= MAX_CHECKS
      ensures ok ==> seen' == Ids(before + items) && count' == count + |items|
    {
      hide AllGreen, DistinctIds, Ids, Green;
      seen', count' := seen, count;
      assert before + items[..0] == before;
      for i := 0 to |items|
        invariant seen' == Ids(before + items[..i]) && count' == count + i <= MAX_CHECKS
        invariant DistinctIds(before + items[..i]) && AllGreen(site, before + items[..i], s)
      {
        assert before + items[..i] + [items[i]] == before + items[..i + 1];
        ChecksGrow(site, before + items[..i], items[i], s);
        PartOfPage(site, before, items, i + 1, s);
        if items[i].id in seen' || !Green(site, items[i], s) {
          return false, seen', count';
        }
        seen' := seen' + {items[i].id};
        count' := count' + 1;
        if count' > MAX_CHECKS {
          return false, seen', count';
        }
      }
      assert items[..|items|] == items;
      ok := true;
    }

    /** The pages of one list, until a short one. */
    method LoadChecks(site: Site, kind: Kind, s: Snapshot, count: nat) returns (ok: bool, count': nat, ghost events: seq<Event>)
      requires Valid() && count <= MAX_CHECKS
      modifies this`log, this`bytes
      ensures Valid() && log == old(log) + events && NoWrite(events) && bytes == old(bytes) + Spent(events)
      ensures ok ==> Catalogue(events, kind, s.pipelineId) && AllGreen(site, Checks(events), s) && DistinctIds(Checks(events))
      ensures ok ==> count' == count + |Checks(events)| <= MAX_CHECKS && bytes <= OPERATION_BYTES
      ensures ok <==> !Spoilt(site, kind, s, count, old(bytes), events)
    {
      hide AllGreen, DistinctIds, Ids, Green, Checks, Spoilt, FullPages, Spent, Catalogue, NoWrite;
      events, count' := [], count;
      var seen: set<int> := {};
      NoChecks(site, kind, s);
      NothingWritten();
      for page := 1 to MAX_PAGES + 1
        invariant Valid() && log == old(log) + events && NoWrite(events) && |events| == page - 1
        invariant FullPages(events, kind, s.pipelineId) && AllGreen(site, Checks(events), s) && DistinctIds(Checks(events))
        invariant seen == Ids(Checks(events)) && count' == count + |Checks(events)| <= MAX_CHECKS
        invariant bytes == old(bytes) + Spent(events)
      {
        var got := AskChecks(kind, s.pipelineId, page);
        ghost var before, e := events, SawChecks(kind, s.pipelineId, page, got);
        events := events + [e];
        SpentSnoc(old(log) + before, e);
        assert old(log) + before + [e] == old(log) + events;
        SpentSnoc(before, e);
        ChecksSnoc(before, e);
        NoWriteGrows(before, e);
        FullPagesGrow(before, kind, s.pipelineId, e);
        if got.Failed? {
          SpoiltBy(site, kind, s, count, old(bytes), before, e);
          return false, count', events;
        }
        var fits := Charge(got.size);
        if !fits || got.value.None? || |got.value.value| > PAGE_SIZE {
          SpoiltBy(site, kind, s, count, old(bytes), before, e);
          return false, count', events;
        }
        var admitted, seen', more := AdmitPage(site, s, got.value.value, seen, count', Checks(before));
        if !admitted {
          SpoiltBy(site, kind, s, count, old(bytes), before, e);
          return false, count', events;
        }
        seen, count' := seen', more;
        if |got.value.value| < PAGE_SIZE {
          CatalogueEnds(before, kind, s.pipelineId, e);
          Unspoilt(site, kind, s, count, old(bytes), before, e);
          return true, count', events;
        }
      }
      SpoiltByLength(site, kind, s, count, old(bytes), events);
      ok := false;
    }

    /** All jobs and bridges of the head pipeline. */
    method LoadMergeSnapshot(site: Site, record: MR, head: string)
      returns (r: Option<Snapshot>, ghost jobs: seq<Event>, ghost bridges: seq<Event>)
      requires Valid()
      modifies this`log, this`bytes
      ensures Valid() && log == old(log) + jobs + bridges && NoWrite(jobs) && NoWrite(bridges)
      ensures bytes == old(bytes) + Spent(jobs) + Spent(bridges)
      ensures r.Some? ==> Snapshotted(site, record, head, r.value, jobs, bridges) && bytes <= OPERATION_BYTES
      ensures r.None? <==> Unfit(site, record, head, old(bytes), jobs, bridges)
    {
      hide AllGreen, DistinctIds, Catalogue, Checks, Spoilt, HeadPipeline, Spent, NoWrite, Green;
      jobs, bridges := [], [];
      NothingWritten();
      if !HeadPipeline(site, record.pipeline, head) {
        return None, jobs, bridges;
      }
      PipelineExists(site, record.pipeline, head);
      var s := Snapshot(record.pipeline.value.id, head, 0);
      var ok, count, events := LoadChecks(site, Job, s, 0);
      jobs := events;
      if !ok {
        return None, jobs, bridges;
      }
      SpentAppend(old(log), jobs);
      var okBridges, total, more := LoadChecks(site, Bridge, s, count);
      bridges := more;
      GreenAnyCount(site, Checks(jobs), s, total);
      GreenAnyCount(site, Checks(bridges), s, total);
      if !okBridges {
        return None, jobs, bridges;
      }
      r := Some(s.(checks := total));
    }

    /** The project and the first reading of the request. */
    method ReadFirst(site: Site, iid: int, e: Expected) returns (r: Option<(Project, MR)>, ghost b: Reads)
      requires Valid()
      modifies this`log, this`bytes
      ensures Valid() && log == old(log) + Opening(iid, b) && bytes == old(bytes) + OptCost(b.project) + OptCost(b.first)
      ensures b.project.Some? && b.jobs == [] && b.bridges == [] && b.second.None?
      ensures r.None? <==> StartDeficient(site, iid, e, old(bytes), b)
      ensures r.Some? ==> b.first.Some? && ProjectSeen(b, old(bytes)) == Some(r.value.0) && FirstSeen(b, old(bytes)) == Some(r.value.1)
    {
      hide Spent, ProjectFits, Identity, OpenFor, Squashed, Usable;
      var project, projectReply := LoadProject(site);
      b := Reads(Some(projectReply), None, [], [], None);
      if project.None? {
        return None, b;
      }
      var first, firstReply := LoadMR(iid);
      b := b.(first := Some(firstReply));
      assert old(log) + [SawProject(projectReply)] + [SawMR(iid, firstReply)] == old(log) + Opening(iid, b);
      if first.None? || !Identity(site, first.value, project.value.id, iid, e) {
        return None, b;
      }
      if first.value.state == "merged" {
        if !Squashed(site, first.value, project.value.id, iid, e) {
          return None, b;
        }
      } else if !OpenFor(first.value, e.head) {
        return None, b;
      }
      return Some((project.value, first.value)), b;
    }

    /** The last reading before a write: the request is merged, or still open with the pipeline that was looked at. */
    method ReadSecond(site: Site, iid: int, e: Expected, projectId: int, s: Snapshot)
      returns (ok: bool, record: Option<MR>, ghost reply: Reply<MR>)
      requires Valid()
      modifies this`log, this`bytes
      ensures Valid() && log == old(log) + [SawMR(iid, reply)] && bytes == old(bytes) + Cost(reply)
      ensures record == Usable(reply, old(bytes))
      ensures ok <==> !SecondDeficient(site, iid, e, projectId, s.pipelineId, s.sha, record)
      ensures ok ==> record.Some? && bytes <= OPERATION_BYTES
      ensures ok && record.value.state == "merged" ==> Postcondition(site, record.value, projectId, iid, e, s)
      ensures ok && record.value.state != "merged" ==> OpenRecord(site, iid, e, projectId, reply) && SamePipeline(site, record.value.pipeline, s)
    {
      hide Spent, Identity, OpenFor, Squashed, SamePipeline;
      var second, secondReply := LoadMR(iid);
      record, reply := second, secondReply;
      if second.None? || !Identity(site, second.value, projectId, iid, e) {
        return false, record, reply;
      }
      SamePipelineAnyCount(site, second.value.pipeline, s);
      if second.value.state == "merged" {
        return Postcondition(site, second.value, projectId, iid, e, s), record, reply;
      }
      return OpenFor(second.value, e.head) && SamePipeline(site, second.value.pipeline, s), record, reply;
    }

    /** Everything before the write. It stops exactly for something it read, because the request body cannot be prepared, or
        because it was canceled before it could write. */
    method Preflight(site: Site, iid: int, e: Expected, fileFails: bool, canceled: bool) returns (r: Readiness, ghost b: Reads)
      requires Valid()
      modifies this`log, this`bytes
      ensures Valid() && log == old(log) + Opening(iid, b) && NoWrite(Opening(iid, b))
      ensures r.Stop? <==> Stops(site, iid, e, old(bytes), b, fileFails, canceled)
      ensures r.Already? ==> MergedBefore(site, iid, e, old(bytes), b, r.project, r.record, r.snapshot)
      ensures r.Go? ==> Ready(site, iid, e, b, r.project, r.snapshot) && bytes == old(bytes) + Spent(Opening(iid, b)) <= OPERATION_BYTES
    {
      hide *;
      var begun, start := ReadFirst(site, iid, e);
      b := start;
      if begun.None? {
        StartOnly(site, iid, e, old(bytes), b, fileFails, canceled);
        return Stop, b;
      }
      var project, first := begun.value.0, begun.value.1;
      var snapshot, jobs, bridges := LoadMergeSnapshot(site, first, e.head);
      b := b.(jobs := jobs, bridges := bridges);
      OpeningGrows(iid, old(log), start, b);
      if snapshot.None? {
        UnfitStops(site, iid, e, old(bytes), start, b, fileFails, canceled);
        return Stop, b;
      }
      FitGoesOn(site, iid, e, old(bytes), start, b, project, first, snapshot.value, fileFails, canceled);
      if first.state == "merged" {
        if !Postcondition(site, first, project.id, iid, e, snapshot.value) {
          return Stop, b;
        }
        return Already(project, first, snapshot.value), b;
      }
      if fileFails {
        return Stop, b;
      }
      ghost var surveyed := b;
      var ok, second, secondReply := ReadSecond(site, iid, e, project.id, snapshot.value);
      b := b.(second := Some(secondReply));
      OpeningEnds(iid, old(log), surveyed, b);
      Decides(site, iid, e, old(bytes), surveyed, b, project, first, snapshot.value, fileFails, canceled);
      if !ok {
        return Stop, b;
      }
      if second.value.state == "merged" {
        return Already(project, second.value, snapshot.value), b;
      }
      if canceled {
        return Stop, b;
      }
      return Go(project, snapshot.value), b;
    }

    /** The reading after a write that did not prove itself; none is made once the caller's context is done. */
    method Reconcile(site: Site, projectId: int, iid: int, e: Expected, s: Snapshot, status: Option<nat>, lost: bool)
      returns (outcome: Outcome, ghost after: Option<Reply<MR>>)
      requires Valid()
      modifies this`log, this`bytes
      ensures after.None? <==> lost
      ensures Valid() && log == old(log) + (if after.Some? then [SawMR(iid, after.value)] else [])
      ensures var reading := if after.None? then None else Usable(after.value, old(bytes));
        outcome == Reconciled(site, projectId, iid, e, s, status, reading)
      ensures ReadingSettles(site, projectId, iid, e, s, old(bytes), status, after, outcome)
    {
      hide Identity, Squashed, SamePipeline, Usable, Recognised, ReadingSettles;
      ReconciledSettles(site, projectId, iid, e, s, bytes, status, None);
      after := None;
      if lost {
        return Ambiguous, after;
      }
      var record, reply := LoadMR(iid);
      after := Some(reply);
      ReconciledSettles(site, projectId, iid, e, s, old(bytes), status, after);
      if record.None? || !Identity(site, record.value, projectId, iid, e) {
        IdentityNeeded(site, record, projectId, iid, e, s);
        return Ambiguous, after;
      }
      if record.value.state == "merged" {
        if !Postcondition(site, record.value, projectId, iid, e, s) {
          return Ambiguous, after;
        }
        return Success(ReconciledMerge, record.value, s), after;
      }
      OnlyMerged(site, record, projectId, iid, e, s);
      if record.value.state == "opened" && status.Some? && Recognised(status.value) {
        return Rejected(status.value), after;
      }
      return Ambiguous, after;
    }

    /** mr merge: at most one write, and a report that follows from what was read. It refuses exactly for something it read, an
        unprepared request body or a cancelation before the write, and reads the request again after a write exactly when the
        answer did not prove itself and the caller's context is not done. */
    method ExecuteMerge(site: Site, iid: int, e: Expected, fileFails: bool, canceled: bool, lost: bool)
      returns (outcome: Outcome, ghost run: Option<Run>, ghost basis: Reads)
      requires Valid()
      modifies this
      ensures Valid()
      ensures outcome.Refused? <==> Stops(site, iid, e, Spent(old(log)), basis, fileFails, canceled)
      ensures run.None? ==> log == old(log) + Opening(iid, basis) && NoWrite(Opening(iid, basis)) && commits == old(commits)
      ensures run.None? ==> outcome.Refused? || AlreadyShown(site, iid, e, Spent(old(log)), basis, outcome)
      ensures run.Some? ==> run.value.basis == basis && log == old(log) + Trace(iid, run.value)
      ensures run.Some? ==> Guarded(site, iid, e, Spent(old(log)), run.value)
      ensures run.Some? ==> outcome == Report(site, iid, e, Spent(old(log)), run.value)
      ensures run.Some? ==> Settles(site, iid, e, Spent(old(log)) + Spent(Opening(iid, basis)), run.value, outcome)
      ensures run.Some? ==> (run.value.after.None? <==> lost || (outcome.Success? && outcome.action == JustMerged))
      ensures outcome.Rejected? ==> commits == old(commits)
    {
      hide Ready, Postcondition, NoWrite, Spent, Reconciled, Opening, Stops, MergedBefore, Settles, ReadingSettles;
      var ready, seen := Preflight(site, iid, e, fileFails, canceled);
      basis, run := seen, None;
      if ready.Stop? {
        return Refused, run, basis;
      }
      if ready.Already? {
        return Success(AlreadyMerged, ready.record, ready.snapshot), run, basis;
      }
      SpentAppend(old(log), Opening(iid, basis));
      var spent := bytes;
      var input := Input(e.head, true, false, false);
      ghost var was := log;
      var answer := SendMerge(iid, input);
      SpentSnoc(was, SentMerge(iid, input, answer));
      run := Some(Run(basis, ready.project, ready.snapshot, SentMerge(iid, input, answer), None));
      if answer.Body? {
        var fits := Charge(answer.size);
        if fits && answer.value.Some? && Postcondition(site, answer.value.value, ready.project.id, iid, e, ready.snapshot) {
          AnswerSettles(site, iid, e, spent, run.value);
          return Success(JustMerged, answer.value.value, ready.snapshot), run, basis;
        }
      }
      var result, after := Reconcile(site, ready.project.id, iid, e, ready.snapshot, if answer.Failed? then Some(answer.status) else None, lost);
      run := Some(run.value.(after := after));
      OnlyRecognised(site, ready.project.id, iid, e, ready.snapshot, if answer.Failed? then Some(answer.status) else None,
                     if after.None? then None else Usable(after.value, Spent(old(log)) + Spent(Opening(iid, basis)) + Cost(answer)));
      LaterSettles(site, iid, e, spent, run.value, result);
      return result, run, basis;
    }
  }

  ghost predicate NoWrite(events: seq<Event>) {
    forall i :: 0 <= i < |events| ==> !events[i].SentMerge?
  }

  lemma NoWriteGrows(events: seq<Event>, e: Event)
    requires NoWrite(events) && !e.SentMerge?
    ensures NoWrite(events + [e])
  {
  }

  lemma NoChecks(site: Site, kind: Kind, s: Snapshot)
    ensures Checks([]) == [] && AllGreen(site, [], s) && DistinctIds([]) && Ids([]) == {} && FullPages([], kind, s.pipelineId)
  {
  }

  lemma PartOfPage(site: Site, before: seq<Check>, items: seq<Check>, n: nat, s: Snapshot)
    requires n <= |items|
    ensures AllGreen(site, before + items, s) ==> AllGreen(site, before + items[..n], s)
    ensures DistinctIds(before + items) ==> DistinctIds(before + items[..n])
  {
    hide Green;
    var part, whole := before + items[..n], before + items;
    assert forall i :: 0 <= i < |part| ==> part[i] == whole[i];
  }

  lemma FullPagesGrow(events: seq<Event>, kind: Kind, pipelineId: int, e: Event)
    requires FullPages(events, kind, pipelineId)
    ensures FullPages(events + [e], kind, pipelineId) <==>
      PageEvent(e, kind, pipelineId, |events| + 1) && |Listed(e)| == PAGE_SIZE
  {
    var now := events + [e];
    assert now[|events|] == e && forall i :: 0 <= i < |events| ==> now[i] == events[i];
  }

  lemma CatalogueEnds(events: seq<Event>, kind: Kind, pipelineId: int, e: Event)
    requires FullPages(events, kind, pipelineId) && |events| < MAX_PAGES
    requires PageEvent(e, kind, pipelineId, |events| + 1) && |Listed(e)| < PAGE_SIZE
    ensures Catalogue(events + [e], kind, pipelineId)
  {
    assert (events + [e])[..|events|] == events;
  }

  /** Why a list is refused: a page that is missing, too large or over-full, a check that is repeated or not green, too many
      checks, or no short page within the limit. */
  ghost predicate Spoilt(site: Site, kind: Kind, s: Snapshot, count: nat, spent: nat, events: seq<Event>) {
    events != [] && (
      var front, last := events[..|events| - 1], events[|events| - 1];
      || (|events| == MAX_PAGES && FullPages(events, kind, s.pipelineId))
      || (last.SawChecks? && Usable(last.checks, spent + Spent(front)).None?)
      || |Listed(last)| > PAGE_SIZE
      || !AllGreen(site, Checks(events), s) || !DistinctIds(Checks(events)) || count + |Checks(events)| > MAX_CHECKS)
  }

  lemma SpoiltBy(site: Site, kind: Kind, s: Snapshot, count: nat, spent: nat, before: seq<Event>, e: Event)
    requires e.SawChecks?
    requires Usable(e.checks, spent + Spent(before)).None? || |Listed(e)| > PAGE_SIZE
      || !AllGreen(site, Checks(before + [e]), s) || !DistinctIds(Checks(before + [e])) || count + |Checks(before + [e])| > MAX_CHECKS
    ensures Spoilt(site, kind, s, count, spent, before + [e])
  {
  }

  lemma SpoiltByLength(site: Site, kind: Kind, s: Snapshot, count: nat, spent: nat, events: seq<Event>)
    requires |events| == MAX_PAGES && FullPages(events, kind, s.pipelineId)
    ensures Spoilt(site, kind, s, count, spent, events)
  {
  }

  lemma Unspoilt(site: Site, kind: Kind, s: Snapshot, count: nat, spent: nat, before: seq<Event>, e: Event)
    requires e.SawChecks? && Usable(e.checks, spent + Spent(before)).Some? && |Listed(e)| < PAGE_SIZE
    requires AllGreen(site, Checks(before + [e]), s) && DistinctIds(Checks(before + [e])) && count + |Checks(before + [e])| <= MAX_CHECKS
    ensures !Spoilt(site, kind, s, count, spent, before + [e])
  {
    hide AllGreen, DistinctIds, Spent, Usable, Checks, Listed;
    var events := before + [e];
    assert events[|events| - 1] == e && events[..|events| - 1] == before;
  }

  lemma NothingWritten()
    ensures NoWrite([]) && Spent([]) == 0
  {
  }

  lemma PipelineExists(site: Site, p: Option<Pipeline>, head: string)
    requires HeadPipeline(site, p, head)
    ensures p.Some?
  {
  }

  lemma {:induction false} SpentAppend(a: seq<Event>, b: seq<Event>)
    ensures Spent(a + b) == Spent(a) + Spent(b)
    decreases |b|
  {
    if b == [] {
      assert a + b == a;
    } else {
      var front := b[..|b| - 1];
      SpentAppend(a, front);
      assert a + b == a + front + [b[|b| - 1]];
      SpentSnoc(a + front, b[|b| - 1]);
    }
  }

  lemma GreenAnyCount(site: Site, checks: seq<Check>, s: Snapshot, count: nat)
    ensures AllGreen(site, checks, s) <==> AllGreen(site, checks, s.(checks := count))
  {
    assert forall c: Check :: Green(site, c, s) <==> Green(site, c, s.(checks := count));
  }

  lemma SamePipelineAnyCount(site: Site, p: Option<Pipeline>, s: Snapshot)
    ensures SamePipeline(site, p, s) <==> SamePipeline(site, p, s.(checks := 0))
  {
  }

  // ----- snapshots

  /** Every job and every bridge of the head pipeline was read, each once, and all are green. */
  ghost predicate Snapshotted(site: Site, record: MR, head: string, s: Snapshot, jobs: seq<Event>, bridges: seq<Event>) {
    && HeadPipeline(site, record.pipeline, head) && s.pipelineId == record.pipeline.value.id && s.sha == head
    && Catalogue(jobs, Job, s.pipelineId) && Catalogue(bridges, Bridge, s.pipelineId)
    && AllGreen(site, Checks(jobs), s) && AllGreen(site, Checks(bridges), s)
    && DistinctIds(Checks(jobs)) && DistinctIds(Checks(bridges))
    && s.checks == |Checks(jobs)| + |Checks(bridges)| <= MAX_CHECKS
  }

  ghost predicate Unfit(site: Site, record: MR, head: string, spent: nat, jobs: seq<Event>, bridges: seq<Event>) {
    !HeadPipeline(site, record.pipeline, head) || (
      var s := Snapshot(record.pipeline.value.id, head, 0);
      Spoilt(site, Job, s, 0, spent, jobs) || Spoilt(site, Bridge, s, |Checks(jobs)|, spent + Spent(jobs), bridges))
  }

  // ----- whole runs

  datatype Readiness = Stop | Already(project: Project, record: MR, snapshot: Snapshot) | Go(project: Project, snapshot: Snapshot)
  datatype Action = AlreadyMerged | JustMerged | ReconciledMerge
  datatype Outcome = Refused | Success(action: Action, record: MR, snapshot: Snapshot) | Rejected(status: nat) | Ambiguous

  /** Every reading made before a write. */
  datatype Reads = Reads(project: Option<Reply<Project>>, first: Option<Reply<MR>>, jobs: seq<Event>, bridges: seq<Event>,
                         second: Option<Reply<MR>>)

  /** A run that reached its write, and the reading after it, if any. */
  datatype Run = Run(basis: Reads, project: Project, snapshot: Snapshot, write: Event, after: Option<Reply<MR>>)

  ghost function RecordEvent(iid: int, r: Option<Reply<MR>>): seq<Event> {
    if r.Some? then [SawMR(iid, r.value)] else []
  }

  ghost function Opening(iid: int, b: Reads): seq<Event> {
    (if b.project.Some? then [SawProject(b.project.value)] else [])
    + RecordEvent(iid, b.first) + b.jobs + b.bridges + RecordEvent(iid, b.second)
  }

  function OptCost<T>(r: Option<Reply<T>>): nat {
    if r.Some? then Cost(r.value) else 0
  }

  lemma OneCost(e: Event)
    ensures Spent([e]) == EventCost(e) && Spent([]) == 0
  {
    assert [e][..0] == [];
  }

  lemma OpeningSpent(iid: int, b: Reads)
    ensures Spent(Opening(iid, b)) == OptCost(b.project) + OptCost(b.first) + Spent(b.jobs) + Spent(b.bridges) + OptCost(b.second)
  {
    hide Spent, Cost;
    var p: seq<Event> := if b.project.Some? then [SawProject(b.project.value)] else [];
    var first, second := RecordEvent(iid, b.first), RecordEvent(iid, b.second);
    SpentAppend(p + first + b.jobs + b.bridges, second);
    SpentAppend(p + first + b.jobs, b.bridges);
    SpentAppend(p + first, b.jobs);
    SpentAppend(p, first);
    OneCost(if b.project.Some? then p[0] else SawMR(iid, Failed(0)));
    OneCost(SawMR(iid, if b.first.Some? then b.first.value else Failed(0)));
    OneCost(SawMR(iid, if b.second.Some? then b.second.value else Failed(0)));
  }

  lemma OpeningGrows(iid: int, log: seq<Event>, start: Reads, b: Reads)
    requires start.jobs == [] && start.bridges == [] && start.second.None? && b == start.(jobs := b.jobs, bridges := b.bridges)
    requires NoWrite(b.jobs) && NoWrite(b.bridges)
    ensures log + Opening(iid, start) + b.jobs + b.bridges == log + Opening(iid, b) && NoWrite(Opening(iid, b))
  {
  }

  lemma OpeningEnds(iid: int, log: seq<Event>, surveyed: Reads, b: Reads)
    requires surveyed.second.None? && b.second.Some? && b == surveyed.(second := b.second) && NoWrite(Opening(iid, surveyed))
    ensures log + Opening(iid, surveyed) + [SawMR(iid, b.second.value)] == log + Opening(iid, b) && NoWrite(Opening(iid, b))
    ensures Spent(Opening(iid, b)) == OptCost(b.project) + OptCost(b.first) + Spent(b.jobs) + Spent(b.bridges) + Cost(b.second.value)
  {
    hide Spent;
    OpeningSpent(iid, b);
    NoWriteGrows(Opening(iid, surveyed), SawMR(iid, b.second.value));
    assert Opening(iid, surveyed) + [SawMR(iid, b.second.value)] == Opening(iid, b);
  }

  // ----- what stops a run before its write

  /** What a reading yields within the budget, if it was made. */
  ghost function ProjectSeen(b: Reads, spent: nat): Option<Project> {
    if b.project.None? then None else Usable(b.project.value, spent)
  }

  ghost function FirstSeen(b: Reads, spent: nat): Option<MR> {
    if b.first.None? then None else Usable(b.first.value, spent + OptCost(b.project))
  }

  ghost function SecondSeen(b: Reads, spent: nat): Option<MR> {
    if b.second.None? then None
    else Usable(b.second.value, spent + OptCost(b.project) + OptCost(b.first) + Spent(b.jobs) + Spent(b.bridges))
  }

  ghost predicate RecordDeficient(site: Site, iid: int, e: Expected, projectId: int, r: Option<MR>) {
    r.None? || !Identity(site, r.value, projectId, iid, e)
    || !(if r.value.state == "merged" then Squashed(site, r.value, projectId, iid, e) else OpenFor(r.value, e.head))
  }

  ghost predicate SecondDeficient(site: Site, iid: int, e: Expected, projectId: int, pipelineId: int, head: string, second: Option<MR>) {
    RecordDeficient(site, iid, e, projectId, second) || !SamePipeline(site, second.value.pipeline, Snapshot(pipelineId, head, 0))
  }

  /** The project or the first reading was made, and is missing, over budget or not in order. */
  ghost predicate StartDeficient(site: Site, iid: int, e: Expected, spent: nat, b: Reads) {
    var project := ProjectSeen(b, spent);
    b.project.Some? && (
      project.None? || !ProjectFits(site, project.value)
      || (b.first.Some? && RecordDeficient(site, iid, e, project.value.id, FirstSeen(b, spent))))
  }

  /** Some reading that was made is missing, over budget or not in order. */
  ghost predicate Deficient(site: Site, iid: int, e: Expected, spent: nat, b: Reads) {
    var project, first := ProjectSeen(b, spent), FirstSeen(b, spent);
    || StartDeficient(site, iid, e, spent, b)
    || (first.Some? && Unfit(site, first.value, e.head, spent + OptCost(b.project) + OptCost(b.first), b.jobs, b.bridges))
    || (b.second.Some? && project.Some? && first.Some? && first.value.pipeline.Some?
        && SecondDeficient(site, iid, e, project.value.id, first.value.pipeline.value.id, e.head, SecondSeen(b, spent)))
  }

  /** Every check of the first reading's pipeline was read and is green. */
  ghost predicate Surveyed(site: Site, e: Expected, spent: nat, b: Reads) {
    FirstSeen(b, spent).Some? && exists s :: Snapshotted(site, FirstSeen(b, spent).value, e.head, s, b.jobs, b.bridges)
  }

  lemma SurveyedBy(site: Site, e: Expected, spent: nat, b: Reads, s: Snapshot)
    requires FirstSeen(b, spent).Some? && Snapshotted(site, FirstSeen(b, spent).value, e.head, s, b.jobs, b.bridges)
    ensures Surveyed(site, e, spent, b)
  {
    hide FirstSeen, Snapshotted;
  }

  /** Why nothing is written and no merge is reported. */
  ghost predicate Stops(site: Site, iid: int, e: Expected, spent: nat, b: Reads, fileFails: bool, canceled: bool) {
    || Deficient(site, iid, e, spent, b)
    || (fileFails && Surveyed(site, e, spent, b) && FirstSeen(b, spent).value.state != "merged" && b.second.None?)
    || (canceled && Surveyed(site, e, spent, b) && SecondSeen(b, spent).Some? && SecondSeen(b, spent).value.state != "merged")
  }

  /** The last reading shows the request merged as the postcondition demands, with every check of its pipeline read and green. */
  ghost predicate MergedBefore(site: Site, iid: int, e: Expected, spent: nat, b: Reads, project: Project, record: MR, s: Snapshot) {
    && ProjectSeen(b, spent) == Some(project) && ProjectFits(site, project) && FirstSeen(b, spent).Some?
    && Snapshotted(site, FirstSeen(b, spent).value, e.head, s, b.jobs, b.bridges)
    && Some(record) == (if b.second.None? then FirstSeen(b, spent) else SecondSeen(b, spent))
    && Postcondition(site, record, project.id, iid, e, s)
  }

  lemma StartOnly(site: Site, iid: int, e: Expected, spent: nat, b: Reads, fileFails: bool, canceled: bool)
    requires StartDeficient(site, iid, e, spent, b) && b.jobs == [] && b.bridges == [] && b.second.None?
    ensures Stops(site, iid, e, spent, b, fileFails, canceled) && NoWrite(Opening(iid, b))
  {
    hide StartDeficient, Unfit, Surveyed;
  }

  lemma UnfitStops(site: Site, iid: int, e: Expected, spent: nat, start: Reads, b: Reads, fileFails: bool, canceled: bool)
    requires FirstSeen(start, spent).Some? && b == start.(jobs := b.jobs, bridges := b.bridges)
    requires Unfit(site, FirstSeen(start, spent).value, e.head, spent + OptCost(b.project) + OptCost(b.first), b.jobs, b.bridges)
    ensures Stops(site, iid, e, spent, b, fileFails, canceled)
  {
    hide Unfit, StartDeficient, Surveyed, Usable;
  }

  /** Readings in order up to the checks stop a run only by the request body; a merged request is reported. */
  lemma FitGoesOn(site: Site, iid: int, e: Expected, spent: nat, start: Reads, b: Reads, project: Project, first: MR, s: Snapshot,
      fileFails: bool, canceled: bool)
    requires start.second.None? && start.first.Some? && b == start.(jobs := b.jobs, bridges := b.bridges)
    requires start.project.Some? && !StartDeficient(site, iid, e, spent, start)
    requires ProjectSeen(start, spent) == Some(project) && FirstSeen(start, spent) == Some(first)
    requires !Unfit(site, first, e.head, spent + OptCost(b.project) + OptCost(b.first), b.jobs, b.bridges)
    requires Snapshotted(site, first, e.head, s, b.jobs, b.bridges)
    ensures ProjectSeen(b, spent) == Some(project) && FirstSeen(b, spent) == Some(first)
    ensures Stops(site, iid, e, spent, b, fileFails, canceled) <==> fileFails && first.state != "merged"
    ensures first.state == "merged" ==> Postcondition(site, first, project.id, iid, e, s) && MergedBefore(site, iid, e, spent, b, project, first, s)
  {
    hide Unfit, Usable, ProjectFits, Identity, OpenFor, Catalogue, AllGreen, DistinctIds, Checks;
    SurveyedBy(site, e, spent, b, s);
  }

  /** The second reading decides: it stops the run, shows the merge, or leaves only a cancelation in the way of the write. */
  lemma Decides(site: Site, iid: int, e: Expected, spent: nat, surveyed: Reads, b: Reads, project: Project, first: MR, s: Snapshot,
      fileFails: bool, canceled: bool)
    requires surveyed.second.None? && surveyed.project.Some? && surveyed.first.Some? && b.second.Some? && b == surveyed.(second := b.second)
    requires ProjectSeen(surveyed, spent) == Some(project) && FirstSeen(surveyed, spent) == Some(first) && first.state != "merged"
    requires !Stops(site, iid, e, spent, surveyed, fileFails, canceled)
    requires Snapshotted(site, first, e.head, s, b.jobs, b.bridges)
    ensures SecondSeen(b, spent) == Usable(b.second.value, spent + OptCost(b.project) + OptCost(b.first) + Spent(b.jobs) + Spent(b.bridges))
    ensures var second := SecondSeen(b, spent);
      if SecondDeficient(site, iid, e, project.id, s.pipelineId, s.sha, second) then Stops(site, iid, e, spent, b, fileFails, canceled)
      else if second.value.state == "merged" then
        !Stops(site, iid, e, spent, b, fileFails, canceled)
        && (Postcondition(site, second.value, project.id, iid, e, s) ==> MergedBefore(site, iid, e, spent, b, project, second.value, s))
      else
        (Stops(site, iid, e, spent, b, fileFails, canceled) <==> canceled)
        && (OpenRecord(site, iid, e, project.id, b.second.value) && SamePipeline(site, second.value.pipeline, s) ==> Ready(site, iid, e, b, project, s))
  {
    hide Unfit, ProjectFits, Identity, OpenFor, Squashed, Catalogue, AllGreen, DistinctIds, Checks, HeadPipeline, Spent;
    PipelineExists(site, first.pipeline, e.head);
    SurveyedBy(site, e, spent, b, s);
    SurveyedBy(site, e, spent, surveyed, s);
  }

  ghost function Trace(iid: int, run: Run): seq<Event> {
    Opening(iid, run.basis) + [run.write] + if run.after.Some? then [SawMR(iid, run.after.value)] else []
  }

  ghost predicate OpenRecord(site: Site, iid: int, e: Expected, projectId: int, r: Reply<MR>) {
    r.Body? && r.value.Some? && Identity(site, r.value.value, projectId, iid, e) && OpenFor(r.value.value, e.head)
  }

  /** A project that requires pipelines and resolved discussions; the open merge request; every check of its head pipeline, all
      green; and the same open merge request and pipeline once more. */
  ghost predicate Ready(site: Site, iid: int, e: Expected, r: Reads, project: Project, s: Snapshot) {
    && r.project.Some? && r.project.value.Body? && r.project.value.value == Some(project) && ProjectFits(site, project)
    && r.first.Some? && OpenRecord(site, iid, e, project.id, r.first.value)
    && Snapshotted(site, r.first.value.value.value, e.head, s, r.jobs, r.bridges)
    && r.second.Some? && OpenRecord(site, iid, e, project.id, r.second.value)
    && SamePipeline(site, r.second.value.value.value.pipeline, s)
  }

  /** The write asks for an immediate squash of the expected head that keeps the source branch, right after such readings. */
  ghost predicate Guarded(site: Site, iid: int, e: Expected, spent: nat, run: Run) {
    && Ready(site, iid, e, run.basis, run.project, run.snapshot)
    && run.write.SentMerge? && run.write.iid == iid && run.write.input == Input(e.head, true, false, false)
    && spent + Spent(Opening(iid, run.basis)) <= OPERATION_BYTES
  }

  /** Reported without a write: the last reading shows the request merged as the postcondition demands. */
  ghost predicate AlreadyShown(site: Site, iid: int, e: Expected, spent: nat, b: Reads, outcome: Outcome) {
    && outcome.Success? && outcome.action == AlreadyMerged
    && exists project :: MergedBefore(site, iid, e, spent, b, project, outcome.record, outcome.snapshot)
  }

  ghost predicate Proves(site: Site, iid: int, e: Expected, projectId: int, s: Snapshot, r: Option<MR>) {
    r.Some? && Postcondition(site, r.value, projectId, iid, e, s)
  }

  /** What a reading after the write shows, given the status that refused the write, if one did. */
  ghost function Reconciled(site: Site, projectId: int, iid: int, e: Expected, s: Snapshot, status: Option<nat>, reading: Option<MR>): Outcome {
    if Proves(site, iid, e, projectId, s, reading) then Success(ReconciledMerge, reading.value, s)
    else if reading.Some? && Identity(site, reading.value, projectId, iid, e) && reading.value.state == "opened"
        && status.Some? && Recognised(status.value) then Rejected(status.value)
    else Ambiguous
  }

  /** What is reported of a run with a write: success only with a record that meets the whole postcondition, rejection only with
      a recognised status and a merge request that is still open, and otherwise nothing. */
  ghost function Report(site: Site, iid: int, e: Expected, spent: nat, run: Run): Outcome
    requires run.write.SentMerge?
  {
    var total := spent + Spent(Opening(iid, run.basis));
    var answer := run.write.answer;
    if Proves(site, iid, e, run.project.id, run.snapshot, Usable(answer, total)) then
      Success(JustMerged, Usable(answer, total).value, run.snapshot)
    else
      Reconciled(site, run.project.id, iid, e, run.snapshot, if answer.Failed? then Some(answer.status) else None,
                 if run.after.None? then None else Usable(run.after.value, total + Cost(answer)))
  }

  /** A reply within the limits, the page's and what is left of the operation's, whose record is the squash that was asked for. */
  ghost predicate ShowsSquash(site: Site, projectId: int, iid: int, e: Expected, s: Snapshot, spent: nat, r: Reply<MR>) {
    && r.Body? && r.size <= PAGE_BYTES && spent + r.size <= OPERATION_BYTES
    && r.value.Some? && Postcondition(site, r.value.value, projectId, iid, e, s)
  }

  /** A reply within the limits whose record is the same merge request, still open. */
  ghost predicate ShowsOpen(site: Site, projectId: int, iid: int, e: Expected, spent: nat, r: Reply<MR>) {
    && r.Body? && r.size <= PAGE_BYTES && spent + r.size <= OPERATION_BYTES
    && r.value.Some? && Identity(site, r.value.value, projectId, iid, e) && r.value.value.state == "opened"
  }

  /** What a reading after the write settles: success exactly with the squash, rejection exactly with a recognised status and a
      request that is still open. What is neither is ambiguous. */
  ghost predicate ReadingSettles(site: Site, projectId: int, iid: int, e: Expected, s: Snapshot, spent: nat, status: Option<nat>,
    after: Option<Reply<MR>>, outcome: Outcome)
  {
    && !outcome.Refused?
    && (outcome.Success? <==> after.Some? && ShowsSquash(site, projectId, iid, e, s, spent, after.value))
    && (outcome.Success? ==> outcome == Success(ReconciledMerge, after.value.value.value, s))
    && (outcome.Rejected? <==> status.Some? && Recognised(status.value) && after.Some? && ShowsOpen(site, projectId, iid, e, spent, after.value))
    && (outcome.Rejected? ==> outcome.status == status.value)
  }

  /** What the answer to the write and the reading after it settle together. */
  ghost predicate Settles(site: Site, iid: int, e: Expected, spent: nat, run: Run, outcome: Outcome)
  {
    run.write.SentMerge? &&
    var answer, s, id := run.write.answer, run.snapshot, run.project.id;
    var answered := ShowsSquash(site, id, iid, e, s, spent, answer);
    var read := run.after.Some? && ShowsSquash(site, id, iid, e, s, spent + Cost(answer), run.after.value);
    && !outcome.Refused?
    && (outcome.Success? <==> answered || read)
    && (answered ==> outcome == Success(JustMerged, answer.value.value, s))
    && (!answered && read ==> outcome == Success(ReconciledMerge, run.after.value.value.value, s))
    && (outcome.Rejected? <==>
          && answer.Failed? && answer.status in {400, 401, 403, 404, 405, 406, 409, 422, 429}
          && run.after.Some? && ShowsOpen(site, id, iid, e, spent + Cost(answer), run.after.value))
    && (outcome.Rejected? ==> outcome.status == answer.status)
  }

  lemma ReconciledSettles(site: Site, projectId: int, iid: int, e: Expected, s: Snapshot, spent: nat, status: Option<nat>,
      after: Option<Reply<MR>>)
    ensures var reading := if after.None? then None else Usable(after.value, spent);
      ReadingSettles(site, projectId, iid, e, s, spent, status, after, Reconciled(site, projectId, iid, e, s, status, reading))
  {
    hide Identity, Recognised, SamePipeline;
  }

  lemma AnswerSettles(site: Site, iid: int, e: Expected, spent: nat, run: Run)
    requires run.write.SentMerge? && run.after.None?
    requires ShowsSquash(site, run.project.id, iid, e, run.snapshot, spent, run.write.answer)
    ensures Settles(site, iid, e, spent, run, Success(JustMerged, run.write.answer.value.value, run.snapshot))
  {
    hide Postcondition, Identity;
  }

  lemma LaterSettles(site: Site, iid: int, e: Expected, spent: nat, run: Run, outcome: Outcome)
    requires run.write.SentMerge? && !ShowsSquash(site, run.project.id, iid, e, run.snapshot, spent, run.write.answer)
    requires ReadingSettles(site, run.project.id, iid, e, run.snapshot, spent + Cost(run.write.answer),
                            if run.write.answer.Failed? then Some(run.write.answer.status) else None, run.after, outcome)
    ensures Settles(site, iid, e, spent, run, outcome)
  {
    hide ShowsSquash, ShowsOpen;
  }

  lemma IdentityNeeded(site: Site, r: Option<MR>, projectId: int, iid: int, e: Expected, s: Snapshot)
    requires r.None? || !Identity(site, r.value, projectId, iid, e)
    ensures !Proves(site, iid, e, projectId, s, r)
  {
  }

  lemma OnlyMerged(site: Site, r: Option<MR>, projectId: int, iid: int, e: Expected, s: Snapshot)
    requires r.Some? && r.value.state != "merged"
    ensures !Proves(site, iid, e, projectId, s, r)
  {
  }

  lemma OnlyRecognised(site: Site, projectId: int, iid: int, e: Expected, s: Snapshot, status: Option<nat>, reading: Option<MR>)
    ensures Reconciled(site, projectId, iid, e, s, status, reading).Rejected? ==> status.Some? && Recognised(status.value)
    ensures var o := Reconciled(site, projectId, iid, e, s, status, reading); !o.Refused? && (o.Success? ==> o.action == ReconciledMerge)
  {
  }

  function Writes(log: seq<Event>): nat {
    if log == [] then 0 else Writes(log[..|log| - 1]) + if log[|log| - 1].SentMerge? then 1 else 0
  }

  lemma {:induction false} NoWriteCounts(log: seq<Event>)
    requires NoWrite(log)
    ensures Writes(log) == 0
  {
    if log != [] {
      NoWriteCounts(log[..|log| - 1]);
    }
  }

  lemma {:induction false} WritesAppend(a: seq<Event>, b: seq<Event>)
    ensures Writes(a + b) == Writes(a) + Writes(b)
    decreases |b|
  {
    if b == [] {
      assert a + b == a;
    } else {
      var front := b[..|b| - 1];
      WritesAppend(a, front);
      assert a + b == a + front + [b[|b| - 1]];
      assert (a + front + [b[|b| - 1]])[..|a + front|] == a + front;
    }
  }

  lemma ChecksAreReadings(events: seq<Event>, kind: Kind, pipelineId: int)
    requires Catalogue(events, kind, pipelineId)
    ensures NoWrite(events)
  {
  }

  /** A run writes exactly once, and nothing follows the write but a reading of the merge request. */
  lemma OneWrite(site: Site, iid: int, e: Expected, spent: nat, run: Run)
    requires Guarded(site, iid, e, spent, run)
    ensures Writes(Trace(iid, run)) == 1
  {
    hide Spent, Identity, OpenFor, AllGreen, DistinctIds, HeadPipeline, Catalogue, Writes;
    ChecksAreReadings(run.basis.jobs, Job, run.snapshot.pipelineId);
    ChecksAreReadings(run.basis.bridges, Bridge, run.snapshot.pipelineId);
    var opening := Opening(iid, run.basis);
    assert NoWrite(opening);
    NoWriteCounts(opening);
    OneEvent(run.write);
    WritesAppend(opening, [run.write]);
    var tail := if run.after.Some? then [SawMR(iid, run.after.value)] else [];
    NoWriteCounts(tail);
    WritesAppend(opening + [run.write], tail);
  }

  lemma OneEvent(e: Event)
    requires e.SentMerge?
    ensures Writes([e]) == 1
  {
    assert [e][..0] == [];
  }
}
