/** Deleting one resource with one request, and what may be reported of it (internal/product/commands_delete.go). */
module Deletion {
  import opened Rejections
  import opened Wrappers

  // ----- what is selected and expected

  datatype Resource = IssueKind | PipelineKind | ReleaseKind | SnippetKind
  datatype Selection = Selection(resource: Resource, personal: bool, expectedUrl: string, projectUrl: string, repo: string,
                                 projectId: int, id: int, tag: string)
  datatype Expected = Expected(id: int, authorId: int, updatedAt: string, createdAt: string, state: string,
                               sha: string, ref: string, status: string, commit: string)

  // ----- what the provider says

  datatype ProjectField = NullProject | ProjectNumber(id: int) | OtherProject
  datatype Record = Record(id: int, iid: int, project: ProjectField, url: string, state: string, updatedAt: string,
                           createdAt: string, sha: string, ref: string, status: string, tag: string, commit: string,
                           author: int, self: string)
  datatype Actor = Actor(id: int, state: string)
  datatype Project = Project(id: int, path: string, url: string)
  datatype Tag = Tag(name: string, commit: string)

  /** The status received; the failure, if the transfer failed, with the status it carries; whether the body is empty; and what
      a JSON body with unique names decodes to. */
  datatype Reply<T> = Reply(status: nat, failure: Option<nat>, empty: bool, value: Option<T>)

  function Decoded<T>(r: Reply<T>): Option<T> {
    if r.failure.None? && r.status == 200 then r.value else None
  }

  predicate ReportsMissing<T>(r: Reply<T>) {
    r.status == 404 && r.failure == Some(404)
  }

  datatype Event =
    | ReadActor(actor: Reply<Actor>)
    | ReadProject(byPath: bool, project: Reply<Project>)
    | ReadTag(tag: Reply<Tag>)
    | ReadRecord(record: Reply<Record>)
    | SentDelete(answer: Reply<Record>)

  // ----- checks

  predicate ActiveActor(r: Reply<Actor>) {
    Decoded(r).Some? && Decoded(r).value.id > 0 && Decoded(r).value.state == "active"
  }

  predicate ExactProject(s: Selection, r: Reply<Project>) {
    Decoded(r) == Some(Project(s.projectId, s.repo, s.projectUrl))
  }

  predicate ExactTag(s: Selection, e: Expected, r: Reply<Tag>) {
    Decoded(r) == Some(Tag(s.tag, e.commit))
  }

  /** The record is the reviewed resource in its reviewed revision. */
  predicate Matches(r: Record, s: Selection, e: Expected, actor: int) {
    if s.resource == ReleaseKind then
      r.tag == s.tag && r.self == s.expectedUrl && r.commit == e.commit && r.createdAt == e.createdAt
    else
      && r.id > 0 && r.url == s.expectedUrl
      && r.project == (if s.personal then NullProject else ProjectNumber(s.projectId))
      && r.updatedAt == e.updatedAt
      && match s.resource
         case IssueKind => r.iid == s.id && r.id == e.id && r.state == e.state
         case PipelineKind => r.id == s.id && r.sha == e.sha && r.ref == e.ref && r.status == e.status
         case SnippetKind => r.id == s.id && r.author == e.authorId && (s.personal ==> actor == e.authorId)
  }

  /** A recognised refusal. A snippet's 400 is not one: its repository can fail after the deletion is committed. */
  predicate Refusal(resource: Resource, status: nat) {
    !(resource == SnippetKind && status == 400) && (status == 412 || status == 405 || HttpRejection(status))
  }

  /** The exact acknowledgment: the deleted record for a release, an empty 204 for anything else. */
  predicate Acknowledges(s: Selection, e: Expected, actor: int, r: Reply<Record>) {
    if s.resource == ReleaseKind then Decoded(r).Some? && Matches(Decoded(r).value, s, e, actor)
    else r.failure.None? && r.status == 204 && r.empty
  }

  // ----- receipts

  datatype Action = NotApplied | WasRejected | WasAmbiguous | WasDeleted
  datatype Postcondition = NotChecked | NotFound | Present | Unverified
  datatype Effect = NoEffect | NotAttempted | MayHaveHappened
  datatype TagState = NoTag | TagUnverified | TagUnchanged

  datatype Receipt = Receipt(action: Action, actor: int, attempted: bool, status: nat, acknowledged: bool,
                             postcondition: Postcondition, effect: Effect, tag: TagState)

  function NewReceipt(s: Selection, actor: int): Receipt {
    Receipt(NotApplied, actor, false, 0, false, NotChecked,
            if s.resource == PipelineKind || s.resource == ReleaseKind then NotAttempted else NoEffect,
            if s.resource == ReleaseKind then TagUnverified else NoTag)
  }

  // ----- the client

  class Session {
    /** Whether the provider acknowledges a deletion only when that request made it. */
    const honest: bool
    ghost var log: seq<Event>
    /** Deletions made by this run's own requests. */
    ghost var commits: nat

    constructor (honest: bool)
      ensures this.honest == honest && log == [] && commits == 0
    {
      this.honest, log, commits := honest, [], 0;
    }

    method AskActor() returns (r: Reply<Actor>)
      modifies this`log
      ensures log == old(log) + [ReadActor(r)]
    {
      r := *;
      log := log + [ReadActor(r)];
    }

    method AskProject(byPath: bool) returns (r: Reply<Project>)
      modifies this`log
      ensures log == old(log) + [ReadProject(byPath, r)]
    {
      r := *;
      log := log + [ReadProject(byPath, r)];
    }

    method AskTag() returns (r: Reply<Tag>)
      modifies this`log
      ensures log == old(log) + [ReadTag(r)]
    {
      r := *;
      log := log + [ReadTag(r)];
    }

    method AskRecord() returns (r: Reply<Record>)
      modifies this`log
      ensures log == old(log) + [ReadRecord(r)]
    {
      r := *;
      log := log + [ReadRecord(r)];
    }

    /** The provider may delete and lose its answer, and may answer 400 after deleting a snippet; it does not delete when it
        answers with any other refusal. */
    method SendDelete(s: Selection, e: Expected, ghost actor: int) returns (r: Reply<Record>)
      modifies this
      ensures log == old(log) + [SentDelete(r)]
      ensures Refusal(s.resource, r.status) ==> commits == old(commits)
      ensures honest && Acknowledges(s, e, actor, r) && !Refusal(s.resource, r.status) ==> commits == old(commits) + 1
      ensures commits <= old(commits) + 1
    {
      r := *;
      log := log + [SentDelete(r)];
      ghost var takesEffect: bool := *;
      if !Refusal(s.resource, r.status) && (takesEffect || (honest && Acknowledges(s, e, actor, r))) {
        commits := commits + 1;
      }
    }

    /** The account, the parent by path, the release's tag, and the first reading of the resource. */
    method ReadReviewed(s: Selection, e: Expected) returns (ok: bool, actor: Reply<Actor>, ghost b: Basis)
      modifies this`log
      ensures log == old(log) + Opening(b) && b.actor == Some(actor) && b.again.None? && b.second.None?
      ensures ok <==> Reviewed(s, e, b)
      ensures !ok <==> Deficient(s, e, b)
      ensures ok <==> FirstMatches(s, e, b)
    {
      hide RecordMatches, ActiveActor, ExactTag, ExactProject;
      ok := false;
      actor := AskActor();
      b := Basis(Some(actor), None, None, None, None, None);
      if !ActiveActor(actor) {
        return;
      }
      if !s.personal {
        var project := AskProject(true);
        b := b.(project := Some(project));
        if !ExactProject(s, project) {
          return;
        }
      }
      if s.resource == ReleaseKind {
        var tag := AskTag();
        b := b.(tag := Some(tag));
        if !ExactTag(s, e, tag) {
          return;
        }
      }
      var first := AskRecord();
      b := b.(first := Some(first));
      ok := RecordMatches(s, e, actor, first);
    }

    /** The parent by ID and the resource once more, right before the request. */
    method ReadAgain(s: Selection, e: Expected, actor: Reply<Actor>)
      returns (ok: bool, ghost again: Option<Reply<Project>>, ghost second: Option<Reply<Record>>)
      requires Decoded(actor).Some?
      modifies this`log
      ensures log == old(log) + ProjectEvent(false, again) + RecordEvent(second)
      ensures ok <==> Repeated(s, e, actor, again, second)
      ensures !ok <==> RepeatDeficient(s, e, actor, again, second)
    {
      hide RecordMatches, ExactProject;
      ok, again, second := false, None, None;
      if !s.personal {
        var project := AskProject(false);
        again := Some(project);
        if !ExactProject(s, project) {
          return;
        }
      }
      var record := AskRecord();
      second := Some(record);
      ok := RecordMatches(s, e, actor, record);
    }

    /** Everything before the request. It ends early only on a reading that is not in order; `canceled` says whether the
        caller's context is done when the last reading is in. */
    method Preflight(s: Selection, e: Expected, canceled: bool) returns (r: Option<Receipt>, ok: bool, ghost b: Basis)
      modifies this`log
      ensures log == old(log) + Opening(b)
      ensures ok <==> Ready(s, e, b) && !canceled
      ensures !ok <==> Deficient(s, e, b) || (Ready(s, e, b) && canceled)
      ensures r == if FirstMatches(s, e, b) then Some(NewReceipt(s, Decoded(b.actor.value).value.id)) else None
    {
      hide Opening, Reviewed, Deficient, Repeated, RepeatDeficient, Ready, FirstMatches, ProjectEvent, RecordEvent, NewReceipt;
      r, ok := None, false;
      var reviewed, actor, start := ReadReviewed(s, e);
      b := start;
      Continues(s, e, b, b);
      if !reviewed {
        return;
      }
      r := Some(NewReceipt(s, Decoded(actor).value.id));
      var same, again, second := ReadAgain(s, e, actor);
      b := b.(again := again, second := second);
      Continues(s, e, start, b);
      assert old(log) + Opening(start) + ProjectEvent(false, again) + RecordEvent(second) == old(log) + Opening(b);
      ok := same && !canceled;
    }

    /** The reading after a request that was not refused: the resource, then the parent, the account and the tag. */
    method ReadBack(s: Selection, e: Expected, actor: Actor) returns (p: Postcondition, tagUnchanged: bool, ghost after: After)
      modifies this`log
      ensures log == old(log) + Readings(after)
      ensures p == Shown(s, e, actor, after) && (tagUnchanged <==> p == NotFound && s.resource == ReleaseKind)
    {
      hide ActiveActor, ExactProject, ExactTag, ReportsMissing;
      tagUnchanged := false;
      var record := AskRecord();
      after := After(record, None, None, None);
      if !ReportsMissing(record) {
        return if Decoded(record).Some? then Present else Unverified, false, after;
      }
      if !s.personal {
        var project := AskProject(false);
        after := after.(project := Some(project));
        if !ExactProject(s, project) {
          return Unverified, false, after;
        }
      }
      var again := AskActor();
      after := after.(actor := Some(again));
      if !ActiveActor(again) || Decoded(again) != Some(actor) {
        return Unverified, false, after;
      }
      if s.resource == ReleaseKind {
        var tag := AskTag();
        after := after.(tag := Some(tag));
        if !ExactTag(s, e, tag) {
          return Unverified, false, after;
        }
        tagUnchanged := true;
      }
      p := NotFound;
    }

    /** issue, pipeline, release and snippet delete: at most one request, sent exactly when everything read before it is in order
        and the caller's context is not done, and a report that follows from what was read. Nothing is read after the request
        exactly when it was refused or the context is done by then, which `lost` says. */
    method Delete(s: Selection, e: Expected, canceled: bool, lost: bool)
      returns (r: Option<Receipt>, ghost run: Option<Run>, ghost basis: Basis)
      modifies this
      ensures run.Some? <==> Ready(s, e, basis) && !canceled
      ensures run.None? <==> Deficient(s, e, basis) || (Ready(s, e, basis) && canceled)
      ensures run.None? ==> log == old(log) + Opening(basis) && commits == old(commits)
      ensures run.None? ==> r == if FirstMatches(s, e, basis) then Some(NewReceipt(s, Decoded(basis.actor.value).value.id)) else None
      ensures run.Some? ==> run.value.basis == basis && log == old(log) + Trace(run.value)
      ensures run.Some? ==> r == Some(Report(s, e, run.value)) && Tells(s, e, run.value, r.value)
      ensures run.Some? ==> (run.value.after.None? <==> lost || Report(s, e, run.value).action == WasRejected)
      ensures r.Some? && r.value.action == WasRejected ==> commits == old(commits)
      ensures honest && r.Some? && r.value.action == WasDeleted ==> commits == old(commits) + 1
    {
      hide Ready, Deficient, Acknowledges, Refusal, Shown, Opening, Readings, FirstMatches, Tells;
      var receipt, ok, seen := Preflight(s, e, canceled);
      run, basis := None, seen;
      if !ok {
        return receipt, run, basis;
      }
      ActorIs(s, e, basis);
      var actor := receipt.value.actor;
      var account := Actor(actor, "active");
      var rec := receipt.value.(attempted := true, effect := if receipt.value.effect == NoEffect then NoEffect else MayHaveHappened);
      var answer := SendDelete(s, e, actor);
      run := Some(Run(basis, answer, None));
      rec := rec.(status := answer.status, acknowledged := Acknowledges(s, e, actor, answer));
      if !rec.acknowledged && Refusal(s.resource, answer.status) {
        ReportTells(s, e, run.value);
        return Some(rec.(action := WasRejected)), run, basis;
      }
      NoAcknowledgedRefusal(s, e, actor, answer);
      if lost {
        ReportTells(s, e, run.value);
        return Some(rec.(action := WasAmbiguous)), run, basis;
      }
      var shown, tagUnchanged, after := ReadBack(s, e, account);
      run := Some(run.value.(after := Some(after)));
      rec := rec.(postcondition := shown, tag := if tagUnchanged then TagUnchanged else rec.tag);
      rec := rec.(action := if rec.acknowledged && shown == NotFound then WasDeleted else WasAmbiguous);
      ReportTells(s, e, run.value);
      r := Some(rec);
    }
  }

  // ----- whole runs

  /** The readings made before the request, in order: the account, the parent by path, the release's tag, the resource, the
      parent by ID, and the resource once more. */
  datatype Basis = Basis(actor: Option<Reply<Actor>>, project: Option<Reply<Project>>, tag: Option<Reply<Tag>>,
                         first: Option<Reply<Record>>, again: Option<Reply<Project>>, second: Option<Reply<Record>>)

  /** Everything read after it. */
  datatype After = After(record: Reply<Record>, project: Option<Reply<Project>>, actor: Option<Reply<Actor>>, tag: Option<Reply<Tag>>)

  datatype Run = Run(basis: Basis, answer: Reply<Record>, after: Option<After>)

  ghost function ProjectEvent(byPath: bool, p: Option<Reply<Project>>): seq<Event> {
    if p.Some? then [ReadProject(byPath, p.value)] else []
  }

  ghost function TagEvent(t: Option<Reply<Tag>>): seq<Event> {
    if t.Some? then [ReadTag(t.value)] else []
  }

  ghost function ActorEvent(a: Option<Reply<Actor>>): seq<Event> {
    if a.Some? then [ReadActor(a.value)] else []
  }

  ghost function RecordEvent(r: Option<Reply<Record>>): seq<Event> {
    if r.Some? then [ReadRecord(r.value)] else []
  }

  ghost function Opening(b: Basis): seq<Event> {
    ActorEvent(b.actor) + ProjectEvent(true, b.project) + TagEvent(b.tag) + RecordEvent(b.first)
    + ProjectEvent(false, b.again) + RecordEvent(b.second)
  }

  ghost function Readings(a: After): seq<Event> {
    [ReadRecord(a.record)] + ProjectEvent(false, a.project) + ActorEvent(a.actor) + TagEvent(a.tag)
  }

  ghost function Trace(run: Run): seq<Event> {
    Opening(run.basis) + [SentDelete(run.answer)] + if run.after.Some? then Readings(run.after.value) else []
  }

  /** An active account; the exact parent, by path and then by ID; the release's tag; and the reviewed resource in its reviewed
      revision, read twice, the second time right before the request. */
  ghost predicate Ready(s: Selection, e: Expected, b: Basis) {
    Reviewed(s, e, b) && Repeated(s, e, b.actor.value, b.again, b.second)
  }

  predicate RecordMatches(s: Selection, e: Expected, actor: Reply<Actor>, record: Reply<Record>) {
    Decoded(actor).Some? && Decoded(record).Some? && Matches(Decoded(record).value, s, e, Decoded(actor).value.id)
  }

  /** The first reading of the resource, after which a failure carries a receipt. */
  ghost predicate FirstMatches(s: Selection, e: Expected, b: Basis) {
    b.actor.Some? && b.first.Some? && RecordMatches(s, e, b.actor.value, b.first.value)
  }

  ghost predicate Reviewed(s: Selection, e: Expected, b: Basis) {
    && b.actor.Some? && ActiveActor(b.actor.value)
    && b.project.Some? == !s.personal && (b.project.Some? ==> ExactProject(s, b.project.value))
    && b.tag.Some? == (s.resource == ReleaseKind) && (b.tag.Some? ==> ExactTag(s, e, b.tag.value))
    && FirstMatches(s, e, b)
  }

  ghost predicate Repeated(s: Selection, e: Expected, actor: Reply<Actor>, again: Option<Reply<Project>>, second: Option<Reply<Record>>) {
    && again.Some? == !s.personal && (again.Some? ==> ExactProject(s, again.value))
    && second.Some? && RecordMatches(s, e, actor, second.value)
  }

  ghost predicate RepeatDeficient(s: Selection, e: Expected, actor: Reply<Actor>, again: Option<Reply<Project>>, second: Option<Reply<Record>>) {
    (again.Some? && !ExactProject(s, again.value)) || (second.Some? && !RecordMatches(s, e, actor, second.value))
  }

  /** Some reading that was made is not in order. */
  ghost predicate Deficient(s: Selection, e: Expected, b: Basis) {
    b.actor.Some? && (
      || !ActiveActor(b.actor.value)
      || (b.project.Some? && !ExactProject(s, b.project.value))
      || (b.tag.Some? && !ExactTag(s, e, b.tag.value))
      || (b.first.Some? && !RecordMatches(s, e, b.actor.value, b.first.value))
      || RepeatDeficient(s, e, b.actor.value, b.again, b.second))
  }

  lemma Continues(s: Selection, e: Expected, start: Basis, b: Basis)
    requires start.actor.Some? && start.again.None? && start.second.None? && b == start.(again := b.again, second := b.second)
    requires Reviewed(s, e, start) <==> !Deficient(s, e, start)
    ensures FirstMatches(s, e, start) ==> FirstMatches(s, e, b) && Decoded(start.actor.value).Some?
    ensures Ready(s, e, b) <==> Reviewed(s, e, start) && Repeated(s, e, start.actor.value, b.again, b.second)
    ensures Deficient(s, e, b) <==> Deficient(s, e, start) || RepeatDeficient(s, e, start.actor.value, b.again, b.second)
    ensures Opening(b) == Opening(start) + ProjectEvent(false, b.again) + RecordEvent(b.second)
    ensures b.second.None? ==> !Repeated(s, e, start.actor.value, b.again, b.second)
  {
    hide Matches, ActiveActor, ExactTag, ExactProject, Decoded;
  }

  /** Not found counts only with the same parent, the same account and the release's tag still in sight. */
  ghost function Shown(s: Selection, e: Expected, actor: Actor, a: After): Postcondition {
    if !ReportsMissing(a.record) then (if Decoded(a.record).Some? then Present else Unverified)
    else if (s.personal || (a.project.Some? && ExactProject(s, a.project.value)))
         && a.actor.Some? && ActiveActor(a.actor.value) && Decoded(a.actor.value) == Some(actor)
         && (s.resource == ReleaseKind ==> a.tag.Some? && ExactTag(s, e, a.tag.value)) then NotFound
    else Unverified
  }

  /** The receipt of a run that sent its request. */
  ghost function Report(s: Selection, e: Expected, run: Run): (r: Receipt)
    requires Ready(s, e, run.basis)
    ensures r.action == WasDeleted ==> run.after.Some? && ReportsMissing(run.after.value.record) && Acknowledges(s, e, r.actor, run.answer)
    ensures r.action == WasDeleted ==> run.after.value.actor.Some? && Decoded(run.after.value.actor.value) == Decoded(run.basis.actor.value)
    ensures r.action == WasDeleted && !s.personal ==>
      run.after.value.project.Some? && Decoded(run.after.value.project.value) == Decoded(run.basis.project.value)
    ensures r.action == WasDeleted && s.resource == ReleaseKind ==>
      run.after.value.tag.Some? && Decoded(run.after.value.tag.value) == Decoded(run.basis.tag.value)
    ensures r.action == WasRejected ==> Refusal(s.resource, run.answer.status)
    ensures r.tag == TagUnchanged <==> s.resource == ReleaseKind && r.postcondition == NotFound
  {
    var actor := Decoded(run.basis.actor.value).value;
    var acknowledged := Acknowledges(s, e, actor.id, run.answer);
    var refused := !acknowledged && Refusal(s.resource, run.answer.status);
    var shown := if refused || run.after.None? then NotChecked else Shown(s, e, actor, run.after.value);
    var unattempted := NewReceipt(s, actor.id);
    Receipt(if refused then WasRejected else if acknowledged && shown == NotFound then WasDeleted else WasAmbiguous,
            actor.id, true, run.answer.status, acknowledged, shown,
            if unattempted.effect == NoEffect then NoEffect else MayHaveHappened,
            if s.resource != ReleaseKind then NoTag else if shown == NotFound then TagUnchanged else TagUnverified)
  }

  /** The parent, unless there is none, the account, and for a release the tag read after the request are those read before. */
  ghost predicate Unchanged(s: Selection, b: Basis, a: After) {
    && (s.personal || (b.project.Some? && a.project.Some? && Decoded(a.project.value).Some?
        && Decoded(a.project.value) == Decoded(b.project.value)))
    && b.actor.Some? && a.actor.Some? && Decoded(a.actor.value).Some? && Decoded(a.actor.value) == Decoded(b.actor.value)
    && (s.resource == ReleaseKind ==>
          && b.tag.Some? && a.tag.Some? && Decoded(a.tag.value).Some?
          && Decoded(a.tag.value) == Decoded(b.tag.value))
  }

  /** The answer is an empty 204, or for a release a 200 with the deleted record: the reviewed one. */
  ghost predicate ExactAnswer(s: Selection, e: Expected, r: Reply<Record>) {
    && r.failure.None?
    && if s.resource != ReleaseKind then r.status == 204 && r.empty
       else
         && r.status == 200 && r.value.Some? && r.value.value.tag == s.tag && r.value.value.self == s.expectedUrl
         && r.value.value.commit == e.commit && r.value.value.createdAt == e.createdAt
  }

  /** What a receipt says of a run with a request, in terms of what was read: deleted exactly if the answer was exact and the
      resource was then missing in unchanged surroundings; rejected exactly if it was not and carries a listed status. */
  ghost predicate Tells(s: Selection, e: Expected, run: Run, r: Receipt) {
    var answer := run.answer;
    var missing := run.after.Some? && run.after.value.record.status == 404 && run.after.value.record.failure == Some(404);
    var gone := missing && Unchanged(s, run.basis, run.after.value);
    && r.action != NotApplied
    && (r.action == WasDeleted <==> ExactAnswer(s, e, answer) && gone)
    && (r.action == WasRejected <==> !ExactAnswer(s, e, answer) && !(s.resource == SnippetKind && answer.status == 400)
                                     && answer.status in {400, 401, 403, 404, 405, 409, 412, 422, 429})
    && run.basis.actor.Some? && Decoded(run.basis.actor.value).Some? && r.actor == Decoded(run.basis.actor.value).value.id
    && r.attempted && r.status == answer.status && r.acknowledged == ExactAnswer(s, e, answer)
    && (r.postcondition == NotChecked <==> run.after.None?)
    && (r.postcondition == NotFound <==> gone)
    && (r.postcondition == Present <==> run.after.Some? && !missing && Decoded(run.after.value.record).Some?)
    && r.effect == (if s.resource == PipelineKind || s.resource == ReleaseKind then MayHaveHappened else NoEffect)
    && r.tag == (if s.resource != ReleaseKind then NoTag else if gone then TagUnchanged else TagUnverified)
  }

  lemma ReportTells(s: Selection, e: Expected, run: Run)
    requires Ready(s, e, run.basis)
    requires Report(s, e, run).action == WasRejected ==> run.after.None?
    ensures Tells(s, e, run, Report(s, e, run))
  {
    hide RecordMatches;
    if run.after.Some? {
      ShownMeans(s, e, run.basis, run.after.value);
    }
  }

  lemma ShownMeans(s: Selection, e: Expected, b: Basis, a: After)
    requires Ready(s, e, b)
    ensures var shown := Shown(s, e, Decoded(b.actor.value).value, a); var missing := a.record.status == 404 && a.record.failure == Some(404);
      && shown != NotChecked
      && (shown == NotFound <==> missing && Unchanged(s, b, a))
      && (shown == Present <==> !missing && Decoded(a.record).Some?)
  {
    hide RecordMatches;
  }

  // ----- only readings

  ghost predicate NoRequest(events: seq<Event>) {
    forall i :: 0 <= i < |events| ==> !events[i].SentDelete?
  }

  lemma ActorIs(s: Selection, e: Expected, b: Basis)
    requires Ready(s, e, b)
    ensures b.actor.Some? && Decoded(b.actor.value).Some? && Decoded(b.actor.value).value == Actor(Decoded(b.actor.value).value.id, "active")
    ensures FirstMatches(s, e, b)
  {
  }

  /** No acknowledgment carries a refusal's status. */
  lemma NoAcknowledgedRefusal(s: Selection, e: Expected, actor: int, r: Reply<Record>)
    requires Acknowledges(s, e, actor, r) || !Refusal(s.resource, r.status)
    ensures !Refusal(s.resource, r.status)
  {
  }

  function Requests(log: seq<Event>): nat {
    if log == [] then 0 else Requests(log[..|log| - 1]) + if log[|log| - 1].SentDelete? then 1 else 0
  }

  lemma {:induction false} NoRequestCounts(log: seq<Event>)
    requires NoRequest(log)
    ensures Requests(log) == 0
  {
    if log != [] {
      NoRequestCounts(log[..|log| - 1]);
    }
  }

  lemma {:induction false} RequestsAppend(a: seq<Event>, b: seq<Event>)
    ensures Requests(a + b) == Requests(a) + Requests(b)
    decreases |b|
  {
    if b == [] {
      assert a + b == a;
    } else {
      var front := b[..|b| - 1];
      RequestsAppend(a, front);
      assert a + b == a + front + [b[|b| - 1]];
      assert (a + front + [b[|b| - 1]])[..|a + front|] == a + front;
    }
  }

  /** One deletion request, with nothing but readings before and after it. */
  lemma OneRequest(run: Run)
    ensures Requests(Trace(run)) == 1
    ensures NoRequest(Opening(run.basis)) && (run.after.Some? ==> NoRequest(Readings(run.after.value)))
  {
    hide Requests, NoRequest, Opening, Readings;
    OnlyReadings(run.basis, run.after);
    NoRequestCounts(Opening(run.basis));
    OneEvent(SentDelete(run.answer));
    RequestsAppend(Opening(run.basis), [SentDelete(run.answer)]);
    var tail := if run.after.Some? then Readings(run.after.value) else [];
    if run.after.None? {
      assert NoRequest(tail) by { NothingRequested(); }
    }
    NoRequestCounts(tail);
    RequestsAppend(Opening(run.basis) + [SentDelete(run.answer)], tail);
  }

  lemma OnlyReadings(b: Basis, after: Option<After>)
    ensures NoRequest(Opening(b)) && (after.Some? ==> NoRequest(Readings(after.value)))
  {
    hide NoRequest, ActorEvent, ProjectEvent, TagEvent, RecordEvent;
    EachReads(b.actor, b.project, b.tag, b.first);
    EachReads(None, b.again, None, b.second);
    NoneRequests(ActorEvent(b.actor), ProjectEvent(true, b.project));
    NoneRequests(ActorEvent(b.actor) + ProjectEvent(true, b.project), TagEvent(b.tag));
    NoneRequests(ActorEvent(b.actor) + ProjectEvent(true, b.project) + TagEvent(b.tag), RecordEvent(b.first));
    NoneRequests(ActorEvent(b.actor) + ProjectEvent(true, b.project) + TagEvent(b.tag) + RecordEvent(b.first), ProjectEvent(false, b.again));
    NoneRequests(ActorEvent(b.actor) + ProjectEvent(true, b.project) + TagEvent(b.tag) + RecordEvent(b.first) + ProjectEvent(false, b.again),
                 RecordEvent(b.second));
    if after.Some? {
      var a := after.value;
      EachReads(a.actor, a.project, a.tag, Some(a.record));
      RecordEventIs(a.record);
      NoneRequests([ReadRecord(a.record)], ProjectEvent(false, a.project));
      NoneRequests([ReadRecord(a.record)] + ProjectEvent(false, a.project), ActorEvent(a.actor));
      NoneRequests([ReadRecord(a.record)] + ProjectEvent(false, a.project) + ActorEvent(a.actor), TagEvent(a.tag));
    }
  }

  lemma EachReads(actor: Option<Reply<Actor>>, project: Option<Reply<Project>>, tag: Option<Reply<Tag>>, record: Option<Reply<Record>>)
    ensures NoRequest(ActorEvent(actor)) && NoRequest(TagEvent(tag)) && NoRequest(RecordEvent(record))
    ensures NoRequest(ProjectEvent(true, project)) && NoRequest(ProjectEvent(false, project))
  {
  }

  lemma RecordEventIs(record: Reply<Record>)
    ensures RecordEvent(Some(record)) == [ReadRecord(record)]
  {
  }

  lemma NoneRequests(a: seq<Event>, b: seq<Event>)
    requires NoRequest(a) && NoRequest(b)
    ensures NoRequest(a + b)
  {
  }

  lemma NothingRequested()
    ensures NoRequest([])
  {
  }

  lemma OneEvent(e: Event)
    requires e.SentDelete?
    ensures Requests([e]) == 1
  {
    assert [e][..0] == [];
  }
}
