/** Applying a planned issue edit with one write and reading back what happened (internal/product/issue_edit_apply.go). */
module IssueEditApply {
  import opened IssueEdit
  import opened Labels
  import opened Sorting
  import opened Wrappers

  // ----- descriptions that GitLab would run as quick actions

  predicate LineEnd(c: char) {
    c == '\n' || c == '\r'
  }

  /** Only white space stands between the start of the line and position `i`. */
  ghost predicate LeadsLine(space: char -> bool, s: string, i: nat)
    requires i <= |s|
    decreases i
  {
    i == 0 || LineEnd(s[i - 1]) || (space(s[i - 1]) && LeadsLine(space, s, i - 1))
  }

  ghost predicate SlashLine(space: char -> bool, s: string, i: nat)
    requires i <= |s|
  {
    exists k :: 0 <= k < i && s[k] == '/' && LeadsLine(space, s, k)
  }

  method ValidateIssueEditDescription(space: char -> bool, s: string) returns (ok: bool)
    requires !space('/')
    ensures ok <==> !SlashLine(space, s, |s|)
  {
    var leading := true;
    for i := 0 to |s|
      invariant leading == LeadsLine(space, s, i) && !SlashLine(space, s, i)
    {
      if s[i] == '/' && leading {
        return false;
      }
      leading := LineEnd(s[i]) || (leading && space(s[i]));
    }
    return true;
  }

  // ----- the provider

  /** The parts of a response that identify an issue, where present. */
  datatype Fragment = Fragment(id: Option<int>, iid: Option<int>, projectId: Option<int>, url: Option<string>, state: Option<string>)

  /** No answer; one over the read budget; no JSON; or a document with unique names or not, its identity, and the issue in it. */
  datatype Answer = Lost | Oversized | Broken | Document(unique: bool, identity: Option<Fragment>, issue: Option<Issue>)

  /** A complete issue has unique names and all its identity. */
  predicate Coherent(a: Answer) {
    a.Document? && a.issue.Some? ==>
      var i := a.issue.value;
      a.unique && a.identity == Some(Fragment(Some(i.id), Some(i.iid), Some(i.projectId), Some(i.url), Some(i.state)))
  }

  predicate Differs<T(==)>(seen: Option<T>, expected: T) {
    seen.Some? && seen.value != expected
  }

  predicate IdentityConflict(identity: Option<Fragment>, before: Issue) {
    identity.None? || (var f := identity.value;
      Differs(f.id, before.id) || Differs(f.iid, before.iid) || Differs(f.projectId, before.projectId)
      || Differs(f.url, before.url) || Differs(f.state, before.state))
  }

  /** What was read, and when: the issue in the state with that number, or the label catalogue at that time. */
  datatype Sight<T> = Sight(at: nat, value: Option<T>)
  datatype Event = SawIssue(issue: Sight<Issue>) | SawLabels(catalog: Sight<seq<Label>>) | SentPut(sentAt: nat, payload: Payload, answer: Answer)

  function When(e: Event): nat {
    match e
    case SawIssue(s) => s.at
    case SawLabels(s) => s.at
    case SentPut(at, _, _) => at
  }

  /** These calls were made one after the other, from state number `from` on, and each issue that was read is what the issue
      was at that time. */
  ghost predicate Witnessed(events: seq<Event>, from: nat, history: seq<Issue>) {
    && (forall i :: 0 <= i < |events| ==> from <= When(events[i]) < |history|)
    && (forall i, j :: 0 <= i < j < |events| ==> When(events[i]) < When(events[j]))
    && (forall i :: 0 <= i < |events| && events[i].SawIssue? && events[i].issue.value.Some? ==>
          events[i].issue.value.value == history[events[i].issue.at])
  }

  lemma WitnessedAppend(a: seq<Event>, b: seq<Event>, from: nat, then_: seq<Issue>, now: seq<Issue>)
    requires Witnessed(a, from, then_) && Witnessed(b, |then_|, now) && from <= |then_| && then_ <= now
    ensures Witnessed(a + b, from, now)
  {
    hide When;
    var all := a + b;
    forall i | 0 <= i < |all|
      ensures from <= When(all[i]) < |now|
      ensures all[i].SawIssue? && all[i].issue.value.Some? ==> all[i].issue.value.value == now[When(all[i])]
    {
      SawThen(all[i]);
      assert all[i] == if i < |a| then a[i] else b[i - |a|];
    }
    forall i, j | 0 <= i < j < |all| ensures When(all[i]) < When(all[j]) {
      assert all[i] == (if i < |a| then a[i] else b[i - |a|]) && all[j] == if j < |a| then a[j] else b[j - |a|];
    }
    SawThenAll(all);
  }

  lemma SawThen(e: Event)
    ensures e.SawIssue? ==> When(e) == e.issue.at
  {
  }

  lemma SawThenAll(events: seq<Event>)
    ensures forall i :: 0 <= i < |events| && events[i].SawIssue? ==> When(events[i]) == events[i].issue.at
  {
  }

  /** The issue behind the provider, with every state it has been in, and the calls made. Other people may edit it at any time,
      a write may or may not take effect, and its answer may be lost or wrong. */
  class Provider {
    var issue: Issue
    ghost var history: seq<Issue>
    ghost var log: seq<Event>

    ghost predicate Valid()
      reads this
    {
      history != [] && history[|history| - 1] == issue
    }

    constructor (issue: Issue)
      ensures Valid() && this.issue == issue && history == [issue] && log == []
    {
      this.issue, history, log := issue, [issue], [];
    }

    method Others()
      requires Valid()
      modifies this`issue, this`history
      ensures Valid() && old(history) < history
    {
      issue := *;
      history := history + [issue];
    }

    method Put(payload: Payload) returns (answer: Answer, ghost at: nat)
      requires Valid()
      modifies this
      ensures Valid() && old(history) < history && Coherent(answer)
      ensures log == old(log) + [SentPut(at, payload, answer)] && Witnessed([SentPut(at, payload, answer)], |old(history)|, history)
    {
      at := |history|;
      Others();
      answer := *;
      if !Coherent(answer) {
        answer := Broken;
      }
      log := log + [SentPut(at, payload, answer)];
    }

    method ReadIssue() returns (r: Option<Issue>, ghost s: Sight<Issue>)
      requires Valid()
      modifies this
      ensures Valid() && old(history) < history && r == s.value
      ensures log == old(log) + [SawIssue(s)] && Witnessed([SawIssue(s)], |old(history)|, history)
    {
      Others();
      var fails: bool := *;
      r := if fails then None else Some(issue);
      s := Sight(|history| - 1, r);
      log := log + [SawIssue(s)];
    }

    method ReadLabels() returns (r: Option<seq<Label>>, ghost s: Sight<seq<Label>>)
      requires Valid()
      modifies this
      ensures Valid() && old(history) < history && r == s.value
      ensures log == old(log) + [SawLabels(s)] && Witnessed([SawLabels(s)], |old(history)|, history)
    {
      Others();
      r := *;
      s := Sight(|history| - 1, r);
      log := log + [SawLabels(s)];
    }
  }

  ghost function IssueEvent(s: Option<Sight<Issue>>): seq<Event> {
    if s.Some? then [SawIssue(s.value)] else []
  }

  ghost function LabelEvent(s: Option<Sight<seq<Label>>>): seq<Event> {
    if s.Some? then [SawLabels(s.value)] else []
  }

  function Catalog(s: Option<Sight<seq<Label>>>): Option<seq<Label>> {
    if s.Some? then s.value.value else None
  }

  // ----- the protocol

  datatype Outcome = Refused | Updated(issue: Issue) | Reconciled(issue: Issue) | Ambiguous

  /** The write, and what was read after it. */
  datatype Aftermath = Aftermath(sentAt: nat, answer: Answer, reading: Option<Sight<Issue>>, catalog: Option<Sight<seq<Label>>>)

  ghost function Closing(payload: Payload, w: Aftermath): seq<Event> {
    [SentPut(w.sentAt, payload, w.answer)] + IssueEvent(w.reading) + LabelEvent(w.catalog)
  }

  ghost predicate Verified(p: Policy, a: Answer, target: Target, projectId: int, before: Issue, plan: Plan)
    requires before.updatedAt.Some?
  {
    && a.Document? && a.unique && !IdentityConflict(a.identity, before)
    && a.issue.Some? && Poststate(p, a.issue.value, target, projectId, before, plan.desired)
  }

  /** The answer itself shows that something else was edited, or something else was made of it. */
  ghost predicate Unsafe(p: Policy, a: Answer, target: Target, projectId: int, before: Issue, plan: Plan)
    requires before.updatedAt.Some?
  {
    a.Document? && (!a.unique || IdentityConflict(a.identity, before)
                    || (a.issue.Some? && !Poststate(p, a.issue.value, target, projectId, before, plan.desired)))
  }

  ghost predicate Reresolves(p: Policy, catalog: seq<Label>, labels: seq<Label>) {
    && (forall i :: 0 <= i < |labels| ==> Resolvable(p, catalog, NamesOf(labels)[i]))
    && Sort(Picked(p, catalog, NamesOf(labels)), LabelLeq) == labels
  }

  /** The requested labels still are the same catalogue entries. */
  ghost predicate LabelsConfirmed(p: Policy, catalog: Option<seq<Label>>, add: seq<Label>, remove: seq<Label>) {
    |add| + |remove| > 0 ==> catalog.Some? && Reresolves(p, catalog.value, add) && Reresolves(p, catalog.value, remove)
  }

  method JudgeAnswer(p: Policy, a: Answer, target: Target, projectId: int, before: Issue, plan: Plan) returns (verified: bool, unsafe: bool)
    requires before.updatedAt.Some? && Coherent(a)
    ensures verified <==> Verified(p, a, target, projectId, before, plan)
    ensures unsafe <==> Unsafe(p, a, target, projectId, before, plan)
  {
    hide Poststate;
    verified, unsafe := false, false;
    if a.Document? {
      unsafe := !a.unique || IdentityConflict(a.identity, before);
      if a.issue.Some? && !unsafe {
        var ok := ValidateIssueEditPoststate(p, a.issue.value, target, projectId, before, plan);
        verified := ok;
        unsafe := !ok;
      }
    }
  }

  method ConfirmLabels(p: Policy, provider: Provider, add: seq<Label>, remove: seq<Label>)
    returns (ok: bool, ghost catalog: Option<Sight<seq<Label>>>)
    requires provider.Valid()
    modifies provider
    ensures provider.Valid() && old(provider.history) <= provider.history
    ensures provider.log == old(provider.log) + LabelEvent(catalog)
    ensures Witnessed(LabelEvent(catalog), |old(provider.history)|, provider.history)
    ensures catalog.Some? <==> |add| + |remove| > 0
    ensures ok <==> LabelsConfirmed(p, Catalog(catalog), add, remove)
  {
    hide Sort, Resolvable, Witnessed;
    catalog := None;
    if |add| + |remove| == 0 {
      NothingSeen(|provider.history|, provider.history);
      return true, catalog;
    }
    var read, sight := provider.ReadLabels();
    catalog := Some(sight);
    if read.None? {
      return false, catalog;
    }
    var actualAdd := ResolveIssueEditLabels(p, read.value, NamesOf(add));
    if actualAdd.None? {
      return false, catalog;
    }
    var actualRemove := ResolveIssueEditLabels(p, read.value, NamesOf(remove));
    if actualRemove.None? {
      return false, catalog;
    }
    return add == actualAdd.value && remove == actualRemove.value, catalog;
  }

  lemma NothingSeen(from: nat, history: seq<Issue>)
    ensures Witnessed([], from, history)
  {
  }

  /** The issue was read back in the planned state. */
  ghost predicate ReadBack(p: Policy, target: Target, projectId: int, before: Issue, plan: Plan, w: Aftermath)
    requires before.updatedAt.Some?
  {
    w.reading.Some? && w.reading.value.value.Some? && Poststate(p, w.reading.value.value.value, target, projectId, before, plan.desired)
  }

  /** What a write is reported to have done, from its answer and from what was read after it; `late` says whether the time for
      that ran out. */
  ghost function Concluded(p: Policy, target: Target, projectId: int, before: Issue, plan: Plan, add: seq<Label>, remove: seq<Label>,
      w: Aftermath, late: bool): Outcome
    requires before.updatedAt.Some?
  {
    if ReadBack(p, target, projectId, before, plan, w) && LabelsConfirmed(p, Catalog(w.catalog), add, remove) && !late
       && !Unsafe(p, w.answer, target, projectId, before, plan) then
      if Verified(p, w.answer, target, projectId, before, plan) then Updated(w.reading.value.value.value) else Reconciled(w.reading.value.value.value)
    else Ambiguous
  }

  /** What a report says of the answer and the readings: ambiguous exactly if the issue was not read back as planned in time with the
      same labels, or the answer speaks against it; otherwise the issue read back, updated exactly if the answer held an issue. */
  ghost predicate Tells(p: Policy, target: Target, projectId: int, before: Issue, plan: Plan, add: seq<Label>, remove: seq<Label>,
      w: Aftermath, late: bool, outcome: Outcome)
    requires before.updatedAt.Some?
  {
    var against := w.answer.Document? && (!w.answer.unique || IdentityConflict(w.answer.identity, before)
      || (w.answer.issue.Some? && !Poststate(p, w.answer.issue.value, target, projectId, before, plan.desired)));
    var done := !late && !against && LabelsConfirmed(p, Catalog(w.catalog), add, remove)
      && w.reading.Some? && w.reading.value.value.Some? && Poststate(p, w.reading.value.value.value, target, projectId, before, plan.desired);
    && !outcome.Refused?
    && (outcome.Ambiguous? <==> !done)
    && (outcome.Updated? <==> done && w.answer.Document? && w.answer.issue.Some?)
    && (done && !outcome.Refused? && !outcome.Ambiguous? ==> outcome.issue == w.reading.value.value.value)
  }

  lemma ConcludedTells(p: Policy, target: Target, projectId: int, before: Issue, plan: Plan, add: seq<Label>, remove: seq<Label>,
      w: Aftermath, late: bool)
    requires before.updatedAt.Some?
    ensures Tells(p, target, projectId, before, plan, add, remove, w, late, Concluded(p, target, projectId, before, plan, add, remove, w, late))
  {
    hide Poststate, LabelsConfirmed, IdentityConflict;
  }

  /** When a run is cut short: before the plan is shown, before the write (or no private file could be made), after the write,
      and after the last reading. */
  datatype Cuts = Cuts(atPlan: bool, atWrite: bool, afterWrite: bool, atEnd: bool)

  /** Everything read after the write, and nothing that need not be. */
  ghost predicate ReadsAfter(p: Policy, target: Target, projectId: int, before: Issue, plan: Plan, add: seq<Label>, remove: seq<Label>,
      w: Aftermath, cuts: Cuts)
    requires before.updatedAt.Some?
  {
    && (w.reading.None? <==> cuts.afterWrite)
    && (w.catalog.Some? <==> ReadBack(p, target, projectId, before, plan, w) && |add| + |remove| > 0)
  }

  /** One write at most, and none exactly when the description could run as a quick action or the run is cut short; success is
      reported only on a later reading of the issue itself, and then always, unless something speaks against it. */
  method ApplyIssueEdit(p: Policy, space: char -> bool, provider: Provider, target: Target, projectId: int, before: Issue, plan: Plan,
      add: seq<Label>, remove: seq<Label>, cuts: Cuts) returns (outcome: Outcome, ghost write: Option<Aftermath>)
    requires provider.Valid() && before.updatedAt.Some? && !space('/')
    modifies provider
    ensures provider.Valid() && old(provider.history) <= provider.history
    ensures outcome.Refused? <==> cuts.atWrite || SlashLine(space, plan.desired.description, |plan.desired.description|)
    ensures write.None? <==> outcome.Refused?
    ensures write.None? ==> provider.log == old(provider.log) && provider.history == old(provider.history)
    ensures write.Some? ==> provider.log == old(provider.log) + Closing(plan.payload, write.value)
    ensures write.Some? ==> Witnessed(Closing(plan.payload, write.value), |old(provider.history)|, provider.history)
    ensures write.Some? ==> ReadsAfter(p, target, projectId, before, plan, add, remove, write.value, cuts)
    ensures write.Some? ==> outcome == Concluded(p, target, projectId, before, plan, add, remove, write.value, cuts.afterWrite || cuts.atEnd)
    ensures write.Some? ==> Tells(p, target, projectId, before, plan, add, remove, write.value, cuts.afterWrite || cuts.atEnd, outcome)
  {
    hide Poststate, Verified, Unsafe, LabelsConfirmed, SlashLine, Coherent, Witnessed, Tells;
    write := None;
    var plain := ValidateIssueEditDescription(space, plan.desired.description);
    if !plain || cuts.atWrite {
      return Refused, write;
    }
    var answer, sentAt := provider.Put(plan.payload);
    write := Some(Aftermath(sentAt, answer, None, None));
    assert Closing(plan.payload, write.value) == [SentPut(sentAt, plan.payload, answer)];
    var verified, unsafe := JudgeAnswer(p, answer, target, projectId, before, plan);
    if cuts.afterWrite {
      ConcludedTells(p, target, projectId, before, plan, add, remove, write.value, true);
      return Ambiguous, write;
    }
    ghost var then_ := provider.history;
    var canonical, sight := provider.ReadIssue();
    WitnessedAppend([SentPut(sentAt, plan.payload, answer)], [SawIssue(sight)], |old(provider.history)|, then_, provider.history);
    write := Some(write.value.(reading := Some(sight)));
    assert Closing(plan.payload, write.value) == [SentPut(sentAt, plan.payload, answer)] + [SawIssue(sight)];
    if canonical.None? {
      ConcludedTells(p, target, projectId, before, plan, add, remove, write.value, cuts.atEnd);
      return Ambiguous, write;
    }
    var ok := ValidateIssueEditPoststate(p, canonical.value, target, projectId, before, plan);
    if !ok {
      ConcludedTells(p, target, projectId, before, plan, add, remove, write.value, cuts.atEnd);
      return Ambiguous, write;
    }
    then_ := provider.history;
    var confirmed, catalog := ConfirmLabels(p, provider, add, remove);
    WitnessedAppend([SentPut(sentAt, plan.payload, answer)] + [SawIssue(sight)], LabelEvent(catalog), |old(provider.history)|, then_, provider.history);
    write := Some(write.value.(catalog := catalog));
    ConcludedTells(p, target, projectId, before, plan, add, remove, write.value, cuts.atEnd);
    if !confirmed || cuts.atEnd || unsafe {
      return Ambiguous, write;
    }
    return if verified then Updated(canonical.value) else Reconciled(canonical.value), write;
  }

  // ----- the whole command

  datatype Edit = Failed | Preview(plan: Plan) | Unchanged | NeedsNative | Applied(outcome: Outcome)

  ghost predicate Expected(p: Policy, r: Issue, target: Target, projectId: int, iid: int, id: int, url: string, state: string, at: int) {
    Identity(p, r, target, projectId, iid, id, url, state) && r.updatedAt == Some(at)
  }

  method ValidateIssueEditExpected(p: Policy, r: Issue, target: Target, projectId: int, iid: int, id: int, url: string, state: string, at: int)
    returns (ok: bool)
    ensures ok <==> Expected(p, r, target, projectId, iid, id, url, state, at)
  {
    hide Identity;
    var same := ValidateIssueEditIdentity(p, r, target, projectId, iid, id, url, state);
    return same && r.updatedAt == Some(at);
  }

  /** Two readings of one issue in one state; labels may come in any order. */
  ghost predicate SameIssue(p: Policy, a: Issue, b: Issue) {
    a == b.(labels := a.labels) && a.updatedAt.Some? && Canonical(p, a.labels) && Canonical(p, b.labels) && Names(a.labels) == Names(b.labels)
  }

  method SameIssueEditSnapshot(p: Policy, a: Issue, b: Issue) returns (ok: bool)
    ensures ok <==> SameIssue(p, a, b)
  {
    hide Canonical, Sort;
    if a != b.(labels := a.labels) || a.updatedAt.None? {
      return false;
    }
    var left := CanonicalIssueEditLabels(p, a.labels);
    var right := CanonicalIssueEditLabels(p, b.labels);
    if left.None? || right.None? {
      return false;
    }
    SortedFormsAgree(p, a.labels, b.labels);
    NamesEqual(a.labels, b.labels);
    return left.value == right.value;
  }

  /** Every requested label resolves, if there are any. */
  ghost predicate Resolves(p: Policy, catalog: Option<seq<Label>>, add: seq<string>, remove: seq<string>) {
    |add| + |remove| == 0 || (catalog.Some?
      && (forall i :: 0 <= i < |add| ==> Resolvable(p, catalog.value, add[i]))
      && (forall i :: 0 <= i < |remove| ==> Resolvable(p, catalog.value, remove[i])))
  }

  ghost function Resolved(p: Policy, catalog: Option<seq<Label>>, names: seq<string>): seq<Label>
    requires names == [] || (catalog.Some? && forall i :: 0 <= i < |names| ==> Resolvable(p, catalog.value, names[i]))
  {
    if catalog.None? then [] else Sort(Picked(p, catalog.value, names), LabelLeq)
  }

  /** Resolves a request against the catalogue, unless it names no labels. */
  method ResolveRequest(p: Policy, provider: Provider, add: seq<string>, remove: seq<string>)
    returns (ok: bool, added: seq<Label>, removed: seq<Label>, ghost catalog: Option<Sight<seq<Label>>>)
    requires provider.Valid() && Requested(p, add, remove)
    modifies provider
    ensures provider.Valid() && old(provider.history) <= provider.history
    ensures provider.log == old(provider.log) + LabelEvent(catalog)
    ensures Witnessed(LabelEvent(catalog), |old(provider.history)|, provider.history)
    ensures catalog.Some? <==> |add| + |remove| > 0
    ensures ok <==> Resolves(p, Catalog(catalog), add, remove)
    ensures ok ==> added == Resolved(p, Catalog(catalog), add) && removed == Resolved(p, Catalog(catalog), remove)
    ensures ok ==> multiset(NamesOf(added)) == multiset(add) && multiset(NamesOf(removed)) == multiset(remove)
  {
    hide Sort, Resolvable, Requested, Picked, Witnessed;
    ok, added, removed, catalog := false, [], [], None;
    if |add| + |remove| == 0 {
      NothingSeen(|provider.history|, provider.history);
      ok := true;
      return;
    }
    var read, sight := provider.ReadLabels();
    catalog := Some(sight);
    if read.None? {
      return;
    }
    var someAdd := ResolveIssueEditLabels(p, read.value, add);
    if someAdd.None? {
      return;
    }
    var someRemove := ResolveIssueEditLabels(p, read.value, remove);
    if someRemove.None? {
      return;
    }
    ResolvedNames(p, read.value, add);
    ResolvedNames(p, read.value, remove);
    ok, added, removed := true, someAdd.value, someRemove.value;
  }

  /** What a reported success means for the caller. */
  ghost predicate Delivered(p: Policy, before: Issue, requested: Request, add: seq<string>, remove: seq<string>, actual: Issue) {
    && actual.id == before.id && actual.iid == before.iid && actual.projectId == before.projectId
    && actual.url == before.url && actual.state == before.state
    && actual.title == Wanted(before.title, requested.title)
    && actual.description == Wanted(before.description, requested.description)
    && Names(actual.labels) == DesiredNames(before.labels, add, remove)
  }

  /** What the caller selects, expects to find, and asks for. */
  datatype Ask = Ask(target: Target, projectId: int, iid: int, url: string, state: string, at: int,
                     requested: Request, add: seq<string>, remove: seq<string>)

  datatype Preparation = NotPrepared | Prepared(before: Issue, adjacent: Issue, plan: Plan, add: seq<Label>, remove: seq<Label>)

  /** The readings made before a write, in order: the issue, the catalogue if labels are named, and both once more. */
  datatype Readings = Readings(first: Option<Sight<Issue>>, catalog: Option<Sight<seq<Label>>>,
                               second: Option<Sight<Issue>>, again: Option<Sight<seq<Label>>>)

  ghost function Opening(g: Readings): seq<Event> {
    IssueEvent(g.first) + LabelEvent(g.catalog) + IssueEvent(g.second) + LabelEvent(g.again)
  }

  ghost predicate AsExpected(p: Policy, k: Ask, id: int, s: Option<Sight<Issue>>) {
    s.Some? && s.value.value.Some? && Expected(p, s.value.value.value, k.target, k.projectId, k.iid, id, k.url, k.state, k.at)
  }

  /** The first reading of the issue and of the catalogue allow a plan. */
  ghost predicate Planned(p: Policy, k: Ask, g: Readings) {
    && AsExpected(p, k, 0, g.first)
    && (g.catalog.Some? <==> |k.add| + |k.remove| > 0) && Resolves(p, Catalog(g.catalog), k.add, k.remove)
    && Plannable(p, g.first.value.value.value, NamesOf(Resolved(p, Catalog(g.catalog), k.add)), NamesOf(Resolved(p, Catalog(g.catalog), k.remove)))
  }

  ghost predicate SameAgain(p: Policy, k: Ask, first: Issue, second: Option<Sight<Issue>>) {
    AsExpected(p, k, first.id, second) && SameIssue(p, first, second.value.value.value)
  }

  ghost predicate SameLabels(p: Policy, k: Ask, catalog: Option<seq<Label>>, again: Option<seq<Label>>) {
    && Resolves(p, catalog, k.add, k.remove) && Resolves(p, again, k.add, k.remove)
    && Resolved(p, again, k.add) == Resolved(p, catalog, k.add) && Resolved(p, again, k.remove) == Resolved(p, catalog, k.remove)
  }

  /** Two matching readings of the expected revision, on which a plan can be made, and the same labels twice. */
  ghost predicate InOrder(p: Policy, k: Ask, g: Readings) {
    && Planned(p, k, g) && SameAgain(p, k, g.first.value.value.value, g.second)
    && (g.again.Some? <==> |k.add| + |k.remove| > 0) && SameLabels(p, k, Catalog(g.catalog), Catalog(g.again))
  }

  /** A reading that was made is missing, unexpected, cannot be planned on, or differs from the one before. */
  ghost predicate Unready(p: Policy, k: Ask, g: Readings) {
    g.first.Some? && (
      || !AsExpected(p, k, 0, g.first)
      || ((g.catalog.Some? || |k.add| + |k.remove| == 0) && !Planned(p, k, g))
      || (g.second.Some? && !SameAgain(p, k, g.first.value.value.value, g.second))
      || (g.again.Some? && !SameLabels(p, k, Catalog(g.catalog), Catalog(g.again))))
  }

  /** What is prepared for the write comes from those readings. */
  ghost predicate Ready(p: Policy, k: Ask, g: Readings, r: Preparation) {
    && r.Prepared? && InOrder(p, k, g)
    && r.before == g.first.value.value.value && r.adjacent == g.second.value.value.value
    && r.add == Resolved(p, Catalog(g.catalog), k.add) && r.remove == Resolved(p, Catalog(g.catalog), k.remove)
    && PlansRequest(p, r.before, k.requested, k.add, k.remove, r.plan)
  }

  /** The issue, the catalogue and a plan for the request. */
  method MakePlan(p: Policy, provider: Provider, k: Ask) returns (r: Option<(Issue, Plan)>, added: seq<Label>, removed: seq<Label>, ghost g: Readings)
    requires provider.Valid() && Requested(p, k.add, k.remove)
    modifies provider
    ensures provider.Valid() && old(provider.history) <= provider.history
    ensures provider.log == old(provider.log) + Opening(g) && Witnessed(Opening(g), |old(provider.history)|, provider.history)
    ensures g.first.Some? && g.second.None? && g.again.None?
    ensures r.Some? <==> Planned(p, k, g)
    ensures r.None? <==> Unready(p, k, g)
    ensures r.Some? ==> r.value.0 == g.first.value.value.value && PlansRequest(p, r.value.0, k.requested, k.add, k.remove, r.value.1)
    ensures r.Some? ==> added == Resolved(p, Catalog(g.catalog), k.add) && removed == Resolved(p, Catalog(g.catalog), k.remove)
  {
    hide Requested, Canonical, Plannable, Plans, Expected, PlansRequest, Resolves, Resolved, Sort, Witnessed;
    r, added, removed := None, [], [];
    var first, sight := provider.ReadIssue();
    g := Readings(Some(sight), None, None, None);
    assert Opening(g) == [SawIssue(sight)];
    if first.None? {
      return;
    }
    var expected := ValidateIssueEditExpected(p, first.value, k.target, k.projectId, k.iid, 0, k.url, k.state, k.at);
    if !expected {
      return;
    }
    ghost var then_ := provider.history;
    var resolved, someAdded, someRemoved, catalog := ResolveRequest(p, provider, k.add, k.remove);
    WitnessedAppend([SawIssue(sight)], LabelEvent(catalog), |old(provider.history)|, then_, provider.history);
    g := g.(catalog := catalog);
    assert Opening(g) == [SawIssue(sight)] + LabelEvent(catalog);
    if !resolved {
      return;
    }
    added, removed := someAdded, someRemoved;
    RequestedArranged(p, k.add, k.remove, NamesOf(added), NamesOf(removed));
    var plan := BuildIssueEditPlan(p, first.value, k.requested, added, removed);
    if plan.None? {
      return;
    }
    SameRequest(p, first.value, k.requested, k.add, k.remove, NamesOf(added), NamesOf(removed), plan.value);
    r := Some((first.value, plan.value));
  }

  /** The issue and the catalogue once more; both must be as before. */
  method ReadAgain(p: Policy, provider: Provider, k: Ask, first: Issue, added: seq<Label>, removed: seq<Label>, ghost catalog: Option<seq<Label>>)
    returns (r: Option<Issue>, ghost second: Option<Sight<Issue>>, ghost again: Option<Sight<seq<Label>>>)
    requires provider.Valid() && Requested(p, k.add, k.remove) && Resolves(p, catalog, k.add, k.remove)
    requires added == Resolved(p, catalog, k.add) && removed == Resolved(p, catalog, k.remove)
    modifies provider
    ensures provider.Valid() && old(provider.history) <= provider.history
    ensures provider.log == old(provider.log) + (IssueEvent(second) + LabelEvent(again))
    ensures Witnessed(IssueEvent(second) + LabelEvent(again), |old(provider.history)|, provider.history)
    ensures second.Some?
    ensures r.Some? <==> SameAgain(p, k, first, second) && (again.Some? <==> |k.add| + |k.remove| > 0) && SameLabels(p, k, catalog, Catalog(again))
    ensures r.None? <==> !SameAgain(p, k, first, second) || (again.Some? && !SameLabels(p, k, catalog, Catalog(again)))
    ensures r.Some? ==> r == second.value.value
  {
    hide Requested, Canonical, Expected, SameIssue, Resolves, Resolved, Sort, Witnessed;
    r, again := None, None;
    var issue, sight := provider.ReadIssue();
    second := Some(sight);
    assert IssueEvent(second) + LabelEvent(again) == [SawIssue(sight)];
    if issue.None? {
      return;
    }
    var expected := ValidateIssueEditExpected(p, issue.value, k.target, k.projectId, k.iid, first.id, k.url, k.state, k.at);
    if !expected {
      return;
    }
    var same := SameIssueEditSnapshot(p, first, issue.value);
    if !same {
      return;
    }
    ghost var then_ := provider.history;
    var resolved, finalAdd, finalRemove, catalogAgain := ResolveRequest(p, provider, k.add, k.remove);
    WitnessedAppend([SawIssue(sight)], LabelEvent(catalogAgain), |old(provider.history)|, then_, provider.history);
    again := catalogAgain;
    if |k.add| + |k.remove| == 0 {
      NothingResolved(p, k, catalog, Catalog(again));
    }
    if resolved && finalAdd == added && finalRemove == removed {
      r := issue;
    }
  }

  lemma NothingResolved(p: Policy, k: Ask, a: Option<seq<Label>>, b: Option<seq<Label>>)
    requires |k.add| + |k.remove| == 0
    ensures SameLabels(p, k, a, b)
  {
  }

  /** Everything before the write. It prepares none exactly when a reading is not in order or the run is cut short. */
  method Prepare(p: Policy, provider: Provider, k: Ask, cuts: Cuts) returns (r: Preparation, ghost g: Readings)
    requires provider.Valid() && Requested(p, k.add, k.remove)
    modifies provider
    ensures provider.Valid() && old(provider.history) <= provider.history
    ensures provider.log == old(provider.log) + Opening(g) && Witnessed(Opening(g), |old(provider.history)|, provider.history)
    ensures r.Prepared? <==> InOrder(p, k, g) && !cuts.atPlan
    ensures r.NotPrepared? <==> Unready(p, k, g) || (InOrder(p, k, g) && cuts.atPlan)
    ensures r.Prepared? ==> Ready(p, k, g, r)
  {
    hide *;
    r := NotPrepared;
    var made, added, removed, start := MakePlan(p, provider, k);
    g := start;
    ghost var then_ := provider.history;
    Continues(p, k, start, start);
    if made.None? {
      return;
    }
    var first, plan := made.value.0, made.value.1;
    var adjacent, second, again := ReadAgain(p, provider, k, first, added, removed, Catalog(start.catalog));
    g := g.(second := second, again := again);
    Continues(p, k, start, g);
    WitnessedAppend(Opening(start), IssueEvent(second) + LabelEvent(again), |old(provider.history)|, then_, provider.history);
    assert old(provider.log) + Opening(start) + (IssueEvent(second) + LabelEvent(again)) == old(provider.log) + Opening(g);
    if adjacent.Some? && !cuts.atPlan {
      r := Prepared(first, adjacent.value, plan, added, removed);
      ReadyBy(p, k, g, r);
    }
  }

  lemma Continues(p: Policy, k: Ask, start: Readings, g: Readings)
    requires start.first.Some? && start.second.None? && start.again.None? && g == start.(second := g.second, again := g.again)
    requires Planned(p, k, start) <==> !Unready(p, k, start)
    ensures Planned(p, k, start) ==> start.first.value.value.Some? && Resolves(p, Catalog(start.catalog), k.add, k.remove)
    ensures InOrder(p, k, g) <==> (
      && Planned(p, k, start) && SameAgain(p, k, start.first.value.value.value, g.second)
      && (g.again.Some? <==> |k.add| + |k.remove| > 0) && SameLabels(p, k, Catalog(g.catalog), Catalog(g.again)))
    ensures Planned(p, k, start) && g.second.Some? ==> (Unready(p, k, g) <==>
      !SameAgain(p, k, start.first.value.value.value, g.second) || (g.again.Some? && !SameLabels(p, k, Catalog(g.catalog), Catalog(g.again))))
    ensures !Planned(p, k, start) && g == start ==> !InOrder(p, k, g)
    ensures Opening(g) == Opening(start) + (IssueEvent(g.second) + LabelEvent(g.again))
  {
    hide Expected, Resolves, Resolved, Plannable, SameIssue, Catalog;
  }

  lemma ReadyBy(p: Policy, k: Ask, g: Readings, r: Preparation)
    requires r.Prepared? && InOrder(p, k, g) && Some(r.before) == g.first.value.value && Some(r.adjacent) == g.second.value.value
    requires r.add == Resolved(p, Catalog(g.catalog), k.add) && r.remove == Resolved(p, Catalog(g.catalog), k.remove)
    requires PlansRequest(p, r.before, k.requested, k.add, k.remove, r.plan)
    ensures Ready(p, k, g, r)
  {
    hide Resolves, Resolved, PlansRequest;
  }

  /** Every call of a run, in order. */
  ghost function Trace(g: Readings, plan: Plan, write: Option<Aftermath>): seq<Event> {
    Opening(g) + if write.Some? then Closing(plan.payload, write.value) else []
  }

  /** The issue was what was read twice before the write and once after it, each at its time during the run. */
  ghost predicate ReadInTime(g: Readings, w: Aftermath, from: nat, history: seq<Issue>, before: Issue, adjacent: Issue, actual: Issue) {
    && g.first.Some? && g.second.Some? && w.reading.Some?
    && from <= g.first.value.at < g.second.value.at < w.sentAt < w.reading.value.at < |history|
    && history[g.first.value.at] == before && history[g.second.value.at] == adjacent && history[w.reading.value.at] == actual
  }

  lemma TraceInTime(g: Readings, plan: Plan, w: Aftermath, from: nat, history: seq<Issue>)
    requires Witnessed(Trace(g, plan, Some(w)), from, history)
    requires g.first.Some? && g.first.value.value.Some? && g.second.Some? && g.second.value.value.Some?
    requires w.reading.Some? && w.reading.value.value.Some?
    ensures ReadInTime(g, w, from, history, g.first.value.value.value, g.second.value.value.value, w.reading.value.value.value)
  {
    var t := Trace(g, plan, Some(w));
    var j, n := 1 + |LabelEvent(g.catalog)|, |Opening(g)|;
    assert t[0] == SawIssue(g.first.value) && t[j] == SawIssue(g.second.value);
    assert t[n] == SentPut(w.sentAt, plan.payload, w.answer) && t[n + 1] == SawIssue(w.reading.value);
  }

  /** issue edit: at most one write, after two matching readings of the expected revision, reported done only when a later
      reading shows the issue with everything requested and nothing else. */
  method ExecuteIssueEdit(p: Policy, space: char -> bool, provider: Provider, k: Ask, dryRun: bool, native: bool, cuts: Cuts)
    returns (edit: Edit, ghost basis: Preparation, ghost g: Readings, ghost write: Option<Aftermath>)
    requires provider.Valid() && !space('/') && Requested(p, k.add, k.remove)
    modifies provider
    ensures provider.Valid() && old(provider.history) <= provider.history
    ensures edit.Failed? <==> Unready(p, k, g) || (InOrder(p, k, g) && cuts.atPlan)
    ensures !edit.Failed? ==> Ready(p, k, g, basis)
    ensures edit.Failed? ==> write.None? && provider.log == old(provider.log) + Opening(g)
    ensures !edit.Failed? ==> edit == (if dryRun then Preview(basis.plan) else if basis.plan.changed == [] then Unchanged
      else if !native then NeedsNative else Applied(if write.None? then Refused
      else Concluded(p, k.target, k.projectId, basis.adjacent, basis.plan, basis.add, basis.remove, write.value, cuts.afterWrite || cuts.atEnd)))
    ensures edit.Applied? && write.Some? ==> Tells(p, k.target, k.projectId, basis.adjacent, basis.plan, basis.add, basis.remove, write.value,
                                                  cuts.afterWrite || cuts.atEnd, edit.outcome)
    ensures write.Some? <==> edit.Applied? && !cuts.atWrite && !SlashLine(space, basis.plan.desired.description, |basis.plan.desired.description|)
    ensures write.Some? ==> ReadsAfter(p, k.target, k.projectId, basis.adjacent, basis.plan, basis.add, basis.remove, write.value, cuts)
    ensures !edit.Failed? ==> provider.log == old(provider.log) + Trace(g, basis.plan, write)
    ensures !edit.Failed? ==> Witnessed(Trace(g, basis.plan, write), |old(provider.history)|, provider.history)
    ensures edit.Applied? && (edit.outcome.Updated? || edit.outcome.Reconciled?) ==>
      ReadInTime(g, write.value, |old(provider.history)|, provider.history, basis.before, basis.adjacent, edit.outcome.issue)
      && Delivered(p, basis.before, k.requested, k.add, k.remove, edit.outcome.issue)
  {
    hide *;
    var r, read := Prepare(p, provider, k, cuts);
    basis, g, write := r, read, None;
    ghost var then_ := provider.history;
    if r.NotPrepared? {
      return Failed, basis, g, write;
    }
    NoWriteYet(g, r.plan);
    ReadyToApply(p, k, g, r);
    if dryRun {
      return Preview(r.plan), basis, g, write;
    }
    if r.plan.changed == [] {
      return Unchanged, basis, g, write;
    }
    if !native {
      return NeedsNative, basis, g, write;
    }
    var outcome, after := ApplyIssueEdit(p, space, provider, k.target, k.projectId, r.adjacent, r.plan, r.add, r.remove, cuts);
    write := after;
    if after.Some? {
      WitnessedAppend(Opening(g), Closing(r.plan.payload, after.value), |old(provider.history)|, then_, provider.history);
      TraceIs(old(provider.log), g, r.plan, after.value);
      Succeeds(p, k, g, r, after.value, cuts.afterWrite || cuts.atEnd, |old(provider.history)|, provider.history);
    }
    edit := Applied(outcome);
  }

  lemma NoWriteYet(g: Readings, plan: Plan)
    ensures Trace(g, plan, None) == Opening(g)
  {
    hide Opening;
  }

  lemma TraceIs(log: seq<Event>, g: Readings, plan: Plan, w: Aftermath)
    ensures log + Opening(g) + Closing(plan.payload, w) == log + Trace(g, plan, Some(w))
    ensures Opening(g) + Closing(plan.payload, w) == Trace(g, plan, Some(w))
  {
    hide Opening, Closing;
  }

  /** A reported success rests on three readings of the issue at their times, the last in the state that was asked for. */
  lemma Succeeds(p: Policy, k: Ask, g: Readings, r: Preparation, w: Aftermath, late: bool, from: nat, history: seq<Issue>)
    requires Ready(p, k, g, r) && r.adjacent.updatedAt.Some? && Witnessed(Trace(g, r.plan, Some(w)), from, history)
    ensures var outcome := Concluded(p, k.target, k.projectId, r.adjacent, r.plan, r.add, r.remove, w, late);
      !outcome.Refused? && (outcome.Updated? || outcome.Reconciled? ==>
        ReadInTime(g, w, from, history, r.before, r.adjacent, outcome.issue) && Delivered(p, r.before, k.requested, k.add, k.remove, outcome.issue))
  {
    hide Witnessed, Trace, ReadInTime, Delivered, Poststate, LabelsConfirmed, Unsafe, Verified, PlansRequest, Planned, SameLabels, Expected, SameIssue;
    ReadyToApply(p, k, g, r);
    var outcome := Concluded(p, k.target, k.projectId, r.adjacent, r.plan, r.add, r.remove, w, late);
    if outcome.Updated? || outcome.Reconciled? {
      TraceInTime(g, r.plan, w, from, history);
      SuccessDelivers(p, r.before, r.adjacent, k.requested, k.add, k.remove, r.plan, k.target, k.projectId, outcome.issue);
    }
  }

  lemma ReadyToApply(p: Policy, k: Ask, g: Readings, r: Preparation)
    requires Ready(p, k, g, r)
    ensures r.adjacent.updatedAt.Some? && r.before.id > 0 && r.before.projectId == k.projectId
    ensures g.first.Some? && g.first.value.value == Some(r.before) && g.second.Some? && g.second.value.value == Some(r.adjacent)
    ensures SameIssue(p, r.before, r.adjacent) && PlansRequest(p, r.before, k.requested, k.add, k.remove, r.plan)
  {
    hide Canonical, PlansRequest, Resolves, Resolved, Plannable, SameLabels;
  }

  /** The plan serves the request as the caller put it. */
  ghost predicate PlansRequest(p: Policy, record: Issue, requested: Request, add: seq<string>, remove: seq<string>, plan: Plan) {
    exists add', remove' :: multiset(add') == multiset(add) && multiset(remove') == multiset(remove)
      && Plans(p, record, requested, add', remove', plan)
  }

  lemma SameRequest(p: Policy, record: Issue, requested: Request, add: seq<string>, remove: seq<string>, add': seq<string>, remove': seq<string>, plan: Plan)
    requires multiset(add') == multiset(add) && multiset(remove') == multiset(remove) && Plans(p, record, requested, add', remove', plan)
    ensures PlansRequest(p, record, requested, add, remove, plan)
  {
  }

  lemma NamesOfArranged(a: seq<string>, b: seq<string>)
    requires multiset(a) == multiset(b)
    ensures Names(a) == Names(b)
  {
    forall x ensures x in Names(a) <==> x in Names(b) {
      assert x in multiset(a) <==> x in a;
      assert x in multiset(b) <==> x in b;
    }
  }

  /** A later reading in the planned state is the request delivered. */
  lemma SuccessDelivers(p: Policy, before: Issue, adjacent: Issue, requested: Request, add: seq<string>, remove: seq<string>, plan: Plan,
      target: Target, projectId: int, actual: Issue)
    requires SameIssue(p, before, adjacent) && adjacent.updatedAt.Some? && before.id > 0 && before.projectId == projectId
    requires PlansRequest(p, before, requested, add, remove, plan)
    requires Poststate(p, actual, target, projectId, adjacent, plan.desired)
    ensures Delivered(p, before, requested, add, remove, actual)
  {
    hide Canonical, Attached;
    var add', remove' :| multiset(add') == multiset(add) && multiset(remove') == multiset(remove)
      && Plans(p, before, requested, add', remove', plan);
    NamesOfArranged(add', add);
    NamesOfArranged(remove', remove);
  }
}
