/** Planning an issue edit and judging its result (internal/product/commands_issue_edit.go, issue_edit_apply.go). */
module IssueEdit {
  import opened Arrangements
  import opened Fields
  import opened Labels
  import opened Sorting
  import opened Wrappers

  const MAX_TITLE_BYTES := 1024
  const MAX_DESCRIPTION_BYTES := 128 * 1024

  /** An update instant is None when it is missing or zero. */
  datatype Issue = Issue(id: int, iid: int, projectId: int, url: string, state: string, updatedAt: Option<int>,
                         title: string, description: string, labels: seq<string>)
  datatype Request = Request(title: Option<string>, description: Option<string>)
  datatype Payload = Payload(title: Option<string>, description: Option<string>, addLabels: string, removeLabels: string)
  datatype Plan = Plan(changed: seq<string>, payload: Payload, desired: Issue)

  // ----- what a request asks for

  ghost function Names(s: seq<string>): set<string> {
    set x | x in s
  }

  ghost function DesiredNames(attached: seq<string>, add: seq<string>, remove: seq<string>): set<string> {
    Names(attached) - Names(remove) + Names(add)
  }

  /** The names of a list that are, or are not, attached; order is kept. */
  function Attached(names: seq<string>, to: seq<string>, wanted: bool): (kept: seq<string>)
    ensures forall x :: x in kept <==> x in names && (x in to) == wanted
  {
    if names == [] then []
    else
      var last := names[|names| - 1];
      Attached(names[..|names| - 1], to, wanted) + if (last in to) == wanted then [last] else []
  }

  lemma AttachedSnoc(names: seq<string>, x: string, to: seq<string>, wanted: bool)
    ensures Attached(names + [x], to, wanted) == Attached(names, to, wanted) + if (x in to) == wanted then [x] else []
  {
    assert (names + [x])[..|names|] == names;
  }

  /** A requested name is attached in another spelling. */
  ghost predicate Foreign(p: Policy, attached: seq<string>, names: seq<string>) {
    exists i :: 0 <= i < |names| && Misspelt(p, attached, names[i])
  }

  predicate Misspelt(p: Policy, attached: seq<string>, name: string) {
    Among(p, attached, name) && name !in attached
  }

  /** A new label shares its scope with another label that would stay. */
  ghost predicate ScopeClash(p: Policy, added: seq<string>, desired: set<string>) {
    exists n, m :: n in added && m in desired && Clash(p, n, m)
  }

  predicate Clash(p: Policy, added: string, name: string) {
    name != added && SameScope(p, added, name)
  }

  ghost predicate Lists(s: seq<string>, names: set<string>) {
    NoRepeats(s) && Names(s) == names
  }

  ghost predicate CanonicalSet(p: Policy, names: set<string>) {
    exists s :: Lists(s, names) && Canonical(p, s)
  }

  ghost predicate LabelsChange(attached: seq<string>, add: seq<string>, remove: seq<string>) {
    Attached(add, attached, false) != [] || Attached(remove, attached, true) != []
  }

  ghost predicate Plannable(p: Policy, record: Issue, add: seq<string>, remove: seq<string>) {
    && Canonical(p, record.labels)
    && !Foreign(p, record.labels, remove) && !Foreign(p, record.labels, add)
    && !ScopeClash(p, Attached(add, record.labels, false), DesiredNames(record.labels, add, remove))
    && (LabelsChange(record.labels, add, remove) ==> CanonicalSet(p, DesiredNames(record.labels, add, remove)))
  }

  function Wanted(now: string, requested: Option<string>): string {
    if requested.Some? then requested.value else now
  }

  /** Only what changes. */
  function Change(now: string, requested: Option<string>): Option<string> {
    if requested.Some? && requested.value != now then requested else None
  }

  /** The plan turns the record into what is asked for, changes nothing else, and sends exactly the differences. */
  ghost predicate Plans(p: Policy, record: Issue, requested: Request, add: seq<string>, remove: seq<string>, plan: Plan) {
    var added, removed := Attached(add, record.labels, false), Attached(remove, record.labels, true);
    && plan.desired == record.(title := Wanted(record.title, requested.title),
                               description := Wanted(record.description, requested.description),
                               labels := plan.desired.labels)
    && Names(plan.desired.labels) == DesiredNames(record.labels, add, remove)
    && Canonical(p, plan.desired.labels)
    && (added == [] && removed == [] ==> plan.desired.labels == record.labels)
    && plan.payload == Payload(Change(record.title, requested.title), Change(record.description, requested.description),
                               Join(added, ','), Join(removed, ','))
    && plan.changed == (if plan.payload.title.Some? then ["title"] else [])
                     + (if plan.payload.description.Some? then ["description"] else [])
                     + (if added != [] || removed != [] then ["labels"] else [])
  }

  // ----- planning

  /** Whether some label is the requested one up to case, and whether it is spelt the same. */
  method LabelPresence(p: Policy, labels: seq<string>, requested: string) returns (present: bool, exact: bool)
    requires Distinct(p, labels)
    ensures present <==> Among(p, labels, requested)
    ensures exact <==> requested in labels
  {
    for i := 0 to |labels|
      invariant forall j :: 0 <= j < i ==> !Same(p, labels[j], requested)
    {
      if Same(p, labels[i], requested) {
        return true, labels[i] == requested;
      }
    }
    return false, false;
  }

  ghost predicate NoneMisspelt(p: Policy, attached: seq<string>, names: seq<string>) {
    forall i :: 0 <= i < |names| ==> !Misspelt(p, attached, names[i])
  }

  lemma NoneForeign(p: Policy, attached: seq<string>, names: seq<string>)
    ensures NoneMisspelt(p, attached, names) <==> !Foreign(p, attached, names)
  {
  }

  /** The removal loop: deletes what is attached. */
  method PlanRemovals(p: Policy, before: seq<string>, remove: seq<string>) returns (r: Option<seq<string>>, desired: set<string>)
    requires Distinct(p, before)
    ensures r.Some? <==> !Foreign(p, before, remove)
    ensures r.Some? ==> r.value == Attached(remove, before, true) && desired == Names(before) - Names(remove)
  {
    hide Distinct, Among, Attached;
    desired := set x | x in before;
    var removed: seq<string> := [];
    NothingAttached(before);
    NoneForeign(p, before, remove);
    for i := 0 to |remove|
      invariant NoneMisspelt(p, before, remove[..i])
      invariant removed == Attached(remove[..i], before, true) && desired == Names(before) - Names(remove[..i])
    {
      var name := remove[i];
      assert remove[..i] + [name] == remove[..i + 1];
      AttachedSnoc(remove[..i], name, before, true);
      var present, exact := LabelPresence(p, before, name);
      if present && !exact {
        assert Misspelt(p, before, remove[i]);
        return None, desired;
      }
      if exact {
        desired := desired - {name};
        removed := removed + [name];
      }
      assert Names(remove[..i + 1]) == Names(remove[..i]) + {name};
    }
    assert remove[..|remove|] == remove;
    r := Some(removed);
  }

  /** The addition loop: adds what is not attached. */
  method PlanAdditions(p: Policy, before: seq<string>, add: seq<string>, kept: set<string>) returns (r: Option<seq<string>>, desired: set<string>)
    requires Distinct(p, before)
    requires forall x :: x in before && x in add ==> x in kept
    ensures r.Some? <==> !Foreign(p, before, add)
    ensures r.Some? ==> r.value == Attached(add, before, false) && desired == kept + Names(add)
  {
    hide Distinct, Among, Attached;
    desired := kept;
    var added: seq<string> := [];
    NothingAttached(before);
    NoneForeign(p, before, add);
    for i := 0 to |add|
      invariant NoneMisspelt(p, before, add[..i])
      invariant added == Attached(add[..i], before, false) && desired == kept + Names(add[..i])
    {
      var name := add[i];
      assert add[..i] + [name] == add[..i + 1];
      AttachedSnoc(add[..i], name, before, false);
      var present, exact := LabelPresence(p, before, name);
      if present && !exact {
        assert Misspelt(p, before, add[i]);
        return None, desired;
      }
      ExactIsPresent(p, before, name);
      if !present {
        desired := desired + {name};
        added := added + [name];
      }
      assert Names(add[..i + 1]) == Names(add[..i]) + {name};
    }
    assert add[..|add|] == add;
    r := Some(added);
  }

  lemma NothingAttached(to: seq<string>)
    ensures Attached([], to, true) == [] && Attached([], to, false) == []
  {
  }

  lemma ExactIsPresent(p: Policy, labels: seq<string>, name: string)
    ensures name in labels ==> Among(p, labels, name)
  {
  }

  /** The scope check over the added labels and everything that would be attached. */
  method ScopesFree(p: Policy, added: seq<string>, desired: set<string>) returns (ok: bool)
    ensures ok <==> !ScopeClash(p, added, desired)
  {
    hide Clash;
    for i := 0 to |added|
      invariant forall j, m :: 0 <= j < i && m in desired ==> !Clash(p, added[j], m)
    {
      var names := desired;
      while names != {}
        invariant names <= desired
        invariant forall m :: m in desired && m !in names ==> !Clash(p, added[i], m)
      {
        var name :| name in names;
        if Clash(p, added[i], name) {
          return false;
        }
        names := names - {name};
      }
    }
    return true;
  }

  /** The names of a set, sorted. */
  method SortedNames(names: set<string>) returns (s: seq<string>)
    ensures Lists(s, names) && s == SortStrings(s)
  {
    hide Sort, LexLeq;
    var rest := names;
    var listed: seq<string> := [];
    while rest != {}
      invariant rest <= names && Lists(listed, names - rest)
    {
      var name :| name in rest;
      ListsSnoc(listed, names - rest, name);
      rest := rest - {name};
      assert names - rest == (names - (rest + {name})) + {name};
      listed := listed + [name];
    }
    s := SortStrings(listed);
    SortingLists(listed, names);
  }

  lemma ListsSnoc(s: seq<string>, names: set<string>, x: string)
    requires Lists(s, names) && x !in names
    ensures Lists(s + [x], names + {x})
  {
  }

  lemma SortingLists(s: seq<string>, names: set<string>)
    requires Lists(s, names)
    ensures Lists(SortStrings(s), names) && SortStrings(SortStrings(s)) == SortStrings(s)
  {
    hide Sort, LexLeq, TotalPreorder;
    var t := SortStrings(s);
    LexIsTotalOrder();
    SortSorts(s, LexLeq);
    SortSorts(t, LexLeq);
    SortedUnique(SortStrings(t), t, LexLeq);
    KeysApartKept((x: string) => x, s, t);
    forall i, j | 0 <= i < j < |t| ensures t[i] != t[j] {
      var key := (x: string) => x;
      assert key(t[i]) != key(t[j]);
    }
    forall x ensures x in t <==> x in s {
      assert x in multiset(t) <==> x in t;
      assert x in multiset(s) <==> x in s;
    }
  }

  method BuildIssueEditPlan(p: Policy, record: Issue, requested: Request, add: seq<Label>, remove: seq<Label>) returns (r: Option<Plan>)
    requires Requested(p, NamesOf(add), NamesOf(remove))
    ensures r.Some? <==> Plannable(p, record, NamesOf(add), NamesOf(remove))
    ensures r.Some? ==> Plans(p, record, requested, NamesOf(add), NamesOf(remove), r.value)
  {
    hide Requested, Canonical, Foreign, ScopeClash, Attached, Distinct, Sort;
    var plan := Plan([], Payload(None, None, "", ""), record);
    if requested.title.Some? && record.title != requested.title.value {
      plan := plan.(changed := plan.changed + ["title"], payload := plan.payload.(title := requested.title),
                    desired := plan.desired.(title := requested.title.value));
    }
    if requested.description.Some? && record.description != requested.description.value {
      plan := plan.(changed := plan.changed + ["description"], payload := plan.payload.(description := requested.description),
                    desired := plan.desired.(description := requested.description.value));
    }
    var beforeLabels := CanonicalIssueEditLabels(p, record.labels);
    if beforeLabels.None? {
      return None;
    }
    SortedKeepsPlan(p, record.labels, NamesOf(add), NamesOf(remove));
    var before := beforeLabels.value;
    var removed, kept := PlanRemovals(p, before, NamesOf(remove));
    if removed.None? {
      return None;
    }
    KeptStays(p, before, NamesOf(add), NamesOf(remove));
    var added, desired := PlanAdditions(p, before, NamesOf(add), kept);
    if added.None? {
      return None;
    }
    var free := ScopesFree(p, added.value, desired);
    if !free {
      return None;
    }
    if |added.value| + |removed.value| > 0 {
      var after := SortedNames(desired);
      var canonical := CanonicalIssueEditLabels(p, after);
      ListsDecide(p, after, desired);
      if canonical.None? {
        return None;
      }
      plan := plan.(changed := plan.changed + ["labels"],
                    payload := plan.payload.(addLabels := Join(added.value, ','), removeLabels := Join(removed.value, ',')),
                    desired := plan.desired.(labels := after));
    } else {
      NothingChanges(p, record.labels, NamesOf(add), NamesOf(remove));
    }
    return Some(plan);
  }

  /** Planning on the sorted labels is planning on the labels. */
  lemma SortedKeepsPlan(p: Policy, labels: seq<string>, add: seq<string>, remove: seq<string>)
    requires Canonical(p, labels)
    ensures var before := SortStrings(labels);
      && Distinct(p, before) && Names(before) == Names(labels)
      && (Foreign(p, before, add) <==> Foreign(p, labels, add)) && (Foreign(p, before, remove) <==> Foreign(p, labels, remove))
      && Attached(add, before, false) == Attached(add, labels, false) && Attached(remove, before, true) == Attached(remove, labels, true)
  {
    hide Sort, Canonical, Among;
    var before := SortStrings(labels);
    SortedIsArranged(p, labels);
    CanonicalIsDistinct(p, before);
    forall x ensures (x in before <==> x in labels) && (Among(p, before, x) <==> Among(p, labels, x)) {
      assert x in multiset(before) <==> x in before;
      assert x in multiset(labels) <==> x in labels;
      AmongArranged(p, before, labels, x);
      AmongArranged(p, labels, before, x);
    }
    AttachedAlike(add, before, labels, false);
    AttachedAlike(remove, before, labels, true);
    assert forall x :: Misspelt(p, before, x) <==> Misspelt(p, labels, x);
  }

  lemma CanonicalIsDistinct(p: Policy, s: seq<string>)
    requires Canonical(p, s)
    ensures Distinct(p, s) && NoRepeats(s)
  {
    KeysMeanNoRepeats(p.fold, s);
  }

  lemma AmongArranged(p: Policy, a: seq<string>, b: seq<string>, name: string)
    requires multiset(a) == multiset(b)
    ensures Among(p, a, name) ==> Among(p, b, name)
  {
    if i :| 0 <= i < |a| && Same(p, a[i], name) {
      assert a[i] in multiset(a);
      var k := IndexOf(b, a[i]);
    }
  }

  lemma {:induction false} AttachedAlike(names: seq<string>, a: seq<string>, b: seq<string>, wanted: bool)
    requires forall x :: x in a <==> x in b
    ensures Attached(names, a, wanted) == Attached(names, b, wanted)
  {
    if names != [] {
      AttachedAlike(names[..|names| - 1], a, b, wanted);
    }
  }

  /** No requested addition is among the requested removals. */
  lemma AddsAreKept(p: Policy, add: seq<string>, remove: seq<string>)
    requires Requested(p, add, remove)
    ensures forall x :: x in add ==> x !in remove
  {
  }

  lemma KeptStays(p: Policy, before: seq<string>, add: seq<string>, remove: seq<string>)
    requires Requested(p, add, remove)
    ensures forall x :: x in before && x in add ==> x in Names(before) - Names(remove)
  {
  }

  /** Any list of the names decides whether they are canonical. */
  lemma ListsDecide(p: Policy, s: seq<string>, names: set<string>)
    requires Lists(s, names)
    ensures Canonical(p, s) <==> CanonicalSet(p, names)
  {
    hide Canonical;
    if CanonicalSet(p, names) {
      var t :| Lists(t, names) && Canonical(p, t);
      assert forall x :: x in s <==> x in Names(s);
      assert forall x :: x in t <==> x in Names(t);
      SameElements(t, s);
      CanonicalArranged(p, t, s);
    }
  }

  lemma NothingChanges(p: Policy, attached: seq<string>, add: seq<string>, remove: seq<string>)
    requires !LabelsChange(attached, add, remove)
    ensures DesiredNames(attached, add, remove) == Names(attached)
  {
  }

  // ----- what the provider makes of a payload

  /** The names in a comma-separated field; an absent field names nothing. */
  function Listed(joined: string): seq<string> {
    if joined == "" then [] else Split(joined, ',')
  }

  /** Adding a scoped label takes away the other labels of its scope. */
  ghost function AddOne(p: Policy, attached: set<string>, name: string): set<string> {
    (set x | x in attached && !Clash(p, name, x)) + {name}
  }

  ghost function AddAll(p: Policy, attached: set<string>, names: seq<string>): set<string> {
    if names == [] then attached
    else AddOne(p, AddAll(p, attached, names[..|names| - 1]), names[|names| - 1])
  }

  /** Removals first, then additions one by one. */
  ghost function ProviderLabels(p: Policy, attached: set<string>, payload: Payload): set<string> {
    AddAll(p, attached - Names(Listed(payload.removeLabels)), Listed(payload.addLabels))
  }

  ghost predicate CommaFree(names: seq<string>) {
    forall i :: 0 <= i < |names| ==> names[i] != "" && Lacks(names[i], ',')
  }

  /** Joined names are read back as they were. */
  lemma JoinedNamesSurvive(names: seq<string>)
    requires CommaFree(names)
    ensures Listed(Join(names, ',')) == names
  {
    if names != [] {
      SplitJoin(names, ',');
      JoinIsEmpty(names);
    }
  }

  lemma JoinIsEmpty(names: seq<string>)
    requires CommaFree(names) && names != []
    ensures Join(names, ',') != ""
  {
  }

  lemma AttachedIsCommaFree(p: Policy, names: seq<string>, to: seq<string>, wanted: bool)
    requires AllRequestable(p, names)
    ensures CommaFree(Attached(names, to, wanted))
  {
  }

  /** Without a scope clash nothing is taken away. */
  lemma {:induction false} NothingEvicted(p: Policy, attached: set<string>, names: seq<string>, added: seq<string>, desired: set<string>)
    requires !ScopeClash(p, added, desired) && (forall x :: x in names ==> x in added)
    requires attached <= desired && Names(names) <= desired
    ensures AddAll(p, attached, names) == attached + Names(names)
  {
    hide Clash;
    if names != [] {
      var front, last := names[..|names| - 1], names[|names| - 1];
      assert last in names && Names(names) == Names(front) + {last};
      NothingEvicted(p, attached, front, added, desired);
      var before := AddAll(p, attached, front);
      assert last in added;
      assert forall x :: x in before ==> !Clash(p, last, x);
    }
  }

  /** What the plan sends does, under the provider's own rules, exactly what the plan says. */
  lemma PayloadReachesDesired(p: Policy, record: Issue, requested: Request, add: seq<string>, remove: seq<string>, plan: Plan)
    requires Requested(p, add, remove) && Plannable(p, record, add, remove) && Plans(p, record, requested, add, remove, plan)
    ensures ProviderLabels(p, Names(record.labels), plan.payload) == Names(plan.desired.labels)
    ensures Wanted(record.title, plan.payload.title) == plan.desired.title
    ensures Wanted(record.description, plan.payload.description) == plan.desired.description
  {
    hide Canonical, Foreign, Attached, Distinct, Join, Listed, ScopeClash, AddAll;
    var added, removed := Attached(add, record.labels, false), Attached(remove, record.labels, true);
    AttachedIsCommaFree(p, add, record.labels, false);
    AttachedIsCommaFree(p, remove, record.labels, true);
    JoinedNamesSurvive(added);
    JoinedNamesSurvive(removed);
    LabelArithmetic(p, record.labels, add, remove);
    NothingEvicted(p, Names(record.labels) - Names(removed), added, added, DesiredNames(record.labels, add, remove));
  }

  lemma LabelArithmetic(p: Policy, attached: seq<string>, add: seq<string>, remove: seq<string>)
    requires Requested(p, add, remove)
    ensures var added, removed := Attached(add, attached, false), Attached(remove, attached, true);
      && Names(attached) - Names(removed) + Names(added) == DesiredNames(attached, add, remove)
      && Names(attached) - Names(removed) <= DesiredNames(attached, add, remove)
      && Names(added) <= DesiredNames(attached, add, remove)
  {
  }

  // ----- planning again

  /** On the record that the plan describes, the same request plans nothing. */
  lemma PlanIsIdempotent(p: Policy, record: Issue, requested: Request, add: seq<string>, remove: seq<string>, plan: Plan, again: Plan)
    requires Requested(p, add, remove) && Plannable(p, record, add, remove) && Plans(p, record, requested, add, remove, plan)
    ensures Plannable(p, plan.desired, add, remove)
    ensures Plans(p, plan.desired, requested, add, remove, again) ==>
      again.changed == [] && again.desired == plan.desired && again.payload == Payload(None, None, "", "")
  {
    hide Requested, Canonical, Foreign, Attached, Distinct, ScopeClash, Misspelt;
    var labels := plan.desired.labels;
    NothingLeftToDo(p, record.labels, add, remove, labels);
    NoSpellingLeft(p, record.labels, add, remove, labels);
    assert Join([], ',') == "";
  }

  lemma NothingLeftToDo(p: Policy, attached: seq<string>, add: seq<string>, remove: seq<string>, labels: seq<string>)
    requires Requested(p, add, remove) && Names(labels) == DesiredNames(attached, add, remove)
    ensures Attached(add, labels, false) == [] && Attached(remove, labels, true) == []
    ensures !ScopeClash(p, Attached(add, labels, false), DesiredNames(labels, add, remove))
  {
    hide Requested, Attached;
    AddsAreKept(p, add, remove);
    forall x ensures x in labels <==> x in DesiredNames(attached, add, remove) {
      assert x in Names(labels) <==> x in labels;
    }
    EmptyList(Attached(add, labels, false));
    EmptyList(Attached(remove, labels, true));
  }

  lemma EmptyList(s: seq<string>)
    ensures s == [] <==> forall x :: x !in s
  {
    if s != [] {
      assert s[0] in s;
    }
  }

  /** Requested names stay spelt as requested. */
  lemma NoSpellingLeft(p: Policy, attached: seq<string>, add: seq<string>, remove: seq<string>, labels: seq<string>)
    requires Requested(p, add, remove) && Canonical(p, attached) && Canonical(p, labels)
    requires !Foreign(p, attached, add) && !Foreign(p, attached, remove)
    requires Names(labels) == DesiredNames(attached, add, remove)
    ensures !Foreign(p, labels, add) && !Foreign(p, labels, remove)
  {
    hide Requested, Canonical, Foreign, Misspelt;
    NoneForeign(p, attached, add);
    NoneForeign(p, attached, remove);
    NoneForeign(p, labels, add);
    NoneForeign(p, labels, remove);
    forall i | 0 <= i < |add| ensures !Misspelt(p, labels, add[i]) {
      AddedIsSpelt(p, attached, add, remove, labels, i);
    }
    forall i | 0 <= i < |remove| ensures !Misspelt(p, labels, remove[i]) {
      RemovedIsGone(p, attached, add, remove, labels, i);
    }
  }

  lemma AddedIsSpelt(p: Policy, attached: seq<string>, add: seq<string>, remove: seq<string>, labels: seq<string>, i: nat)
    requires Names(labels) == DesiredNames(attached, add, remove) && i < |add|
    ensures !Misspelt(p, labels, add[i])
  {
    hide Among;
    assert add[i] in Names(labels);
  }

  lemma RemovedIsGone(p: Policy, attached: seq<string>, add: seq<string>, remove: seq<string>, labels: seq<string>, i: nat)
    requires Requested(p, add, remove) && Canonical(p, attached)
    requires Names(labels) == DesiredNames(attached, add, remove) && i < |remove| && !Misspelt(p, attached, remove[i])
    ensures !Misspelt(p, labels, remove[i])
  {
    var name := remove[i];
    forall j | 0 <= j < |labels| ensures !Same(p, labels[j], name) {
      assert labels[j] in Names(labels);
      if labels[j] in add {
        var k :| 0 <= k < |add| && add[k] == labels[j];
        assert !Same(p, add[k], remove[i]);
      } else {
        OtherName(p, attached, name, labels[j]);
        assert name in Names(remove);
      }
    }
  }

  /** An attached name other than a properly spelt one is not the same up to case. */
  lemma OtherName(p: Policy, attached: seq<string>, name: string, other: string)
    requires Canonical(p, attached) && !Misspelt(p, attached, name) && other in attached && other != name
    ensures !Same(p, other, name)
  {
  }

  // ----- judging the result

  datatype Target = Target(issueUrl: string)

  predicate TextsValid(p: Policy, title: string, description: string) {
    && title != "" && |title| <= MAX_TITLE_BYTES && p.text(title)
    && |description| <= MAX_DESCRIPTION_BYTES && p.text(description)
  }

  /** The one issue, in the expected place and state, with usable content. */
  ghost predicate Identity(p: Policy, actual: Issue, target: Target, projectId: int, iid: int, id: int, url: string, state: string) {
    && actual.id >= 1 && (id > 0 ==> actual.id == id) && actual.iid == iid && actual.projectId == projectId
    && actual.url == url == target.issueUrl
    && (actual.state == "opened" || actual.state == "closed") && actual.state == state
    && actual.updatedAt.Some? && TextsValid(p, actual.title, actual.description) && Canonical(p, actual.labels)
  }

  method ValidateIssueEditIdentity(p: Policy, actual: Issue, target: Target, projectId: int, iid: int, id: int, url: string, state: string)
    returns (ok: bool)
    ensures ok <==> Identity(p, actual, target, projectId, iid, id, url, state)
  {
    hide Canonical;
    if actual.id < 1 || (id > 0 && actual.id != id) || actual.iid != iid || actual.projectId != projectId {
      return false;
    }
    if actual.url != url || actual.url != target.issueUrl {
      return false;
    }
    if (actual.state != "opened" && actual.state != "closed") || actual.state != state || actual.updatedAt.None? {
      return false;
    }
    if !TextsValid(p, actual.title, actual.description) {
      return false;
    }
    var canonical := CanonicalIssueEditLabels(p, actual.labels);
    return canonical.Some?;
  }

  /** The edited issue is the one edited, not older, with exactly the desired title, description and label set. */
  ghost predicate Poststate(p: Policy, actual: Issue, target: Target, projectId: int, before: Issue, desired: Issue)
    requires before.updatedAt.Some?
  {
    && Identity(p, actual, target, projectId, before.iid, before.id, before.url, before.state)
    && actual.updatedAt.value >= before.updatedAt.value
    && Canonical(p, desired.labels) && Names(actual.labels) == Names(desired.labels)
    && actual.title == desired.title && actual.description == desired.description
  }

  method ValidateIssueEditPoststate(p: Policy, actual: Issue, target: Target, projectId: int, before: Issue, plan: Plan) returns (ok: bool)
    requires before.updatedAt.Some?
    ensures ok <==> Poststate(p, actual, target, projectId, before, plan.desired)
  {
    hide Canonical, Sort;
    var same := ValidateIssueEditIdentity(p, actual, target, projectId, before.iid, before.id, before.url, before.state);
    if !same || actual.updatedAt.value < before.updatedAt.value {
      return false;
    }
    var left := CanonicalIssueEditLabels(p, actual.labels);
    var right := CanonicalIssueEditLabels(p, plan.desired.labels);
    if left.None? || right.None? {
      return false;
    }
    SortedFormsAgree(p, actual.labels, plan.desired.labels);
    assert Names(actual.labels) == Names(plan.desired.labels) <==> (forall x :: x in actual.labels <==> x in plan.desired.labels) by {
      NamesEqual(actual.labels, plan.desired.labels);
    }
    return left.value == right.value && actual.title == plan.desired.title && actual.description == plan.desired.description;
  }

  lemma NamesEqual(a: seq<string>, b: seq<string>)
    ensures Names(a) == Names(b) <==> forall x :: x in a <==> x in b
  {
    forall x ensures (x in Names(a) <==> x in a) && (x in Names(b) <==> x in b) {
    }
  }

  /** The provider's own result of the payload, with the labels in any order, is accepted. */
  lemma ProviderResultIsAccepted(p: Policy, record: Issue, requested: Request, add: seq<string>, remove: seq<string>, plan: Plan,
      target: Target, projectId: int, actual: Issue)
    requires Requested(p, add, remove) && Plannable(p, record, add, remove) && Plans(p, record, requested, add, remove, plan)
    requires Identity(p, record, target, projectId, record.iid, record.id, record.url, record.state)
    requires actual == record.(title := Wanted(record.title, plan.payload.title), description := Wanted(record.description, plan.payload.description),
                               labels := actual.labels, updatedAt := actual.updatedAt)
    requires actual.updatedAt.Some? && actual.updatedAt.value >= record.updatedAt.value
    requires Lists(actual.labels, ProviderLabels(p, Names(record.labels), plan.payload))
    requires TextsValid(p, actual.title, actual.description)
    ensures Poststate(p, actual, target, projectId, record, plan.desired)
  {
    hide Requested, Plannable, Canonical, ProviderLabels, Attached, Distinct, TextsValid;
    PayloadReachesDesired(p, record, requested, add, remove, plan);
    CanonicalIsDistinct(p, plan.desired.labels);
    NamesEqual(plan.desired.labels, actual.labels);
    SameElements(plan.desired.labels, actual.labels);
    CanonicalArranged(p, plan.desired.labels, actual.labels);
  }
}
