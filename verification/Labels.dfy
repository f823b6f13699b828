/** Issue label names: requests, canonical lists, catalogue lookups and scopes (internal/product/commands_issue_edit.go). */
module Labels {
  import opened Arrangements
  import opened Sorting
  import opened Wrappers

  const MAX_ISSUE_LABELS := 1000
  const MAX_EDIT_LABELS := 100
  const MAX_OPERATION_BYTES := 8 * 1024 * 1024

  datatype Label = Label(id: int, name: string)

  /** Unicode tables: two names are equal under strings.EqualFold when they have one key; which names a provider may
      return; which a request may use, apart from commas; which texts are valid. */
  datatype Policy = Policy(fold: string -> string, provider: string -> bool, request: string -> bool, text: string -> bool)

  predicate Same(p: Policy, a: string, b: string) {
    p.fold(a) == p.fold(b)
  }

  /** Some element of a list equals the name up to case. */
  predicate Among(p: Policy, s: seq<string>, name: string) {
    exists i :: 0 <= i < |s| && Same(p, s[i], name)
  }

  predicate Distinct(p: Policy, s: seq<string>) {
    KeysApart(p.fold, s)
  }

  lemma DistinctSnoc(p: Policy, s: seq<string>, x: string)
    ensures Distinct(p, s + [x]) <==> Distinct(p, s) && !Among(p, s, x)
  {
    var t := s + [x];
    assert forall i :: 0 <= i < |s| ==> t[i] == s[i];
    assert t[|s|] == x;
    if Distinct(p, t) {
      assert forall i, j :: 0 <= i < j < |s| ==> p.fold(t[i]) != p.fold(t[j]);
    }
  }

  lemma DistinctPrefix(p: Policy, s: seq<string>, n: nat)
    requires n <= |s| && Distinct(p, s)
    ensures Distinct(p, s[..n])
  {
  }

  // ----- the request

  predicate Requestable(p: Policy, name: string) {
    name != "" && ',' !in name && p.request(name)
  }

  ghost predicate AllRequestable(p: Policy, s: seq<string>) {
    forall i :: 0 <= i < |s| ==> Requestable(p, s[i])
  }

  ghost predicate Apart(p: Policy, a: seq<string>, b: seq<string>) {
    forall i, j :: 0 <= i < |a| && 0 <= j < |b| ==> !Same(p, a[i], b[j])
  }

  /** A request names each label once, and none both ways. */
  ghost predicate Requested(p: Policy, add: seq<string>, remove: seq<string>) {
    && |add| + |remove| <= MAX_EDIT_LABELS
    && AllRequestable(p, add) && Distinct(p, add)
    && AllRequestable(p, remove) && Distinct(p, remove)
    && Apart(p, add, remove)
  }

  /** One group of the request. */
  method ValidateGroup(p: Policy, values: seq<string>) returns (ok: bool)
    ensures ok <==> AllRequestable(p, values) && Distinct(p, values)
  {
    hide Distinct, Among, Requestable;
    var seen: seq<string> := [];
    DistinctEmpty(p);
    for i := 0 to |values|
      invariant seen == values[..i] && AllRequestable(p, seen) && Distinct(p, seen)
    {
      assert values[..i] + [values[i]] == values[..i + 1];
      DistinctSnoc(p, seen, values[i]);
      if !Requestable(p, values[i]) {
        return false;
      }
      var found := Find(p, seen, values[i]);
      if found {
        if Distinct(p, values) {
          DistinctPrefix(p, values, i + 1);
        }
        return false;
      }
      seen := seen + [values[i]];
    }
    assert values[..|values|] == values;
    return true;
  }

  lemma DistinctEmpty(p: Policy)
    ensures Distinct(p, [])
  {
  }

  method Find(p: Policy, s: seq<string>, name: string) returns (found: bool)
    ensures found <==> Among(p, s, name)
  {
    for i := 0 to |s|
      invariant forall j :: 0 <= j < i ==> !Same(p, s[j], name)
    {
      if Same(p, s[i], name) {
        return true;
      }
    }
    return false;
  }

  method ValidateRequestedIssueLabels(p: Policy, add: seq<string>, remove: seq<string>) returns (ok: bool)
    ensures ok <==> Requested(p, add, remove)
  {
    hide Distinct, AllRequestable;
    if |add| + |remove| > MAX_EDIT_LABELS {
      return false;
    }
    var addOk := ValidateGroup(p, add);
    if !addOk {
      return false;
    }
    var removeOk := ValidateGroup(p, remove);
    if !removeOk {
      return false;
    }
    for i := 0 to |add|
      invariant forall j :: 0 <= j < i ==> !Among(p, remove, add[j])
    {
      var clash := Find(p, remove, add[i]);
      if clash {
        return false;
      }
    }
    return true;
  }

  // ----- canonical lists

  function Bytes(s: seq<string>): nat {
    if s == [] then 0 else Bytes(s[..|s| - 1]) + |s[|s| - 1]|
  }

  ghost predicate AllProvided(p: Policy, s: seq<string>) {
    forall i :: 0 <= i < |s| ==> p.provider(s[i])
  }

  /** A usable label list, whatever its order: bounded, valid and free of names that differ only in case. */
  ghost predicate Canonical(p: Policy, s: seq<string>) {
    |s| <= MAX_ISSUE_LABELS && AllProvided(p, s) && Bytes(s) <= MAX_OPERATION_BYTES && Distinct(p, s)
  }

  lemma BytesSnoc(s: seq<string>, x: string)
    ensures Bytes(s + [x]) == Bytes(s) + |x|
  {
    assert (s + [x])[..|s|] == s;
  }

  lemma {:induction false} BytesAppend(a: seq<string>, b: seq<string>)
    ensures Bytes(a + b) == Bytes(a) + Bytes(b)
    decreases |b|
  {
    if b == [] {
      assert a + b == a;
    } else {
      var front := b[..|b| - 1];
      BytesAppend(a, front);
      assert a + b == a + front + [b[|b| - 1]];
      BytesSnoc(a + front, b[|b| - 1]);
    }
  }

  lemma BytesWithout(s: seq<string>, i: nat)
    requires i < |s|
    ensures Bytes(s) == Bytes(Without(s, i)) + |s[i]|
  {
    hide Bytes;
    BytesSnoc(s[..i], s[i]);
    BytesAppend(s[..i] + [s[i]], s[i + 1..]);
    BytesAppend(s[..i], s[i + 1..]);
    assert s == s[..i] + [s[i]] + s[i + 1..];
  }

  lemma {:induction false} BytesArranged(a: seq<string>, b: seq<string>)
    requires multiset(a) == multiset(b)
    ensures Bytes(a) == Bytes(b) && |a| == |b|
    decreases |a|
  {
    hide Without;
    assert |multiset(a)| == |a| && |multiset(b)| == |b|;
    if a != [] {
      assert a[0] in multiset(a);
      var i := IndexOf(b, a[0]);
      WithoutOne(a, 0);
      WithoutOne(b, i);
      BytesArranged(Without(a, 0), Without(b, i));
      BytesWithout(a, 0);
      BytesWithout(b, i);
    }
  }

  /** Being canonical does not depend on the order of a list. */
  lemma CanonicalArranged(p: Policy, a: seq<string>, b: seq<string>)
    requires Canonical(p, a) && multiset(a) == multiset(b)
    ensures Canonical(p, b)
  {
    hide Bytes, KeysApart;
    BytesArranged(a, b);
    KeysApartKept(p.fold, a, b);
    forall i | 0 <= i < |b| ensures p.provider(b[i]) {
      assert b[i] in multiset(b);
      var k := IndexOf(a, b[i]);
    }
  }

  method CanonicalIssueEditLabels(p: Policy, values: seq<string>) returns (r: Option<seq<string>>)
    ensures r.Some? <==> Canonical(p, values)
    ensures r.Some? ==> r.value == SortStrings(values)
  {
    hide Distinct, Among, Bytes, Canonical, Sort;
    if |values| > MAX_ISSUE_LABELS {
      TooLong(p, values);
      return None;
    }
    var out := SortStrings(values);
    SortedIsArranged(p, values);
    var total := 0;
    var seen: seq<string> := [];
    Starts(p);
    for i := 0 to |out|
      invariant seen == out[..i] && total == Bytes(seen) && total <= MAX_OPERATION_BYTES
      invariant AllProvided(p, seen) && Distinct(p, seen)
    {
      assert out[..i] + [out[i]] == out[..i + 1];
      Extends(p, out, i);
      if !p.provider(out[i]) {
        return None;
      }
      total := total + |out[i]|;
      if total > MAX_OPERATION_BYTES {
        return None;
      }
      var found := Find(p, seen, out[i]);
      if found {
        return None;
      }
      seen := seen + [out[i]];
    }
    assert out[..|out|] == out;
    Whole(p, out);
    return Some(out);
  }

  lemma TooLong(p: Policy, s: seq<string>)
    requires |s| > MAX_ISSUE_LABELS
    ensures !Canonical(p, s)
  {
  }

  lemma Starts(p: Policy)
    ensures Bytes([]) == 0 && Distinct(p, [])
  {
  }

  lemma Whole(p: Policy, s: seq<string>)
    requires |s| <= MAX_ISSUE_LABELS && AllProvided(p, s) && Bytes(s) <= MAX_OPERATION_BYTES && Distinct(p, s)
    ensures Canonical(p, s)
  {
  }

  /** One more name of a list. */
  lemma Extends(p: Policy, s: seq<string>, i: nat)
    requires i < |s|
    ensures Bytes(s[..i + 1]) == Bytes(s[..i]) + |s[i]|
    ensures Distinct(p, s[..i + 1]) <==> Distinct(p, s[..i]) && !Among(p, s[..i], s[i])
    ensures Canonical(p, s) ==> p.provider(s[i]) && Bytes(s[..i + 1]) <= MAX_OPERATION_BYTES && Distinct(p, s[..i + 1])
  {
    hide Among, Bytes;
    assert s[..i] + [s[i]] == s[..i + 1];
    BytesSnoc(s[..i], s[i]);
    DistinctSnoc(p, s[..i], s[i]);
    BytesAppend(s[..i + 1], s[i + 1..]);
    assert s[..i + 1] + s[i + 1..] == s;
    if Canonical(p, s) {
      DistinctPrefix(p, s, i + 1);
    }
  }

  lemma SortedIsArranged(p: Policy, s: seq<string>)
    ensures multiset(SortStrings(s)) == multiset(s) && |SortStrings(s)| == |s|
    ensures Canonical(p, SortStrings(s)) <==> Canonical(p, s)
  {
    hide Canonical, Sort, TotalPreorder;
    LexIsTotalOrder();
    SortSorts(s, LexLeq);
    if Canonical(p, s) {
      CanonicalArranged(p, s, SortStrings(s));
    }
    if Canonical(p, SortStrings(s)) {
      CanonicalArranged(p, SortStrings(s), s);
    }
  }

  /** Two canonical lists have one sorted form exactly when they hold the same names. */
  lemma SortedFormsAgree(p: Policy, a: seq<string>, b: seq<string>)
    requires Canonical(p, a) && Canonical(p, b)
    ensures SortStrings(a) == SortStrings(b) <==> (forall x :: x in a <==> x in b)
  {
    hide Sort, TotalPreorder, Bytes, LexLeq, KeysApart;
    LexIsTotalOrder();
    SortSorts(a, LexLeq);
    SortSorts(b, LexLeq);
    if SortStrings(a) == SortStrings(b) {
      assert multiset(a) == multiset(b);
      forall x ensures x in a <==> x in b {
        assert x in multiset(a) <==> x in a;
        assert x in multiset(b) <==> x in b;
      }
    }
    if forall x :: x in a <==> x in b {
      KeysMeanNoRepeats(p.fold, a);
      KeysMeanNoRepeats(p.fold, b);
      SameElements(a, b);
      StringsSortAlike(a, b);
    }
  }

  lemma StringsSortAlike(a: seq<string>, b: seq<string>)
    requires multiset(a) == multiset(b)
    ensures SortStrings(a) == SortStrings(b)
  {
    hide Sort, LexLeq;
    LexIsTotalOrder();
    SortSorts(a, LexLeq);
    SortSorts(b, LexLeq);
    SortedUnique(SortStrings(a), SortStrings(b), LexLeq);
  }

  // ----- the label catalogue

  function NamesOf(labels: seq<Label>): (names: seq<string>)
    ensures |names| == |labels| && forall i :: 0 <= i < |labels| ==> names[i] == labels[i].name
  {
    seq(|labels|, i requires 0 <= i < |labels| => labels[i].name)
  }

  /** The catalogue labels that a name may mean. */
  function Matches(p: Policy, catalog: seq<Label>, name: string): seq<Label> {
    if catalog == [] then []
    else
      var last := catalog[|catalog| - 1];
      Matches(p, catalog[..|catalog| - 1], name) + if Same(p, last.name, name) then [last] else []
  }

  /** One label has the name up to case, and it has it exactly. */
  predicate Resolvable(p: Policy, catalog: seq<Label>, name: string) {
    |Matches(p, catalog, name)| == 1 && Matches(p, catalog, name)[0].name == name
  }

  function Picked(p: Policy, catalog: seq<Label>, names: seq<string>): (labels: seq<Label>)
    requires forall i :: 0 <= i < |names| ==> Resolvable(p, catalog, names[i])
    ensures NamesOf(labels) == names
  {
    seq(|names|, i requires 0 <= i < |names| && Resolvable(p, catalog, names[i]) => Matches(p, catalog, names[i])[0])
  }

  predicate LabelLeq(a: Label, b: Label) {
    if a.name != b.name then LexLeq(a.name, b.name) else a.id <= b.id
  }

  lemma LabelLeqOrders()
    ensures TotalOrder(LabelLeq)
  {
    hide LexLeq;
    LexIsTotalOrder();
  }

  method ResolveIssueEditLabels(p: Policy, catalog: seq<Label>, names: seq<string>) returns (r: Option<seq<Label>>)
    ensures r.Some? <==> forall i :: 0 <= i < |names| ==> Resolvable(p, catalog, names[i])
    ensures r.Some? ==> r.value == Sort(Picked(p, catalog, names), LabelLeq)
  {
    var resolved: seq<Label> := [];
    for i := 0 to |names|
      invariant forall j :: 0 <= j < i ==> Resolvable(p, catalog, names[j])
      invariant |resolved| == i && forall j :: 0 <= j < i ==> resolved[j] == Matches(p, catalog, names[j])[0]
    {
      var matches: seq<Label> := [];
      for k := 0 to |catalog|
        invariant matches == Matches(p, catalog[..k], names[i])
      {
        assert catalog[..k + 1][..k] == catalog[..k];
        if Same(p, catalog[k].name, names[i]) {
          matches := matches + [catalog[k]];
        }
      }
      assert catalog[..|catalog|] == catalog;
      if |matches| != 1 || matches[0].name != names[i] {
        assert !Resolvable(p, catalog, names[i]);
        return None;
      }
      resolved := resolved + [matches[0]];
    }
    assert resolved == Picked(p, catalog, names);
    return Some(Sort(resolved, LabelLeq));
  }

  /** Resolving keeps the requested names, so what was checked of the request holds of the labels. */
  lemma ResolvedNames(p: Policy, catalog: seq<Label>, names: seq<string>)
    requires forall i :: 0 <= i < |names| ==> Resolvable(p, catalog, names[i])
    ensures multiset(NamesOf(Sort(Picked(p, catalog, names), LabelLeq))) == multiset(names)
  {
    hide Resolvable, Sort, LabelLeq, TotalPreorder;
    LabelLeqOrders();
    var picked := Picked(p, catalog, names);
    SortSorts(picked, LabelLeq);
    NamesArranged(picked, Sort(picked, LabelLeq));
  }

  lemma {:induction false} NamesArranged(a: seq<Label>, b: seq<Label>)
    requires multiset(a) == multiset(b)
    ensures multiset(NamesOf(a)) == multiset(NamesOf(b))
    decreases |a|
  {
    assert |multiset(a)| == |a| && |multiset(b)| == |b|;
    if a != [] {
      assert a[0] in multiset(a);
      var i := IndexOf(b, a[0]);
      WithoutOne(a, 0);
      WithoutOne(b, i);
      NamesArranged(Without(a, 0), Without(b, i));
      NamesWithout(a, 0);
      NamesWithout(b, i);
    }
  }

  lemma NamesWithout(s: seq<Label>, i: nat)
    requires i < |s|
    ensures multiset(NamesOf(s)) == multiset(NamesOf(Without(s, i))) + multiset{s[i].name}
  {
    WithoutOne(NamesOf(s), i);
    assert Without(NamesOf(s), i) == NamesOf(Without(s, i));
  }

  lemma RequestedArranged(p: Policy, add: seq<string>, remove: seq<string>, add': seq<string>, remove': seq<string>)
    requires Requested(p, add, remove) && multiset(add) == multiset(add') && multiset(remove) == multiset(remove')
    ensures Requested(p, add', remove')
  {
    hide Requestable, KeysApart;
    BytesArranged(add, add');
    BytesArranged(remove, remove');
    KeysApartKept(p.fold, add, add');
    KeysApartKept(p.fold, remove, remove');
    RequestableArranged(p, add, add');
    RequestableArranged(p, remove, remove');
    forall i, j | 0 <= i < |add'| && 0 <= j < |remove'| ensures !Same(p, add'[i], remove'[j]) {
      PairStaysApart(p, add, remove, add', remove', i, j);
    }
  }

  lemma PairStaysApart(p: Policy, add: seq<string>, remove: seq<string>, add': seq<string>, remove': seq<string>, i: nat, j: nat)
    requires Apart(p, add, remove) && multiset(add) == multiset(add') && multiset(remove) == multiset(remove')
    requires i < |add'| && j < |remove'|
    ensures !Same(p, add'[i], remove'[j])
  {
    assert add'[i] in multiset(add') && remove'[j] in multiset(remove');
    var k := IndexOf(add, add'[i]);
    var m := IndexOf(remove, remove'[j]);
  }

  lemma RequestableArranged(p: Policy, a: seq<string>, b: seq<string>)
    requires AllRequestable(p, a) && multiset(a) == multiset(b)
    ensures AllRequestable(p, b)
  {
    forall i | 0 <= i < |b| ensures Requestable(p, b[i]) {
      assert b[i] in multiset(b);
      var k := IndexOf(a, b[i]);
    }
  }

  // ----- scopes

  /** Where the last "::" of a name starts, or -1. */
  function LastSeparator(s: string): (k: int)
    ensures -1 <= k && (k >= 0 ==> k + 2 <= |s| && s[k] == ':' && s[k + 1] == ':')
    ensures forall j :: k < j && 0 <= j && j + 1 < |s| ==> !(s[j] == ':' && s[j + 1] == ':')
  {
    if |s| < 2 then -1
    else if s[|s| - 2] == ':' && s[|s| - 1] == ':' then |s| - 2
    else LastSeparator(s[..|s| - 1])
  }

  predicate Scoped(name: string) {
    LastSeparator(name) >= 0
  }

  function Scope(name: string): string
    requires Scoped(name)
  {
    name[..LastSeparator(name)]
  }

  predicate SameScope(p: Policy, a: string, b: string) {
    Scoped(a) && Scoped(b) && Same(p, Scope(a), Scope(b))
  }
}
