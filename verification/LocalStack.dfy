/** Stack records, ref reads, inspection and guarded publication (internal/localstack). */
module LocalStack {
  import opened CommitGraph
  import opened ObjectIds
  import opened Wrappers

  const MAX_BRANCHES := 32
  const VERSION: string := "glab-axi/stack/v1"

  datatype Branch = Branch(name: string, mr: int)
  datatype Record = Record(version: string, host: string, project: string, base: string, branches: seq<Branch>)

  /** The safeurl checks, which the stack only consults. */
  datatype Policy = Policy(host: string -> bool, project: string -> bool, branch: string -> bool)

  // ----- branch names

  predicate ValidBranch(policy: Policy, name: string) {
    policy.branch(name) && name != "HEAD" && !("refs/" <= name) && !Oid(name)
  }

  // ----- records

  function Names(r: Record): (names: seq<string>)
    ensures |names| == |r.branches| + 1
  {
    [r.base] + seq(|r.branches|, i requires 0 <= i < |r.branches| => r.branches[i].name)
  }

  /** A linear chain of distinct branches on a base outside it, each bound to at most one merge request of its own. */
  ghost predicate WellFormed(policy: Policy, r: Record) {
    && r.version == VERSION && policy.host(r.host) && policy.project(r.project)
    && 0 < |r.branches| <= MAX_BRANCHES
    && (forall i :: 0 <= i < |Names(r)| ==> ValidBranch(policy, Names(r)[i]))
    && DistinctNames(r)
    && (forall i :: 0 <= i < |r.branches| ==> r.branches[i].mr >= 0)
    && (forall i, j :: 0 <= i < j < |r.branches| && r.branches[i].mr > 0 ==> r.branches[i].mr != r.branches[j].mr)
  }

  /** The first `n` branches, with the base, are in order. */
  ghost predicate BranchesFit(policy: Policy, r: Record, n: nat)
    requires n <= |r.branches|
  {
    && (forall i :: 0 <= i <= n ==> ValidBranch(policy, Names(r)[i]))
    && (forall i, j :: 0 <= i < j <= n ==> Names(r)[i] != Names(r)[j])
    && (forall i :: 0 <= i < n ==> r.branches[i].mr >= 0)
    && (forall i, j :: 0 <= i < j < n && r.branches[i].mr > 0 ==> r.branches[i].mr != r.branches[j].mr)
  }

  ghost function NamesUpTo(r: Record, n: nat): set<string>
    requires n <= |r.branches|
  {
    set i | 0 <= i <= n :: Names(r)[i]
  }

  ghost function MrsUpTo(r: Record, n: nat): set<int>
    requires n <= |r.branches|
  {
    set i | 0 <= i < n :: r.branches[i].mr
  }

  lemma NamesStep(r: Record, n: nat)
    requires n < |r.branches|
    ensures NamesUpTo(r, n + 1) == NamesUpTo(r, n) + {r.branches[n].name}
    ensures Names(r)[n + 1] == r.branches[n].name
    ensures r.branches[n].name in NamesUpTo(r, n) <==> exists i :: 0 <= i <= n && Names(r)[i] == r.branches[n].name
  {
    assert Names(r)[n + 1] == r.branches[n].name;
  }

  lemma MrsStep(r: Record, n: nat)
    requires n < |r.branches|
    ensures MrsUpTo(r, n + 1) == MrsUpTo(r, n) + {r.branches[n].mr}
    ensures r.branches[n].mr in MrsUpTo(r, n) <==> exists i :: 0 <= i < n && r.branches[i].mr == r.branches[n].mr
  {
  }

  lemma BranchStep(policy: Policy, r: Record, n: nat)
    requires n < |r.branches| && BranchesFit(policy, r, n)
    ensures var b := r.branches[n];
      && (BranchesFit(policy, r, n + 1) <==>
            ValidBranch(policy, b.name) && b.name !in NamesUpTo(r, n) && b.mr >= 0 && !(b.mr > 0 && b.mr in MrsUpTo(r, n)))
      && NamesUpTo(r, n + 1) == NamesUpTo(r, n) + {b.name}
      && MrsUpTo(r, n + 1) == MrsUpTo(r, n) + {b.mr}
  {
    hide ValidBranch, NamesUpTo, MrsUpTo, Names;
    NamesStep(r, n);
    MrsStep(r, n);
  }

  lemma FitBranches(policy: Policy, r: Record, n: nat)
    requires n <= |r.branches|
    ensures n == 0 ==> (BranchesFit(policy, r, n) <==> ValidBranch(policy, r.base)) && NamesUpTo(r, n) == {r.base} && MrsUpTo(r, n) == {}
    ensures WellFormed(policy, r) ==> BranchesFit(policy, r, n)
    ensures n == |r.branches| && BranchesFit(policy, r, n) ==>
      (WellFormed(policy, r) <==> r.version == VERSION && policy.host(r.host) && policy.project(r.project) && 0 < n <= MAX_BRANCHES)
  {
    hide ValidBranch;
    assert Names(r)[0] == r.base;
  }

  method Validate(policy: Policy, r: Record) returns (ok: bool)
    ensures ok <==> WellFormed(policy, r)
  {
    hide ValidBranch, BranchesFit, NamesUpTo, MrsUpTo;
    FitBranches(policy, r, 0);
    if r.version != VERSION || !policy.host(r.host) || !policy.project(r.project) || !ValidBranch(policy, r.base)
      || |r.branches| == 0 || |r.branches| > MAX_BRANCHES
    {
      return false;
    }
    var names: set<string> := {r.base};
    var mrs: set<int> := {};
    for i := 0 to |r.branches|
      invariant BranchesFit(policy, r, i) && names == NamesUpTo(r, i) && mrs == MrsUpTo(r, i)
    {
      BranchStep(policy, r, i);
      FitBranches(policy, r, i + 1);
      var b := r.branches[i];
      if !ValidBranch(policy, b.name) || b.name in names || b.mr < 0 || (b.mr > 0 && b.mr in mrs) {
        return false;
      }
      names := names + {b.name};
      mrs := mrs + {b.mr};
    }
    FitBranches(policy, r, |r.branches|);
    return true;
  }

  // ----- compatibility

  /** The same stack: identity, base and chain, with every binding made so far. */
  ghost predicate Extends(prior: Record, next: Record) {
    && prior.version == next.version && prior.host == next.host && prior.project == next.project
    && Names(prior) == Names(next)
    && forall i :: 0 <= i < |prior.branches| && prior.branches[i].mr != 0 ==> next.branches[i].mr == prior.branches[i].mr
  }

  method Compatible(prior: Option<Record>, next: Record) returns (ok: bool)
    ensures ok <==> prior.None? || Extends(prior.value, next)
  {
    if prior.None? {
      return true;
    }
    var was := prior.value;
    assert Names(was)[0] == was.base && Names(next)[0] == next.base;
    if was.version != next.version || was.host != next.host || was.project != next.project || was.base != next.base || |was.branches| != |next.branches| {
      return false;
    }
    for i := 0 to |was.branches|
      invariant forall j :: 0 <= j < i ==> was.branches[j].name == next.branches[j].name
      invariant forall j :: 0 <= j < i && was.branches[j].mr != 0 ==> was.branches[j].mr == next.branches[j].mr
    {
      var b, n := was.branches[i], next.branches[i];
      if b.name != n.name || (b.mr != 0 && b.mr != n.mr) {
        assert Names(was)[i + 1] == b.name && Names(next)[i + 1] == n.name;
        return false;
      }
    }
    assert Names(was) == Names(next);
    return true;
  }

  lemma ExtendsReflexive(r: Record)
    ensures Extends(r, r)
  {
  }

  lemma ExtendsTransitive(a: Record, b: Record, c: Record)
    requires Extends(a, b) && Extends(b, c)
    ensures Extends(a, c)
  {
    assert |a.branches| == |Names(a)| - 1 == |Names(c)| - 1;
  }

  // ----- refs and the processes around them

  datatype Ref = Direct(oid: string) | Symbolic(target: string)

  /** What a ref read reports: no such ref, an object, or a refusal. */
  datatype Reading = Absent | At(oid: string) | Refused

  datatype Publication = Publication(before: map<string, Ref>, ref: string, oid: string)

  /** Every guarded name is absent, or an ordinary ref at its inspected object. */
  ghost predicate Guarded(refs: map<string, Ref>, guards: map<string, string>) {
    forall name :: name in guards ==> if guards[name] == "" then name !in refs else name in refs && refs[name] == Direct(guards[name])
  }

  /** What an object holds, when it is a blob in the canonical encoding of a record; an object never changes. */
  type Decoder = string -> Option<Record>

  predicate SameAt(was: map<string, Ref>, now: map<string, Ref>, names: set<string>) {
    forall name :: name in names ==> (name in was <==> name in now) && (name in was ==> was[name] == now[name])
  }

  /** One more publication. */
  ghost predicate Appended(was: seq<Publication>, now: seq<Publication>) {
    |now| == |was| + 1 && now[..|was|] == was
  }

  /** Every ref and the checked-out branch, "" for none, at one instant. */
  datatype View = View(refs: map<string, Ref>, current: string)

  /** The object a name resolves to, following symbolic refs, if it resolves. */
  function Resolve(refs: map<string, Ref>, name: string, fuel: nat): Option<string>
    decreases fuel
  {
    if name !in refs then None
    else match refs[name]
      case Direct(oid) => Some(oid)
      case Symbolic(target) => if fuel == 0 then None else Resolve(refs, target, fuel - 1)
  }

  /** A reading is what the ref was at some instant from `from` on. */
  ghost predicate ReadIn(history: seq<View>, from: nat, name: string, r: Reading) {
    match r
    case Absent => exists k :: from <= k < |history| && Resolve(history[k].refs, name, 5) == None
    case At(oid) => exists k :: from <= k < |history| && Resolve(history[k].refs, name, 5) == Some(oid)
    case Refused => true
  }

  /** What a reading finds when nothing interferes: no ref, an ordinary ref at a usable object, or something else. */
  function Found(graph: Graph, refs: map<string, Ref>, name: string, commit: bool): Reading {
    if name !in refs then Absent
    else if refs[name].Direct? && Oid(refs[name].oid) && (commit ==> refs[name].oid in graph.parents) then At(refs[name].oid)
    else Refused
  }

  lemma ResolvesOrdinary(refs: map<string, Ref>, name: string)
    requires name in refs ==> !refs[name].Symbolic?
    ensures Resolve(refs, name, 5) == if name in refs then Some(refs[name].oid) else None
  {
  }

  lemma OidNotEmpty(oid: string)
    requires Oid(oid)
    ensures oid != ""
  {
  }

  lemma NothingRead(history: seq<View>, from: nat, name: string)
    ensures ReadIn(history, from, name, Refused)
  {
  }

  lemma ReadInStays(was: seq<View>, now: seq<View>, from: nat, earlier: nat, name: string, r: Reading)
    requires ReadIn(was, from, name, r) && was <= now && earlier <= from
    ensures ReadIn(now, earlier, name, r)
  {
    hide Resolve;
    match r
    case Absent =>
      var k :| from <= k < |was| && Resolve(was[k].refs, name, 5) == None;
      assert now[k] == was[k];
    case At(oid) =>
      var k :| from <= k < |was| && Resolve(was[k].refs, name, 5) == Some(oid);
      assert now[k] == was[k];
    case Refused =>
  }

  class Repo {
    const graph: Graph
    const decode: Decoder
    /** The object that git stores a record's encoding in. */
    const encode: Record -> string
    /** No other git process writes. */
    const quiet: bool
    /** No git call fails or is canceled. */
    const reliable: bool
    var refs: map<string, Ref>
    /** The names git holds locked for this process. */
    var locks: set<string>
    var current: string
    ghost var published: seq<Publication>
    /** Every state so far, the present one last. */
    ghost var history: seq<View>

    ghost predicate Valid()
      reads `refs, `current, `history
    {
      graph.Valid() && history != [] && history[|history| - 1] == View(refs, current)
    }

    constructor (graph: Graph, decode: Decoder, encode: Record -> string, quiet: bool, reliable: bool, refs: map<string, Ref>)
      requires graph.Valid()
      ensures Valid() && this.graph == graph && this.decode == decode && this.encode == encode
      ensures this.quiet == quiet && this.reliable == reliable && this.refs == refs && locks == {} && published == []
    {
      this.graph, this.decode, this.encode, this.quiet, this.reliable := graph, decode, encode, quiet, reliable;
      this.refs, locks, current, published := refs, {}, "", [];
      history := [View(refs, "")];
    }

    /** Other git processes may change any ref that is not locked, at any time. */
    method Others()
      requires Valid()
      modifies this`refs, this`current, this`history
      ensures Valid() && history == old(history) + [View(refs, current)]
      ensures SameAt(old(refs), refs, locks)
      ensures quiet ==> refs == old(refs) && current == old(current)
    {
      if !quiet {
        var after: map<string, Ref> := *;
        current := *;
        if SameAt(refs, after, locks) {
          refs := after;
        }
      }
      history := history + [View(refs, current)];
    }

    /** Whether a ref exists, which is refused of a symbolic one; two git calls. */
    method Probe(name: string) returns (r: Option<bool>)
      requires Valid()
      modifies this`refs, this`current, this`history
      ensures Valid() && old(history) < history
      ensures SameAt(old(refs), refs, locks) && (quiet ==> refs == old(refs) && current == old(current))
      ensures r == Some(false) ==> ReadIn(history, |old(history)|, name, Absent)
      ensures r.Some? ==> var first := history[|old(history)|].refs; name in first ==> !first[name].Symbolic?
      ensures name in locks && r.Some? ==> (r.value <==> name in refs) && (name in refs ==> !refs[name].Symbolic?)
      ensures quiet && reliable ==> r == if name !in refs then Some(false) else if refs[name].Symbolic? then None else Some(true)
    {
      hide Resolve;
      Others();
      var fails: bool := *;
      if (fails && !reliable) || (name in refs && refs[name].Symbolic?) {
        return None;
      }
      Others();
      fails := *;
      if fails && !reliable {
        return None;
      }
      if quiet || name in locks {
        ResolvesOrdinary(refs, name);
      }
      assert history[|history| - 1].refs == refs;
      return Some(Resolve(refs, name, 5) != None);
    }

    /** The object that a ref names. */
    method ReadHash(name: string, commit: bool) returns (r: Reading)
      requires Valid()
      modifies this`refs, this`current, this`history
      ensures Valid() && old(history) <= history && !r.Absent?
      ensures SameAt(old(refs), refs, locks) && (quiet ==> refs == old(refs) && current == old(current))
      ensures ReadIn(history, |old(history)|, name, r)
      ensures r.At? ==> Oid(r.oid) && (commit ==> r.oid in graph.parents)
      ensures name in locks && r.At? && (name in refs ==> !refs[name].Symbolic?) ==> name in refs && refs[name] == Direct(r.oid)
      ensures quiet && reliable && name in refs && !refs[name].Symbolic? ==> r == Found(graph, refs, name, commit)
    {
      hide Oid, Resolve;
      Others();
      var fails: bool := *;
      var value := Resolve(refs, name, 5);
      if name in refs ==> !refs[name].Symbolic? {
        ResolvesOrdinary(refs, name);
      }
      if (fails && !reliable) || value == None || !Oid(value.value) {
        return Refused;
      }
      assert Resolve(history[|history| - 1].refs, name, 5) == value;
      if commit {
        ghost var was := history;
        Others();
        fails := *;
        if (fails && !reliable) || value.value !in graph.parents {
          return Refused;
        }
        ReadInStays(was, history, |old(history)|, |old(history)|, name, At(value.value));
      }
      return At(value.value);
    }

    /** Three or four git calls; other processes act between them. What is read was so at some instant of the call, and a locked
        ref is read exactly; one that is symbolic all along is refused, and one that does not resolve is absent. */
    method ReadRef(name: string, commit: bool) returns (r: Reading)
      requires Valid()
      modifies this`refs, this`current, this`history
      ensures Valid() && old(history) <= history
      ensures SameAt(old(refs), refs, locks) && (quiet ==> refs == old(refs) && current == old(current))
      ensures ReadIn(history, |old(history)|, name, r)
      ensures (forall k :: |old(history)| <= k < |history| ==> name in history[k].refs && history[k].refs[name].Symbolic?) ==> r.Refused?
      ensures r.At? ==> Oid(r.oid) && (commit ==> r.oid in graph.parents)
      ensures name in locks && r.At? ==> name in refs && refs[name] == Direct(r.oid)
      ensures name in locks && r.Absent? ==> name !in refs
      ensures quiet && reliable ==> r == Found(graph, refs, name, commit)
    {
      hide Oid, ReadIn;
      var there := Probe(name);
      ghost var probed := history;
      if there == None {
        NothingRead(history, |old(history)|, name);
        return Refused;
      }
      if !there.value {
        return Absent;
      }
      r := ReadHash(name, commit);
      assert history[|old(history)|] == probed[|old(history)|];
      ReadInStays(history, history, |probed|, |old(history)|, name, r);
    }

    /** The branch that is checked out, "" for none. */
    method Current(policy: Policy) returns (r: Option<string>)
      requires Valid()
      modifies this`refs, this`current, this`history
      ensures Valid() && old(history) <= history && SameAt(old(refs), refs, locks) && (quiet ==> refs == old(refs) && current == old(current))
      ensures r.Some? ==> CurrentIn(history, |old(history)|, r.value) && (r.value == "" || ValidBranch(policy, r.value))
      ensures quiet && reliable ==> (r.Some? <==> Placeable(policy, current))
    {
      Others();
      assert history[|history| - 1].current == current;
      var fails: bool := *;
      return if (fails && !reliable) || !Placeable(policy, current) then None else Some(current);
    }

    // ----- inspection

    /** Reads every head; other processes may move branches in between. */
    method ReadHeads(rec: Record) returns (r: Option<map<string, string>>)
      requires Valid() && DistinctNames(rec)
      modifies this`refs, this`current, this`history
      ensures Valid() && old(history) <= history
      ensures r.Some? ==> HeadsRead(graph, rec, r.value) && HeadsSeen(history, |old(history)|, Names(rec), r.value)
      ensures quiet ==> refs == old(refs) && current == old(current)
      ensures quiet && reliable ==> (r.Some? <==> Readable(graph, refs, Names(rec)))
      ensures quiet && reliable && r.Some? ==> HeadsNow(graph, refs, Names(rec), r.value)
    {
      hide Oid, ReadIn, HeadRef;
      var heads: map<string, string> := map[];
      var names := Names(rec);
      for i := 0 to |names|
        invariant Valid() && old(history) <= history
        invariant forall j :: 0 <= j < i ==> names[j] in heads && HeadOk(graph, heads[names[j]])
        invariant HeadsSeen(history, |old(history)|, names[..i], heads)
        invariant quiet ==> refs == old(refs) && current == old(current)
        invariant quiet && reliable ==> Readable(graph, refs, names[..i]) && HeadsNow(graph, refs, names[..i], heads)
      {
        ghost var was := history;
        var reading := ReadRef(HeadRef(names[i]), true);
        if reading.Refused? {
          return None;
        }
        if reading.At? {
          OidNotEmpty(reading.oid);
        }
        ghost var before := heads;
        assert names[..i + 1] == names[..i] + [names[i]];
        heads := heads[names[i] := if reading.At? then reading.oid else ""];
        HeadSeen(was, history, |old(history)|, names, i, before, heads, reading);
      }
      assert names[..|names|] == names;
      return Some(heads);
    }

    /** Compares each head with its predecessor through their merge bases. */
    method CompareHeads(rec: Record, heads: map<string, string>, where_: string) returns (r: Option<Snapshot>)
      requires graph.Valid() && HeadsRead(graph, rec, heads)
      ensures reliable ==> r.Some?
      ensures r.Some? ==> r.value.heads == heads && r.value.current == where_ && r.value.valid == Healthy(graph, Heads(rec, heads))
      ensures r.Some? ==> Nodes(graph, rec, heads, r.value.current, r.value.nodes)
      ensures r.Some? ==> NodesTell(graph, rec, heads, r.value.current, r.value.nodes)
    {
      hide Ancestor, MergeBases, Oid, Healthy, NodesTell;
      var names := Names(rec);
      assert names[0] == rec.base;
      var valid := heads[rec.base] != "";
      var parent := rec.base;
      var nodes: seq<Node> := [];
      for i := 0 to |rec.branches|
        invariant parent == names[i]
        invariant |nodes| == i && forall j :: 0 <= j < i ==> nodes[j] == NodeOf(graph, rec, heads, where_, j)
        invariant valid <==> heads[rec.base] != "" && forall j :: 0 <= j < i ==> nodes[j].status == Ready
      {
        var b := rec.branches[i];
        assert names[i + 1] == b.name;
        var status := Ready;
        if heads[b.name] == "" {
          status := Missing;
        } else if heads[parent] == "" {
          status := MissingParent;
        } else {
          var fails: bool := *;
          if fails && !reliable {
            return None;
          }
          UniqueMergeBase(graph, heads[parent], heads[b.name]);
          if MergeBases(graph, heads[parent], heads[b.name]) != {heads[parent]} {
            status := Diverged;
          }
        }
        valid := valid && status == Ready;
        ghost var before := nodes;
        nodes := nodes + [Node(b.name, parent, heads[b.name], status, b.mr, where_ == b.name)];
        assert nodes[i].status == status && forall j :: 0 <= j < i ==> nodes[j] == before[j];
        parent := b.name;
      }
      ReadyMeansHealthy(graph, rec, heads, where_);
      NodesAreTold(graph, rec, heads, where_, nodes);
      return Some(Snapshot(where_, heads, nodes, valid));
    }

    /** Every head in the snapshot, and the branch checked out, were so at some instant of the inspection. */
    method Inspect(policy: Policy, rec: Record) returns (r: Option<Snapshot>)
      requires Valid()
      modifies this`refs, this`current, this`history
      ensures Valid() && old(history) <= history
      ensures r.Some? ==> WellFormed(policy, rec) && HeadsRead(graph, rec, r.value.heads)
      ensures r.Some? ==> HeadsSeen(history, |old(history)|, Names(rec), r.value.heads) && CurrentIn(history, |old(history)|, r.value.current)
      ensures r.Some? ==> r.value.valid == Healthy(graph, Heads(rec, r.value.heads))
      ensures r.Some? ==> Nodes(graph, rec, r.value.heads, r.value.current, r.value.nodes)
      ensures r.Some? ==> NodesTell(graph, rec, r.value.heads, r.value.current, r.value.nodes)
      ensures quiet ==> refs == old(refs) && current == old(current)
      ensures quiet && reliable ==> (r.Some? <==> WellFormed(policy, rec) && Placeable(policy, current) && Readable(graph, refs, Names(rec)))
      ensures quiet && reliable && r.Some? ==> HeadsNow(graph, refs, Names(rec), r.value.heads)
    {
      hide Healthy, Nodes, NodesTell, HeadsRead, HeadsSeen, CurrentIn, Readable, HeadsNow, ReadIn;
      var ok := Validate(policy, rec);
      if !ok {
        return None;
      }
      var where_ := Current(policy);
      if where_.None? {
        return None;
      }
      ghost var was := history;
      var heads := ReadHeads(rec);
      if heads.None? {
        return None;
      }
      SeenStays(was, history, |old(history)|, |was|, where_.value, Names(rec), heads.value);
      r := CompareHeads(rec, heads.value, where_.value);
    }

    // ----- publication

    /** git applies a prepared transaction in one step. */
    method Publish(ref: string, oid: string)
      requires Valid()
      modifies this`refs, this`published, this`history
      ensures Valid() && history == old(history) + [View(refs, current)]
      ensures refs == old(refs)[ref := Direct(oid)]
      ensures published == old(published) + [Publication(old(refs), ref, oid)]
    {
      published := published + [Publication(refs, ref, oid)];
      refs := refs[ref := Direct(oid)];
      history := history + [View(refs, current)];
    }

    /** Reads each guarded ref under its lock; git may die, and its locks with it. */
    method InspectGuards(guards: map<string, string>) returns (fit: bool, alive: bool)
      requires Valid() && locks == guards.Keys
      modifies this`refs, this`current, this`history, this`locks
      ensures Valid() && old(history) <= history
      ensures locks == if alive then guards.Keys else {}
      ensures fit && alive ==> Guarded(refs, guards)
      ensures quiet ==> refs == old(refs)
      ensures quiet && reliable && Usable(guards) ==> alive && (fit <==> Guarded(refs, guards))
    {
      hide Oid, ReadIn, Guarded, Resolve;
      alive := true;
      var names := guards.Keys;
      ghost var inspected: set<string> := {};
      while names != {}
        invariant Valid() && old(history) <= history
        invariant names <= guards.Keys && inspected == guards.Keys - names
        invariant locks == if alive then guards.Keys else {}
        invariant alive ==> Held(refs, guards, inspected)
        invariant (quiet ==> refs == old(refs)) && (reliable ==> alive)
      {
        var name :| name in names;
        names := names - {name};
        var dies: bool := *;
        if dies && !reliable {
          alive, locks := false, {};
        }
        ghost var was := refs;
        var reading := ReadRef(name, false);
        if alive {
          HeldStays(was, refs, guards, inspected);
        }
        inspected := inspected + {name};
        if reading.At? {
          OidNotEmpty(reading.oid);
        }
        if reading.Refused? || (if reading.At? then reading.oid else "") != guards[name] {
          if quiet && reliable && Usable(guards) {
            UnguardedBy(graph, refs, guards, name, reading);
          }
          return false, alive;
        }
      }
      if alive {
        HeldStays(refs, refs, guards, guards.Keys);
      }
      return true, alive;
    }

    /** One update-ref transaction: prepare takes git's locks, each guarded ref is inspected under its lock, then commit. */
    method CommitMetadata(ref: string, oid: string, guards: map<string, string>) returns (outcome: Outcome)
      requires Valid() && locks == {} && ref in guards
      modifies this
      ensures Valid() && old(history) <= history && locks == {}
      ensures published != old(published) ==> Appended(old(published), published) && PublishedIn(history, |old(history)|, published[|old(published)|])
      ensures published == old(published) || (Appended(old(published), published)
        && var p := published[|old(published)|]; p.ref == ref && p.oid == oid && Guarded(p.before, guards))
      ensures outcome.Confirmed? ==> published != old(published)
      ensures outcome.Conflict? ==> published == old(published)
      ensures quiet ==> refs == if published == old(published) then old(refs) else old(refs)[ref := Direct(oid)]
      ensures quiet && reliable && Usable(guards) ==> outcome == if Guarded(old(refs), guards) then Confirmed else Conflict
    {
      hide *;
      Others();
      var fails: bool := *;
      if fails && !reliable {
        return Uncertain;
      }
      locks := guards.Keys;
      var fit, alive := InspectGuards(guards);
      if !fit {
        locks := {};
        return Conflict;
      }
      var canceled: bool := *;
      if canceled && !reliable {
        locks := {};
        return Uncertain;
      }
      ghost var prepared := history;
      outcome := ApplyPrepared(ref, oid, guards, alive);
      if published != old(published) {
        AppendedLength(old(published), published);
        PublishedEarlier(history, |prepared|, |old(history)|, published[|old(published)|]);
      }
    }

    /** The commit of a prepared transaction: git publishes while it holds the locks, or not at all. */
    method ApplyPrepared(ref: string, oid: string, guards: map<string, string>, alive: bool) returns (outcome: Outcome)
      requires Valid() && locks == (if alive then guards.Keys else {}) && (alive ==> Guarded(refs, guards))
      modifies this
      ensures Valid() && old(history) <= history && locks == {}
      ensures published != old(published) ==> Appended(old(published), published) && PublishedIn(history, |old(history)|, published[|old(published)|])
      ensures published == old(published) || (Appended(old(published), published)
        && var p := published[|old(published)|]; p.ref == ref && p.oid == oid && Guarded(p.before, guards))
      ensures !outcome.Conflict? && (outcome.Confirmed? ==> published != old(published))
      ensures quiet ==> refs == if published == old(published) then old(refs) else old(refs)[ref := Direct(oid)]
      ensures reliable && alive ==> outcome.Confirmed?
    {
      hide *;
      ghost var was := refs;
      Others();
      ghost var found := history;
      if alive {
        GuardsStay(was, refs, guards);
      }
      var applied: bool := *;
      applied := applied || reliable;
      if alive && applied {
        Publish(ref, oid);
        AppendedOne(old(published), published[|old(published)|]);
        PublishedLast(found, |old(history)|, View(refs, current), published[|old(published)|]);
      }
      ghost var after := history;
      locks := {};
      Others();
      if alive && applied {
        PublishedStays(after, history, |old(history)|, published[|old(published)|]);
      }
      var acknowledged: bool := *;
      return if alive && applied && (acknowledged || reliable) then Confirmed else Uncertain;
    }

    /** The registered record and the object it came from, which the metadata ref named at some instant of the call. */
    method Load(policy: Policy, stack: string, host: string, project: string) returns (r: Loading)
      requires Valid()
      modifies this`refs, this`current, this`history
      ensures Valid() && old(history) <= history
      ensures r.Loaded? ==> LoadedAs(decode, r.prior, r.oid) && ReadIn(history, |old(history)|, MetadataRef(stack), Told(r.oid))
      ensures r.Loaded? && r.prior.Some? ==> WellFormed(policy, r.prior.value) && r.prior.value.host == host && r.prior.value.project == project
      ensures quiet ==> refs == old(refs) && current == old(current)
      ensures quiet && reliable ==> r == LoadedNow(graph, decode, policy, refs, stack, host, project)
    {
      hide WellFormed, ReadIn;
      var reading := ReadRef(MetadataRef(stack), false);
      if reading.Refused? {
        return Unreadable;
      } else if reading.Absent? {
        return Loaded(None, "");
      }
      var fails: bool := *;
      if (fails && !reliable) || decode(reading.oid).None? {
        return Unreadable;
      }
      var rec := decode(reading.oid).value;
      var ok := Validate(policy, rec);
      if !ok || rec.host != host || rec.project != project {
        return Unreadable;
      }
      return Loaded(Some(rec), reading.oid);
    }

    /** git hash-object -w: the object that holds the record's encoding, when git writes it. */
    method HashObject(rec: Record) returns (oid: Option<string>)
      ensures oid.Some? ==> decode(oid.value) == Some(rec)
      ensures reliable && decode(encode(rec)) == Some(rec) ==> oid == Some(encode(rec))
    {
      var answer: string := *;
      if reliable {
        answer := encode(rec);
      }
      return if decode(answer) == Some(rec) then Some(answer) else None;
    }

    /** git stores the record's encoding as an object. */
    predicate Stored(rec: Record) {
      Oid(encode(rec)) && decode(encode(rec)) == Some(rec)
    }

    lemma StoredMeans(rec: Record)
      ensures Stored(rec) ==> Oid(encode(rec)) && decode(encode(rec)) == Some(rec)
    {
      hide Oid;
    }

    /** What the transaction must find: the metadata ref as loaded, and every branch as inspected. */
    method BuildGuards(stack: string, priorOid: string, names: seq<string>, heads: map<string, string>)
      returns (ok: bool, guards: map<string, string>)
      requires priorOid == "" || Oid(priorOid)
      ensures ok <==> forall i :: 0 <= i < |names| ==> names[i] in heads && Oid(heads[names[i]])
      ensures ok ==> MetadataRef(stack) in guards && guards[MetadataRef(stack)] == priorOid && Usable(guards)
      ensures ok ==> BranchesGuarded(names, heads, guards) && OnlyGuards(stack, names, guards)
    {
      hide *;
      guards := map[MetadataRef(stack) := priorOid];
      NoBranchGuards(stack, names, heads, priorOid);
      for i := 0 to |names|
        invariant MetadataRef(stack) in guards && guards[MetadataRef(stack)] == priorOid
        invariant BranchesGuarded(names[..i], heads, guards)
        invariant forall j :: 0 <= j < i ==> names[j] in heads && Oid(heads[names[j]])
        invariant forall name :: name in guards ==> guards[name] == "" || Oid(guards[name])
        invariant OnlyGuards(stack, names[..i], guards)
      {
        if names[i] !in heads || !Oid(heads[names[i]]) {
          return false, guards;
        }
        OneMoreGuard(stack, names, i, guards, heads[names[i]]);
        RefsDiffer(names[i], stack);
        GuardBranch(names, i, heads, guards);
        guards := guards[HeadRef(names[i]) := heads[names[i]]];
      }
      assert names[..|names|] == names;
      UsableIs(guards);
      ok := true;
    }

    /** Publishes a record that extends the one loaded, over exactly the heads inspected. */
    method Save(policy: Policy, stack: string, prior: Option<Record>, priorOid: string, next: Record, snap: Snapshot) returns (r: Saved)
      requires Valid() && locks == {}
      modifies this
      ensures Valid() && old(history) <= history && locks == {}
      ensures published != old(published) ==> Appended(old(published), published) && PublishedIn(history, |old(history)|, published[|old(published)|])
      ensures published == old(published) || (Appended(old(published), published)
        && snap.valid && Sanctioned(decode, policy, stack, prior, priorOid, next, snap.heads, published[|old(published)|]))
      ensures r.Unchanged? || r.Registered? ==> published != old(published) && (r.Unchanged? <==> prior == Some(next))
      ensures r.Refusal? ==> published == old(published)
      ensures quiet && reliable && Stored(next) ==>
        ((r.Unchanged? || r.Registered?) <==> Savable(policy, old(refs), stack, prior, priorOid, next, snap))
    {
      hide *;
      var ok := Validate(policy, next);
      var compatible := Compatible(prior, next);
      var oid := HashObject(next);
      StoredMeans(next);
      SavableNeeds(policy, refs, stack, prior, priorOid, next, snap);
      if !ok || !compatible || !snap.valid || oid.None? || !Oid(oid.value) || (priorOid != "" && !Oid(priorOid)) {
        return Refusal;
      }
      var names := Names(next);
      var complete, guards := BuildGuards(stack, priorOid, names, snap.heads);
      if !complete {
        return Refusal;
      }
      GuardsSay(stack, priorOid, names, snap.heads, guards, refs);
      SavableIs(policy, refs, stack, prior, priorOid, next, snap);
      var outcome := CommitMetadata(MetadataRef(stack), oid.value, guards);
      if published != old(published) {
        AppendedLength(old(published), published);
        ghost var p := published[|old(published)|];
        GuardsMeanSanctioned(decode, policy, stack, prior, priorOid, next, snap.heads, guards, p);
      }
      match outcome
      case Confirmed => r := if prior == Some(next) then Unchanged else Registered;
      case Conflict => r := Refusal;
      case Uncertain => r := Unconfirmed;
    }

    /** stack init and stack link: load, check compatibility, inspect the branches, save. What is published extends the record
        that was registered at some instant of this call, over heads that the branches had at some instant of it, all before
        state number `n`; the commit comes after that. */
    method Register(policy: Policy, stack: string, next: Record) returns (r: Saved, ghost n: nat)
      requires Valid() && locks == {}
      modifies this
      ensures Valid() && old(history) <= history && locks == {} && |old(history)| <= n <= |history|
      ensures published == old(published) || (Appended(old(published), published)
        && RegistersRead(graph, decode, policy, stack, next, published[|old(published)|], history, |old(history)|, n))
      ensures published == old(published) || Registers(graph, decode, policy, stack, next, published[|old(published)|])
      ensures r.Unchanged? || r.Registered? ==> published != old(published)
      ensures r.Refusal? ==> published == old(published)
      ensures quiet && reliable && Stored(next) ==>
        ((r.Unchanged? || r.Registered?) <==> Registrable(graph, decode, policy, stack, next, old(refs), old(current)))
    {
      hide Registrable, Savable, LoadedNow, Readable, HeadsNow, Stored, Placeable, Names, Heads;
      hide WellFormed, Extends, Oid, Sanctioned, Healthy, HeadsRead, Nodes, ReadIn, HeadsSeen, PublishedIn, LoadedAs, CurrentIn;
      n := |history|;
      RegistrableMeans(graph, decode, policy, stack, next, refs, current);
      var loading := Load(policy, stack, next.host, next.project);
      n := |history|;
      if loading.Unreadable? {
        return Refusal, n;
      }
      var compatible := Compatible(loading.prior, next);
      if !compatible {
        return Refusal, n;
      }
      ghost var loaded := history;
      var snap := Inspect(policy, next);
      n := |history|;
      if quiet && reliable && snap.Some? {
        RegistrableSaves(graph, decode, policy, stack, next, refs, current, loading.prior, loading.oid, snap.value);
      }
      if snap.None? || !snap.value.valid {
        return Refusal, n;
      }
      ghost var inspected := history;
      ReadInStays(loaded, inspected, |old(history)|, |old(history)|, MetadataRef(stack), Told(loading.oid));
      HeadsStay(inspected, inspected, |loaded|, |old(history)|, Names(next), snap.value.heads);
      r := Save(policy, stack, loading.prior, loading.oid, next, snap.value);
      if published != old(published) {
        ghost var p := published[|old(published)|];
        assert inspected == history[..n];
        RegistersReading(graph, decode, policy, stack, next, p, loading.prior, loading.oid, snap.value.heads, history, |old(history)|, n);
      }
    }
  }

  datatype Loading = Unreadable | Loaded(prior: Option<Record>, oid: string)
  datatype Status = Ready | Missing | MissingParent | Diverged
  datatype Node = Node(name: string, parent: string, head: string, status: Status, mr: int, current: bool)
  datatype Snapshot = Snapshot(current: string, heads: map<string, string>, nodes: seq<Node>, valid: bool)
  datatype Outcome = Confirmed | Conflict | Uncertain
  datatype Saved = Unchanged | Registered | Refusal | Unconfirmed

  // ----- what a snapshot says

  /** The reading that an object ID stands for, "" meaning none. */
  function Told(oid: string): Reading {
    if oid == "" then Absent else At(oid)
  }

  /** Every head was read as it was at some instant from `from` on. */
  ghost predicate HeadsSeen(history: seq<View>, from: nat, names: seq<string>, heads: map<string, string>) {
    forall i :: 0 <= i < |names| ==> names[i] in heads && ReadIn(history, from, HeadRef(names[i]), Told(heads[names[i]]))
  }

  ghost predicate CurrentIn(history: seq<View>, from: nat, current: string) {
    exists k :: from <= k < |history| && history[k].current == current
  }

  /** The publication was one step of the repository, from state number `from` on: the ref held the object right after it. */
  ghost predicate PublishedIn(history: seq<View>, from: nat, p: Publication) {
    exists k :: from <= k < |history| - 1 && history[k].refs == p.before && history[k + 1].refs == p.before[p.ref := Direct(p.oid)]
  }

  lemma PublishedLast(was: seq<View>, from: nat, now: View, p: Publication)
    requires from < |was| && was[|was| - 1].refs == p.before && now.refs == p.before[p.ref := Direct(p.oid)]
    ensures PublishedIn(was + [now], from, p)
  {
    var history := was + [now];
    assert history[|was| - 1] == was[|was| - 1] && history[|was| - 1 + 1] == now;
  }

  lemma PublishedEarlier(history: seq<View>, from: nat, earlier: nat, p: Publication)
    requires PublishedIn(history, from, p) && earlier <= from
    ensures PublishedIn(history, earlier, p)
  {
  }

  lemma PublishedStays(was: seq<View>, now: seq<View>, from: nat, p: Publication)
    requires PublishedIn(was, from, p) && was <= now
    ensures PublishedIn(now, from, p)
  {
    var k :| from <= k < |was| - 1 && was[k].refs == p.before && was[k + 1].refs == p.before[p.ref := Direct(p.oid)];
    assert now[k] == was[k] && now[k + 1] == was[k + 1];
  }

  lemma AppendedLength(was: seq<Publication>, now: seq<Publication>)
    requires Appended(was, now)
    ensures |now| == |was| + 1
  {
  }

  lemma AppendedOne(was: seq<Publication>, p: Publication)
    ensures Appended(was, was + [p])
  {
  }

  lemma HeadsStay(was: seq<View>, now: seq<View>, from: nat, earlier: nat, names: seq<string>, heads: map<string, string>)
    requires HeadsSeen(was, from, names, heads) && was <= now && earlier <= from
    ensures HeadsSeen(now, earlier, names, heads)
  {
    hide ReadIn, HeadRef, Told;
    forall i | 0 <= i < |names| ensures names[i] in heads && ReadIn(now, earlier, HeadRef(names[i]), Told(heads[names[i]])) {
      ReadInStays(was, now, from, earlier, HeadRef(names[i]), Told(heads[names[i]]));
    }
  }

  lemma HeadSeen(was: seq<View>, now: seq<View>, from: nat, names: seq<string>, i: nat, before: map<string, string>, heads: map<string, string>, r: Reading)
    requires i < |names| && (forall j :: 0 <= j < i ==> names[j] != names[i]) && was <= now && from <= |was|
    requires HeadsSeen(was, from, names[..i], before) && ReadIn(now, |was|, HeadRef(names[i]), r)
    requires r.Absent? || (r.At? && r.oid != "")
    requires heads == before[names[i] := if r.At? then r.oid else ""]
    ensures HeadsSeen(now, from, names[..i + 1], heads)
  {
    hide ReadIn, HeadRef;
    HeadsStay(was, now, from, from, names[..i], before);
    ReadInStays(now, now, |was|, from, HeadRef(names[i]), r);
    var part := names[..i + 1];
    forall j | 0 <= j < |part| ensures part[j] in heads && ReadIn(now, from, HeadRef(part[j]), Told(heads[part[j]])) {
      if j < i {
        assert part[j] == names[..i][j];
      }
    }
  }

  lemma SeenStays(was: seq<View>, now: seq<View>, from: nat, later: nat, current: string, names: seq<string>, heads: map<string, string>)
    requires was <= now && from <= later && CurrentIn(was, from, current) && HeadsSeen(now, later, names, heads)
    ensures CurrentIn(now, from, current) && HeadsSeen(now, from, names, heads)
  {
    hide HeadsSeen;
    HeadsStay(now, now, later, from, names, heads);
    var k :| from <= k < |was| && was[k].current == current;
    assert now[k] == was[k];
  }

  /** No branch is checked out, or one with a usable name. */
  predicate Placeable(policy: Policy, current: string) {
    current == "" || ValidBranch(policy, current)
  }

  // ----- what is read when nothing interferes

  ghost predicate Readable(graph: Graph, refs: map<string, Ref>, names: seq<string>) {
    forall i :: 0 <= i < |names| ==> !Found(graph, refs, HeadRef(names[i]), true).Refused?
  }

  ghost function HeadNow(graph: Graph, refs: map<string, Ref>, name: string): string {
    var found := Found(graph, refs, HeadRef(name), true);
    if found.At? then found.oid else ""
  }

  ghost predicate HeadsNow(graph: Graph, refs: map<string, Ref>, names: seq<string>, heads: map<string, string>) {
    forall i :: 0 <= i < |names| ==> names[i] in heads && heads[names[i]] == HeadNow(graph, refs, names[i])
  }

  ghost function ChainNow(graph: Graph, refs: map<string, Ref>, names: seq<string>): (heads: seq<string>)
    ensures |heads| == |names| && forall i :: 0 <= i < |names| ==> heads[i] == HeadNow(graph, refs, names[i])
  {
    seq(|names|, i requires 0 <= i < |names| => HeadNow(graph, refs, names[i]))
  }

  /** The record the metadata ref names, if that is readable and belongs to the project. */
  ghost function LoadedNow(graph: Graph, decode: Decoder, policy: Policy, refs: map<string, Ref>, stack: string, host: string, project: string): Loading {
    match Found(graph, refs, MetadataRef(stack), false)
    case Refused => Unreadable
    case Absent => Loaded(None, "")
    case At(oid) =>
      if decode(oid).Some? && WellFormed(policy, decode(oid).value) && decode(oid).value.host == host && decode(oid).value.project == project
      then Loaded(decode(oid), oid) else Unreadable
  }

  ghost predicate MetadataAt(refs: map<string, Ref>, stack: string, oid: string) {
    var ref := MetadataRef(stack);
    if oid == "" then ref !in refs else ref in refs && refs[ref] == Direct(oid)
  }

  /** A record can be published over a snapshot: it is in order, extends the old one, and nothing has moved. */
  ghost predicate Savable(policy: Policy, refs: map<string, Ref>, stack: string, prior: Option<Record>, priorOid: string, next: Record, snap: Snapshot) {
    && WellFormed(policy, next) && (prior.None? || Extends(prior.value, next)) && snap.valid
    && (priorOid == "" || Oid(priorOid)) && MetadataAt(refs, stack, priorOid)
    && BranchesAt(Names(next), snap.heads, refs) && (forall i :: 0 <= i < |Names(next)| ==> Oid(snap.heads[Names(next)[i]]))
  }

  lemma SavableNeeds(policy: Policy, refs: map<string, Ref>, stack: string, prior: Option<Record>, priorOid: string, next: Record, snap: Snapshot)
    ensures Savable(policy, refs, stack, prior, priorOid, next, snap) ==>
      && WellFormed(policy, next) && (prior.None? || Extends(prior.value, next)) && snap.valid && (priorOid == "" || Oid(priorOid))
      && forall i :: 0 <= i < |Names(next)| ==> Names(next)[i] in snap.heads && Oid(snap.heads[Names(next)[i]])
  {
    hide WellFormed, Extends, Oid, MetadataAt, Names;
  }

  lemma SavableIs(policy: Policy, refs: map<string, Ref>, stack: string, prior: Option<Record>, priorOid: string, next: Record, snap: Snapshot)
    requires WellFormed(policy, next) && (prior.None? || Extends(prior.value, next)) && snap.valid && (priorOid == "" || Oid(priorOid))
    requires forall i :: 0 <= i < |Names(next)| ==> Names(next)[i] in snap.heads && Oid(snap.heads[Names(next)[i]])
    ensures Savable(policy, refs, stack, prior, priorOid, next, snap) <==> MetadataAt(refs, stack, priorOid) && BranchesAt(Names(next), snap.heads, refs)
  {
    hide WellFormed, Extends, Oid, MetadataAt, Names, BranchesAt;
  }

  lemma UsableIs(guards: map<string, string>)
    requires forall name :: name in guards ==> guards[name] == "" || Oid(guards[name])
    ensures Usable(guards)
  {
  }

  /** A record can be registered: it is in order, its branches exist in one line, and the stack is new or registered with a record
      of the project that it extends. */
  ghost predicate Registrable(graph: Graph, decode: Decoder, policy: Policy, stack: string, next: Record, refs: map<string, Ref>, current: string)
    requires graph.Valid()
  {
    && WellFormed(policy, next) && Placeable(policy, current)
    && Healthy(graph, ChainNow(graph, refs, Names(next)))
    && var loading := LoadedNow(graph, decode, policy, refs, stack, next.host, next.project);
    loading.Loaded? && (loading.prior.None? || Extends(loading.prior.value, next))
  }

  lemma RegistrableMeans(graph: Graph, decode: Decoder, policy: Policy, stack: string, next: Record, refs: map<string, Ref>, current: string)
    requires graph.Valid()
    ensures Registrable(graph, decode, policy, stack, next, refs, current) ==>
      && WellFormed(policy, next) && Placeable(policy, current) && Readable(graph, refs, Names(next))
      && var loading := LoadedNow(graph, decode, policy, refs, stack, next.host, next.project);
      loading.Loaded? && (loading.prior.None? || Extends(loading.prior.value, next))
  {
    hide WellFormed, Extends, LoadedNow, Placeable, Oid, HeadRef;
    if Registrable(graph, decode, policy, stack, next, refs, current) {
      var names := Names(next);
      var heads := ChainNow(graph, refs, names);
      forall i | 0 <= i < |names| ensures !Found(graph, refs, HeadRef(names[i]), true).Refused? {
        assert heads[i] == HeadNow(graph, refs, names[i]) && heads[i] != "";
      }
    }
  }

  /** With everything read as it is, what can be registered is what can be saved over the snapshot. */
  lemma RegistrableSaves(graph: Graph, decode: Decoder, policy: Policy, stack: string, next: Record, refs: map<string, Ref>, current: string,
      prior: Option<Record>, priorOid: string, snap: Snapshot)
    requires graph.Valid() && Loaded(prior, priorOid) == LoadedNow(graph, decode, policy, refs, stack, next.host, next.project)
    requires (prior.None? || Extends(prior.value, next)) && WellFormed(policy, next) && Placeable(policy, current)
    requires HeadsNow(graph, refs, Names(next), snap.heads) && HeadsRead(graph, next, snap.heads)
    requires snap.valid == Healthy(graph, Heads(next, snap.heads))
    ensures Registrable(graph, decode, policy, stack, next, refs, current) <==> snap.valid
    ensures snap.valid ==> Savable(policy, refs, stack, prior, priorOid, next, snap)
  {
    hide WellFormed, Extends, Placeable, Oid, HeadRef, MetadataRef, Chain;
    var names := Names(next);
    assert ChainNow(graph, refs, names) == Heads(next, snap.heads);
    if snap.valid {
      LoadedAt(graph, decode, policy, refs, stack, next.host, next.project);
      forall i | 0 <= i < |names|
        ensures Oid(snap.heads[names[i]]) && HeadRef(names[i]) in refs && refs[HeadRef(names[i])] == Direct(snap.heads[names[i]])
      {
        assert Heads(next, snap.heads)[i] != "";
        assert Found(graph, refs, HeadRef(names[i]), true).At?;
      }
    }
  }

  lemma LoadedAt(graph: Graph, decode: Decoder, policy: Policy, refs: map<string, Ref>, stack: string, host: string, project: string)
    ensures var loading := LoadedNow(graph, decode, policy, refs, stack, host, project);
      loading.Loaded? ==> MetadataAt(refs, stack, loading.oid) && (loading.oid == "" || Oid(loading.oid))
  {
    hide WellFormed, MetadataRef;
  }

  /** "" for a missing branch, else a commit. */
  ghost predicate HeadOk(graph: Graph, head: string) {
    head == "" || (Oid(head) && head in graph.parents)
  }

  ghost predicate HeadsRead(graph: Graph, rec: Record, heads: map<string, string>) {
    forall i :: 0 <= i < |Names(rec)| ==> Names(rec)[i] in heads && HeadOk(graph, heads[Names(rec)[i]])
  }

  /** The heads of the base and then of each branch. */
  ghost function Heads(rec: Record, heads: map<string, string>): seq<string>
    requires forall i :: 0 <= i < |Names(rec)| ==> Names(rec)[i] in heads
  {
    seq(|Names(rec)|, i requires 0 <= i < |Names(rec)| => heads[Names(rec)[i]])
  }

  /** Every head exists and each is an ancestor of the next. */
  ghost predicate Healthy(graph: Graph, heads: seq<string>)
    requires graph.Valid()
  {
    && (forall i :: 0 <= i < |heads| ==> heads[i] in graph.parents && heads[i] != "")
    && Chain(graph, heads)
  }

  ghost function StatusOf(graph: Graph, parent: string, head: string): Status
    requires graph.Valid() && HeadOk(graph, parent) && HeadOk(graph, head)
  {
    if head == "" then Missing
    else if parent == "" then MissingParent
    else if Ancestor(graph, parent, head) then Ready
    else Diverged
  }

  ghost function NodeOf(graph: Graph, rec: Record, heads: map<string, string>, current: string, i: nat): Node
    requires graph.Valid() && HeadsRead(graph, rec, heads) && i < |rec.branches|
  {
    var parent, b := Names(rec)[i], rec.branches[i];
    Node(b.name, parent, heads[Names(rec)[i + 1]], StatusOf(graph, heads[parent], heads[Names(rec)[i + 1]]), b.mr, current == b.name)
  }

  ghost predicate DistinctNames(rec: Record) {
    forall i, j :: 0 <= i < j < |Names(rec)| ==> Names(rec)[i] != Names(rec)[j]
  }

  ghost predicate Nodes(graph: Graph, rec: Record, heads: map<string, string>, current: string, nodes: seq<Node>)
    requires graph.Valid() && HeadsRead(graph, rec, heads)
  {
    |nodes| == |rec.branches| && forall i :: 0 <= i < |nodes| ==> nodes[i] == NodeOf(graph, rec, heads, current, i)
  }

  /** What a node says of its branch: the one it stands on and its head; missing if it has none, over a missing parent if only that
      has none, ready if the parent's head is an ancestor of its own, and else diverged. */
  ghost predicate NodeTells(graph: Graph, rec: Record, heads: map<string, string>, current: string, node: Node, i: nat)
    requires graph.Valid() && HeadsRead(graph, rec, heads) && i < |rec.branches|
  {
    var b, under, own := rec.branches[i], heads[Names(rec)[i]], heads[Names(rec)[i + 1]];
    && node.name == b.name == Names(rec)[i + 1] && node.mr == b.mr && (node.current <==> current == b.name)
    && node.parent == Names(rec)[i] == (if i == 0 then rec.base else rec.branches[i - 1].name)
    && node.head == own
    && (node.status == Missing <==> own == "")
    && (node.status == MissingParent <==> own != "" && under == "")
    && (node.status == Ready <==> own != "" && under != "" && Ancestor(graph, under, own))
  }

  ghost predicate NodesTell(graph: Graph, rec: Record, heads: map<string, string>, current: string, nodes: seq<Node>)
    requires graph.Valid() && HeadsRead(graph, rec, heads)
  {
    |nodes| == |rec.branches| && forall i :: 0 <= i < |nodes| ==> NodeTells(graph, rec, heads, current, nodes[i], i)
  }

  lemma NodeIsTold(graph: Graph, rec: Record, heads: map<string, string>, current: string, i: nat)
    requires graph.Valid() && HeadsRead(graph, rec, heads) && i < |rec.branches|
    ensures NodeTells(graph, rec, heads, current, NodeOf(graph, rec, heads, current, i), i)
  {
    hide Ancestor, Oid;
  }

  lemma NodesAreTold(graph: Graph, rec: Record, heads: map<string, string>, current: string, nodes: seq<Node>)
    requires graph.Valid() && HeadsRead(graph, rec, heads) && Nodes(graph, rec, heads, current, nodes)
    ensures NodesTell(graph, rec, heads, current, nodes)
  {
    hide NodeOf, NodeTells, HeadsRead;
    forall i | 0 <= i < |nodes| ensures NodeTells(graph, rec, heads, current, nodes[i], i) {
      NodeIsTold(graph, rec, heads, current, i);
    }
  }

  /** All nodes ready over an existing base is exactly a healthy chain. */
  lemma ReadyMeansHealthy(graph: Graph, rec: Record, heads: map<string, string>, current: string)
    requires graph.Valid() && HeadsRead(graph, rec, heads)
    ensures Healthy(graph, Heads(rec, heads)) <==>
      heads[Names(rec)[0]] != "" && forall j :: 0 <= j < |rec.branches| ==> NodeOf(graph, rec, heads, current, j).status == Ready
  {
    var hs := Heads(rec, heads);
    if heads[Names(rec)[0]] != "" && forall j :: 0 <= j < |rec.branches| ==> NodeOf(graph, rec, heads, current, j).status == Ready {
      forall i | 0 <= i < |hs| ensures hs[i] in graph.parents && hs[i] != "" {
        if i > 0 { assert NodeOf(graph, rec, heads, current, i - 1).status == Ready; }
      }
      forall i | 0 <= i < |hs| - 1 ensures Ancestor(graph, hs[i], hs[i + 1]) {
        assert NodeOf(graph, rec, heads, current, i).status == Ready;
      }
    }
    if Healthy(graph, hs) {
      assert hs[0] == heads[Names(rec)[0]];
      forall j | 0 <= j < |rec.branches| ensures NodeOf(graph, rec, heads, current, j).status == Ready {
        assert Ancestor(graph, hs[j], hs[j + 1]);
      }
    }
  }

  // ----- what a publication guards

  ghost predicate GuardHolds(refs: map<string, Ref>, guards: map<string, string>, name: string)
    requires name in guards
  {
    if guards[name] == "" then name !in refs else name in refs && refs[name] == Direct(guards[name])
  }

  ghost predicate Held(refs: map<string, Ref>, guards: map<string, string>, names: set<string>) {
    names <= guards.Keys && forall name :: name in names ==> GuardHolds(refs, guards, name)
  }

  /** Locks keep what was inspected under them. */
  lemma HeldStays(was: map<string, Ref>, now: map<string, Ref>, guards: map<string, string>, names: set<string>)
    requires Held(was, guards, names) && SameAt(was, now, guards.Keys)
    ensures Held(now, guards, names)
    ensures names == guards.Keys ==> Guarded(now, guards)
  {
  }

  lemma GuardsStay(was: map<string, Ref>, now: map<string, Ref>, guards: map<string, string>)
    requires Guarded(was, guards) && SameAt(was, now, guards.Keys)
    ensures Guarded(now, guards)
  {
  }

  function HeadRef(name: string): string {
    "refs/heads/" + name
  }

  function MetadataRef(stack: string): string {
    "refs/glab-axi/stacks/" + stack
  }

  lemma HeadRefInjective(a: string, b: string)
    requires HeadRef(a) == HeadRef(b)
    ensures a == b
  {
    assert HeadRef(a)[11..] == a && HeadRef(b)[11..] == b;
  }

  lemma RefsDiffer(name: string, stack: string)
    ensures HeadRef(name) != MetadataRef(stack)
  {
    assert HeadRef(name)[5] == 'h' && MetadataRef(stack)[5] == 'g';
  }

  ghost predicate BranchesGuarded(names: seq<string>, heads: map<string, string>, guards: map<string, string>) {
    forall i :: 0 <= i < |names| ==>
      names[i] in heads && Oid(heads[names[i]]) && HeadRef(names[i]) in guards && guards[HeadRef(names[i])] == heads[names[i]]
  }

  /** Guards that git can compare with: no ref, or an object. */
  ghost predicate Usable(guards: map<string, string>) {
    forall name :: name in guards ==> guards[name] == "" || Oid(guards[name])
  }

  lemma UnguardedBy(graph: Graph, refs: map<string, Ref>, guards: map<string, string>, name: string, r: Reading)
    requires Usable(guards) && name in guards && r == Found(graph, refs, name, false)
    requires r.Refused? || (if r.At? then r.oid else "") != guards[name]
    ensures !Guarded(refs, guards)
  {
  }

  /** Only the metadata ref and these branches are guarded. */
  ghost predicate OnlyGuards(stack: string, names: seq<string>, guards: map<string, string>) {
    forall ref :: ref in guards ==> ref == MetadataRef(stack) || exists i :: 0 <= i < |names| && ref == HeadRef(names[i])
  }

  lemma NoBranchGuards(stack: string, names: seq<string>, heads: map<string, string>, priorOid: string)
    ensures OnlyGuards(stack, names[..0], map[MetadataRef(stack) := priorOid])
    ensures BranchesGuarded(names[..0], heads, map[MetadataRef(stack) := priorOid])
  {
  }

  lemma OneMoreGuard(stack: string, names: seq<string>, i: nat, guards: map<string, string>, head: string)
    requires i < |names| && OnlyGuards(stack, names[..i], guards)
    ensures OnlyGuards(stack, names[..i + 1], guards[HeadRef(names[i]) := head])
  {
    hide HeadRef, MetadataRef;
    var part, more := names[..i + 1], guards[HeadRef(names[i]) := head];
    forall ref | ref in more ensures ref == MetadataRef(stack) || exists j :: 0 <= j < |part| && ref == HeadRef(part[j]) {
      if ref == HeadRef(names[i]) {
        assert part[i] == names[i];
      } else if ref != MetadataRef(stack) {
        var j :| 0 <= j < i && ref == HeadRef(names[..i][j]);
        assert part[j] == names[..i][j];
      }
    }
  }

  /** The guards of a publication say that nothing has moved. */
  lemma GuardsSay(stack: string, priorOid: string, names: seq<string>, heads: map<string, string>, guards: map<string, string>, refs: map<string, Ref>)
    requires BranchesGuarded(names, heads, guards) && OnlyGuards(stack, names, guards)
    requires MetadataRef(stack) in guards && guards[MetadataRef(stack)] == priorOid
    ensures Guarded(refs, guards) <==> MetadataAt(refs, stack, priorOid) && BranchesAt(names, heads, refs)
    ensures forall i :: 0 <= i < |names| ==> names[i] in heads && Oid(heads[names[i]])
  {
    hide HeadRef, MetadataRef;
    if Guarded(refs, guards) {
      forall i | 0 <= i < |names| ensures HeadRef(names[i]) in refs && refs[HeadRef(names[i])] == Direct(heads[names[i]]) {
        OidNotEmpty(heads[names[i]]);
        assert HeadRef(names[i]) in guards;
      }
    }
    if MetadataAt(refs, stack, priorOid) && BranchesAt(names, heads, refs) {
      forall ref | ref in guards ensures if guards[ref] == "" then ref !in refs else ref in refs && refs[ref] == Direct(guards[ref]) {
        if ref != MetadataRef(stack) {
          var i :| 0 <= i < |names| && ref == HeadRef(names[i]);
          OidNotEmpty(heads[names[i]]);
        }
      }
    }
  }

  lemma GuardBranch(names: seq<string>, i: nat, heads: map<string, string>, guards: map<string, string>)
    requires i < |names| && BranchesGuarded(names[..i], heads, guards) && names[i] in heads && Oid(heads[names[i]])
    ensures BranchesGuarded(names[..i + 1], heads, guards[HeadRef(names[i]) := heads[names[i]]])
  {
    hide Oid, HeadRef;
    var now := guards[HeadRef(names[i]) := heads[names[i]]];
    forall j | 0 <= j < i + 1
      ensures names[j] in heads && Oid(heads[names[j]]) && HeadRef(names[j]) in now && now[HeadRef(names[j])] == heads[names[j]]
    {
      if j < i {
        assert names[..i][j] == names[j];
        if HeadRef(names[j]) == HeadRef(names[i]) {
          HeadRefInjective(names[j], names[i]);
        }
      }
    }
  }

  /** What a load reports: no stack, or the record that the object holds. */
  ghost predicate LoadedAs(decode: Decoder, prior: Option<Record>, oid: string) {
    if prior.None? then oid == "" else oid != "" && decode(oid) == prior
  }

  /** At the commit instant the metadata ref still holds the old object, every branch its inspected head, and the record extends the old one. */
  ghost predicate Sanctioned(decode: Decoder, policy: Policy, stack: string, prior: Option<Record>, priorOid: string,
      next: Record, heads: map<string, string>, p: Publication) {
    && p.ref == MetadataRef(stack) && Oid(p.oid) && decode(p.oid) == Some(next)
    && WellFormed(policy, next) && (prior.None? || Extends(prior.value, next))
    && (if priorOid == "" then p.ref !in p.before else p.ref in p.before && p.before[p.ref] == Direct(priorOid))
    && BranchesAt(Names(next), heads, p.before)
  }

  ghost predicate BranchesAt(names: seq<string>, heads: map<string, string>, refs: map<string, Ref>) {
    forall i :: 0 <= i < |names| ==>
      names[i] in heads && HeadRef(names[i]) in refs && refs[HeadRef(names[i])] == Direct(heads[names[i]])
  }

  lemma GuardsMeanSanctioned(decode: Decoder, policy: Policy, stack: string, prior: Option<Record>, priorOid: string,
      next: Record, heads: map<string, string>, guards: map<string, string>, p: Publication)
    requires p.ref == MetadataRef(stack) && Oid(p.oid) && decode(p.oid) == Some(next)
    requires WellFormed(policy, next) && (prior.None? || Extends(prior.value, next))
    requires Guarded(p.before, guards) && MetadataRef(stack) in guards && guards[MetadataRef(stack)] == priorOid
    requires BranchesGuarded(Names(next), heads, guards)
    ensures Sanctioned(decode, policy, stack, prior, priorOid, next, heads, p)
  {
  }

  ghost predicate RegistersFrom(graph: Graph, decode: Decoder, policy: Policy, stack: string, next: Record, p: Publication,
      prior: Option<Record>, priorOid: string, heads: map<string, string>)
    requires graph.Valid()
  {
    && LoadedAs(decode, prior, priorOid)
    && Sanctioned(decode, policy, stack, prior, priorOid, next, heads, p)
    && HeadsRead(graph, next, heads) && Healthy(graph, Heads(next, heads))
  }

  /** A registration rests on readings of this repository: the record that the metadata ref named, and the heads that the branches
      had, between states `from` and `n`; the commit is a step from `n` on. */
  ghost predicate RegistersRead(graph: Graph, decode: Decoder, policy: Policy, stack: string, next: Record, p: Publication,
      history: seq<View>, from: nat, n: nat)
    requires graph.Valid() && n <= |history|
  {
    PublishedIn(history, n, p) && exists prior, priorOid, heads ::
      RegistersFrom(graph, decode, policy, stack, next, p, prior, priorOid, heads)
      && ReadIn(history[..n], from, MetadataRef(stack), Told(priorOid)) && HeadsSeen(history[..n], from, Names(next), heads)
  }

  lemma RegistersReading(graph: Graph, decode: Decoder, policy: Policy, stack: string, next: Record, p: Publication,
      prior: Option<Record>, priorOid: string, heads: map<string, string>, history: seq<View>, from: nat, n: nat)
    requires graph.Valid() && n <= |history| && PublishedIn(history, n, p)
    requires RegistersFrom(graph, decode, policy, stack, next, p, prior, priorOid, heads)
    requires ReadIn(history[..n], from, MetadataRef(stack), Told(priorOid)) && HeadsSeen(history[..n], from, Names(next), heads)
    ensures RegistersRead(graph, decode, policy, stack, next, p, history, from, n)
    ensures Registers(graph, decode, policy, stack, next, p)
  {
    hide RegistersFrom, ReadIn, HeadsSeen, PublishedIn, Told, MetadataRef;
  }

  /** The publication comes from a record loaded before it and from heads seen in order before it. */
  ghost predicate Registers(graph: Graph, decode: Decoder, policy: Policy, stack: string, next: Record, p: Publication)
    requires graph.Valid()
  {
    exists prior, priorOid, heads :: RegistersFrom(graph, decode, policy, stack, next, p, prior, priorOid, heads)
  }
}
