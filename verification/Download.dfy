/** The download transaction of internal/safedownload/download.go over a shared file system. */
module Download {
  import opened Fields
  import opened Paths
  import Archive
  import opened Bytes
  import opened Wrappers

  // ----- the file system, one system call at a time

  /** What a name is bound to: an identity that is never used again, and whether it is a directory. */
  datatype Node = Node(id: nat, dir: bool)

  /** A name in the directory with some identity. */
  type Key = (nat, string)

  predicate WellFormed(nodes: map<Key, Node>, next: nat) {
    forall key :: key in nodes ==> key.0 < next && nodes[key].id < next
  }

  class FileSystem {
    var nodes: map<Key, Node>
    var next: nat
    /** Nobody else writes. */
    const quiet: bool
    /** Opening, examining, closing and removing succeed on what is there. */
    const examines: bool
    /** Nor does any other call fail by itself: creating fails only on a name that is taken, renaming also on one that is gone, and
        copying never. */
    const reliable: bool
    /** Identities our calls created, and those they took away. */
    ghost var created: set<nat>
    ghost var removed: set<nat>
    /** Names our calls bound. */
    ghost var bound: set<Key>
    /** What names meant each time a call of ours looked. */
    ghost var history: seq<map<Key, Node>>

    ghost predicate Valid()
      reads this
    {
      WellFormed(nodes, next) && (forall id :: id in created ==> id < next) && (reliable ==> examines)
    }

    lemma Sane()
      requires Valid()
      ensures reliable ==> examines
    {
    }

    constructor (nodes: map<Key, Node>, next: nat, quiet: bool, examines: bool, reliable: bool)
      requires WellFormed(nodes, next) && (reliable ==> examines)
      ensures Valid() && this.nodes == nodes && this.next == next
      ensures this.quiet == quiet && this.examines == examines && this.reliable == reliable
      ensures created == {} && removed == {} && bound == {} && history == []
    {
      this.nodes, this.next, this.quiet, this.examines, this.reliable := nodes, next, quiet, examines, reliable;
      created, removed, bound, history := {}, {}, {}, [];
    }

    /** Other processes may do anything between two calls. */
    method Others()
      requires Valid()
      modifies this`nodes, this`next, this`history
      ensures Valid() && next >= old(next) && history == old(history) + [nodes]
      ensures quiet ==> nodes == old(nodes) && next == old(next)
    {
      if !quiet {
        var after: map<Key, Node> := *;
        var later: nat := *;
        if later >= next && WellFormed(after, later) {
          nodes, next := after, later;
        }
      }
      history := history + [nodes];
    }

    /** Mkdirat: `at` is what names mean at that instant. */
    method Mkdir(dir: nat, name: string) returns (ok: bool, ghost id: nat, ghost at: map<Key, Node>)
      requires Valid() && dir < next
      modifies this
      ensures Valid() && next >= old(next) && removed == old(removed) && history == old(history) + [at] && (quiet ==> at == old(nodes))
      ensures ok ==> (dir, name) !in at && nodes == at[(dir, name) := Node(id, true)]
      ensures ok ==> id !in old(created) && id >= old(next) && created == old(created) + {id} && bound == old(bound) + {(dir, name)}
      ensures !ok ==> nodes == at && created == old(created) && bound == old(bound) && (reliable ==> (dir, name) in at)
    {
      Others();
      at := nodes;
      var fails: bool := *;
      id := next;
      if (fails && !reliable) || (dir, name) in nodes {
        return false, id, at;
      }
      Bind(dir, name, Node(next, true));
      return true, id, at;
    }

    /** Openat with O_CREAT and O_EXCL: the descriptor is the new file itself. */
    method CreateFile(dir: nat, name: string) returns (id: Option<nat>, ghost at: map<Key, Node>)
      requires Valid() && dir < next
      modifies this
      ensures Valid() && next >= old(next) && removed == old(removed) && history == old(history) + [at] && (quiet ==> at == old(nodes))
      ensures id.Some? ==> (dir, name) !in at && nodes == at[(dir, name) := Node(id.value, false)]
      ensures id.Some? ==> id.value !in old(created) && old(next) <= id.value < next && created == old(created) + {id.value}
      ensures id.Some? ==> bound == old(bound) + {(dir, name)}
      ensures id.None? ==> nodes == at && created == old(created) && bound == old(bound) && (reliable ==> (dir, name) in at)
    {
      Others();
      at := nodes;
      var fails: bool := *;
      if (fails && !reliable) || (dir, name) in nodes {
        return None, at;
      }
      id := Some(next);
      Bind(dir, name, Node(next, false));
    }

    method Bind(dir: nat, name: string, node: Node)
      requires Valid() && dir < next && node.id == next
      modifies this
      ensures Valid() && nodes == old(nodes)[(dir, name) := node] && next == old(next) + 1
      ensures created == old(created) + {node.id} && bound == old(bound) + {(dir, name)}
      ensures removed == old(removed) && history == old(history)
    {
      nodes := nodes[(dir, name) := node];
      next := next + 1;
      created := created + {node.id};
      bound := bound + {(dir, name)};
    }

    /** Openat with O_DIRECTORY and O_NOFOLLOW, then Stat: the identity of the directory under a name. */
    method OpenDirectory(dir: nat, name: string) returns (id: Option<nat>)
      requires Valid()
      modifies this`nodes, this`next, this`history
      ensures Valid() && next >= old(next) && history == old(history) + [nodes]
      ensures quiet ==> nodes == old(nodes) && next == old(next)
      ensures id.Some? ==> id.value < next && (dir, name) in nodes && nodes[(dir, name)] == Node(id.value, true)
      ensures examines && (dir, name) in nodes && nodes[(dir, name)].dir ==> id.Some?
    {
      Others();
      var fails: bool := *;
      if (fails && !examines) || (dir, name) !in nodes || !nodes[(dir, name)].dir {
        return None;
      }
      return Some(nodes[(dir, name)].id);
    }

    /** Mkdirat, then Openat and Stat of the new name: `made` is the directory created, when names meant `at`, and `id` is
        whatever its name means once it is opened. */
    method MakeDirectory(dir: nat, name: string) returns (id: Option<nat>, ghost made: nat, ghost at: map<Key, Node>)
      requires Valid() && dir < next
      modifies this
      ensures Valid() && next >= old(next) && removed == old(removed) && (quiet ==> at == old(nodes))
      ensures history == old(history) + [at] || history == old(history) + [at, nodes]
      ensures id.Some? ==> history == old(history) + [at, nodes]
      ensures old(created) <= created && bound <= old(bound) + {(dir, name)}
      ensures id.Some? ==> (dir, name) !in at && made !in old(created) && old(next) <= made < next && created == old(created) + {made}
      ensures id.Some? ==> id.value < next && (dir, name) in nodes && nodes[(dir, name)] == Node(id.value, true)
      ensures quiet && id.Some? ==> id.value == made && nodes == at[(dir, name) := Node(made, true)]
      ensures quiet && examines && id.None? ==> nodes == at && (reliable ==> (dir, name) in at)
    {
      var ok, fresh_, then_ := Mkdir(dir, name);
      made, at := fresh_, then_;
      if !ok {
        return None, made, at;
      }
      id := OpenDirectory(dir, name);
    }

    /** Openat, Stat and comparison, then Unlinkat of the same name. */
    method RemoveOwned(dir: nat, name: string, id: nat, directory: bool) returns (ok: bool, ghost r: Removal)
      requires Valid()
      modifies this
      ensures Valid() && next >= old(next) && created == old(created) && bound == old(bound)
      ensures removed == old(removed) + Took(r)
      ensures r.took.Some? ==> r.took == Unlinked(r.seen, r.now, (dir, name), id, directory)
      ensures nodes == (if r.took.Some? then r.now - {(dir, name)} else r.now) && (quiet ==> r.seen == r.now == old(nodes))
      ensures examines ==> r.took == Unlinked(r.seen, r.now, (dir, name), id, directory)
      ensures r.from == |old(history)| && r.to == |history| && old(history) < history && r.seen == history[r.from] && r.now == history[r.to - 1]
      ensures r.to <= r.from + 2 && (r.took.Some? ==> r.to == r.from + 2)
      ensures ok <==> r.took.Some? || r.gone
      ensures r.gone ==> (dir, name) !in r.now
      ensures examines && (dir, name) !in r.seen ==> r.gone
    {
      Others();
      r := Removal(nodes, nodes, |history| - 1, |history|, false, None);
      var fails: bool := *;
      if fails && !examines {
        return false, r;
      }
      var key := (dir, name);
      if key !in nodes {
        return true, r.(gone := true);
      }
      if nodes[key].id != id {
        return false, r;
      }
      Others();
      r := r.(now := nodes, to := |history|);
      fails := *;
      if (fails && !examines) || key !in nodes || nodes[key].dir != directory || (directory && !Empty(nodes[key].id)) {
        return false, r;
      }
      r := r.(took := Some(nodes[key].id));
      removed := removed + {nodes[key].id};
      nodes := nodes - {key};
      return true, r;
    }

    predicate Empty(id: nat)
      reads this
    {
      forall key :: key in nodes ==> key.0 != id
    }

    /** The staging name is verified, when names mean `seen`, then renamed without replacing, when they mean `at`:
        Renameat2 with RENAME_NOREPLACE. */
    method PublishDirectory(dir: nat, from: string, to: string, stage: nat)
      returns (ok: bool, ghost seen: map<Key, Node>, ghost at: map<Key, Node>)
      requires Valid() && from != to && dir < next
      modifies this
      ensures Valid() && next >= old(next) && created == old(created) && removed == old(removed)
      ensures quiet ==> seen == at == old(nodes)
      ensures ok ==> history == old(history) + [seen, at]
      ensures ok ==> (dir, from) in seen && seen[(dir, from)] == Node(stage, true)
      ensures ok ==> (dir, from) in at && (dir, to) !in at && nodes == (at - {(dir, from)})[(dir, to) := at[(dir, from)]]
      ensures ok ==> bound == old(bound) + {(dir, to)}
      ensures !ok ==> nodes == at && bound == old(bound)
      ensures reliable && (dir, from) in seen && seen[(dir, from)] == Node(stage, true) && (dir, from) in at && (dir, to) !in at ==> ok
    {
      var current := OpenDirectory(dir, from);
      seen, at := nodes, nodes;
      if current != Some(stage) {
        return false, seen, at;
      }
      Others();
      at := nodes;
      var fails: bool := *;
      if (fails && !reliable) || (dir, from) !in nodes || (dir, to) in nodes {
        return false, seen, at;
      }
      var node := nodes[(dir, from)];
      nodes := (nodes - {(dir, from)})[(dir, to) := node];
      bound := bound + {(dir, to)};
      return true, seen, at;
    }
  }

  /** A removal: what names meant when it examined its name and when it unlinked it, which looks at the names it took (from the
      first up to the one after the last), whether the name was already gone, and the identity it took away, if any. */
  datatype Removal = Removal(seen: map<Key, Node>, now: map<Key, Node>, from: nat, to: nat, gone: bool, took: Option<nat>)

  ghost function Took(r: Removal): set<nat> {
    if r.took.Some? then {r.took.value} else {}
  }

  /** The identity a removal takes away, from the bindings when it examined the name and when it unlinked it. */
  function Unlinked(seen: map<Key, Node>, now: map<Key, Node>, key: Key, id: nat, directory: bool): (gone: Option<nat>)
    ensures gone.Some? ==> key in seen && seen[key].id == id && key in now && gone.value == now[key].id
  {
    if key in seen && seen[key].id == id && key in now && now[key].dir == directory
      && (directory ==> forall k :: k in now ==> k.0 != now[key].id) then Some(now[key].id)
    else None
  }

  lemma TookSame(a: Removal, b: Removal)
    requires a.took == b.took
    ensures Took(a) == Took(b)
  {
  }

  lemma AloneUnlinked(seen: map<Key, Node>, now: map<Key, Node>, key: Key, id: nat, directory: bool)
    requires key in seen && seen[key] == Node(id, directory) && key in now && now[key] == Node(id, directory)
    requires directory ==> forall k :: k in now ==> k.0 != id
    ensures Unlinked(seen, now, key, id, directory) == Some(id)
  {
  }

  /** The looks of a removal lie in this part of the history; it examined and unlinked the name at the last two, or last saw that
      the name was gone. */
  ghost predicate Seen(history: seq<map<Key, Node>>, start: nat, key: Key, r: Removal) {
    && start <= r.from <= r.to <= |history|
    && (r.took.Some? ==> r.from + 2 <= r.to && r.seen == history[r.to - 2] && r.now == history[r.to - 1])
    && (r.gone ==> r.from < r.to && key !in history[r.to - 1])
  }

  lemma SeenFrom(history: seq<map<Key, Node>>, from: nat, start: nat, key: Key, r: Removal)
    requires Seen(history, from, key, r) && start <= from
    ensures Seen(history, start, key, r)
  {
  }

  lemma OwnUnlinked(nodes: map<Key, Node>, key: Key, id: nat, directory: bool)
    requires key in nodes && nodes[key] == Node(id, directory) && forall k :: k in nodes ==> k.0 != id
    ensures Unlinked(nodes, nodes, key, id, directory) == Some(id)
  {
  }

  /** The first window was hit: the name meant something else than what was `made` by the time it was opened and recorded. */
  predicate OpenedAnother(made: nat, id: nat) {
    id != made
  }

  /** The second window was hit: the name meant something else when it was unlinked than when it was examined. */
  predicate Rebound(r: Removal, key: Key)
    requires key in r.seen && key in r.now
  {
    r.now[key].id != r.seen[key].id
  }

  /** A removal takes what was made when neither window was hit, something else when exactly one was, and when both were it takes
      what was made exactly if the name means that again at the unlink. */
  ghost predicate TakesOwn(r: Removal, key: Key, made: nat, id: nat) {
    && r.took.Some? && key in r.seen && key in r.now
    && (!OpenedAnother(made, id) && !Rebound(r, key) ==> r.took.value == made)
    && (OpenedAnother(made, id) != Rebound(r, key) ==> r.took.value != made)
    && (OpenedAnother(made, id) && Rebound(r, key) ==> (r.took.value == made <==> r.now[key].id == made))
  }

  // ----- what the transaction owns

  /** An entry created by the transaction; `parent` is the position of the owned directory it lies in, -1 for the destination's parent. */
  datatype Owned = Owned(parent: int, name: string, id: nat, directory: bool)

  /** Parents come before children, and are directories; the staging directory comes first. */
  ghost predicate ParentsFirst(owned: seq<Owned>, stageName: string) {
    && |owned| > 0 && owned[0].parent == -1 && owned[0].name == stageName && owned[0].directory
    && forall i :: 0 < i < |owned| ==> 0 <= owned[i].parent < i && owned[owned[i].parent].directory
  }

  function DirectoryId(parentDir: nat, owned: seq<Owned>, i: int): nat
    requires -1 <= i < |owned|
  {
    if i == -1 then parentDir else owned[i].id
  }

  function KeyOf(parentDir: nat, owned: seq<Owned>, i: nat): Key
    requires i < |owned| && -1 <= owned[i].parent < |owned|
  {
    (DirectoryId(parentDir, owned, owned[i].parent), owned[i].name)
  }

  /** The names bound to the first `n` owned entries. */
  ghost function Bindings(parentDir: nat, owned: seq<Owned>, n: nat): map<Key, Node>
    requires n <= |owned| && forall i :: 0 <= i < |owned| ==> -1 <= owned[i].parent < |owned|
  {
    if n == 0 then map[]
    else Bindings(parentDir, owned, n - 1)[KeyOf(parentDir, owned, n - 1) := Node(owned[n - 1].id, owned[n - 1].directory)]
  }

  /** Owned identities are newer than everything in `base`, pairwise distinct, and bound to names of their own. */
  ghost predicate Separate(base: map<Key, Node>, baseNext: nat, parentDir: nat, owned: seq<Owned>) {
    && WellFormed(base, baseNext) && parentDir < baseNext
    && (forall i :: 0 <= i < |owned| ==> -1 <= owned[i].parent < i && baseNext <= owned[i].id)
    && (forall i, j :: 0 <= i < j < |owned| ==> owned[i].id != owned[j].id)
    && (forall i :: 0 <= i < |owned| ==> KeyOf(parentDir, owned, i) !in base)
    && (forall i, j :: 0 <= i < j < |owned| ==> KeyOf(parentDir, owned, i) != KeyOf(parentDir, owned, j))
  }

  /** A later entry is bound to none of the earlier names, and nothing bound earlier lies in a directory created later. */
  lemma {:induction false} BindingsApart(base: map<Key, Node>, baseNext: nat, parentDir: nat, owned: seq<Owned>, n: nat, j: nat)
    requires Separate(base, baseNext, parentDir, owned) && n <= j < |owned|
    ensures KeyOf(parentDir, owned, j) !in Bindings(parentDir, owned, n)
    ensures forall key :: key in Bindings(parentDir, owned, n) ==> key.0 != owned[j].id
    decreases n
  {
    if n > 0 {
      BindingsApart(base, baseNext, parentDir, owned, n - 1, j);
      KeysApart(base, baseNext, parentDir, owned, n - 1, j);
    }
  }

  lemma KeysApart(base: map<Key, Node>, baseNext: nat, parentDir: nat, owned: seq<Owned>, i: nat, j: nat)
    requires Separate(base, baseNext, parentDir, owned) && i <= j < |owned|
    ensures i < j ==> KeyOf(parentDir, owned, i) != KeyOf(parentDir, owned, j)
    ensures KeyOf(parentDir, owned, i).0 != owned[j].id
  {
  }

  /** Removing the last binding leaves the others, and the last directory has nothing in it by then. */
  lemma LastBinding(base: map<Key, Node>, baseNext: nat, parentDir: nat, owned: seq<Owned>, n: nat)
    requires Separate(base, baseNext, parentDir, owned) && 0 < n <= |owned|
    ensures var key, all := KeyOf(parentDir, owned, n - 1), base + Bindings(parentDir, owned, n);
      && key in all && all[key] == Node(owned[n - 1].id, owned[n - 1].directory)
      && all - {key} == base + Bindings(parentDir, owned, n - 1)
      && forall k :: k in all ==> k.0 != owned[n - 1].id
  {
    BindingsApart(base, baseNext, parentDir, owned, n - 1, n - 1);
    KeysApart(base, baseNext, parentDir, owned, n - 1, n - 1);
    RemoveAdded(base, Bindings(parentDir, owned, n - 1), KeyOf(parentDir, owned, n - 1), Node(owned[n - 1].id, owned[n - 1].directory));
  }

  lemma RemoveAdded(base: map<Key, Node>, before: map<Key, Node>, key: Key, node: Node)
    requires key !in base && key !in before
    ensures (base + before[key := node]) - {key} == base + before
    ensures base + before[key := node] == (base + before)[key := node]
  {
  }

  /** Every owned entry among the first `n` is bound to its name. */
  lemma {:induction false} BindingAt(base: map<Key, Node>, baseNext: nat, parentDir: nat, owned: seq<Owned>, n: nat, i: nat)
    requires Separate(base, baseNext, parentDir, owned) && i < n <= |owned|
    ensures var all := base + Bindings(parentDir, owned, n);
      KeyOf(parentDir, owned, i) in all && all[KeyOf(parentDir, owned, i)] == Node(owned[i].id, owned[i].directory)
    decreases n
  {
    LastBinding(base, baseNext, parentDir, owned, n);
    if i < n - 1 {
      BindingAt(base, baseNext, parentDir, owned, n - 1, i);
    }
  }

  // ----- names that are left alone

  /** An owned entry and the directories above it have their names. */
  ghost predicate LeftAlone(names: map<Key, Node>, parentDir: nat, owned: seq<Owned>, i: int)
    requires -1 <= i < |owned| && forall j :: 0 <= j < |owned| ==> -1 <= owned[j].parent < j
    decreases i
  {
    i == -1 || (
      && KeyOf(parentDir, owned, i) in names && names[KeyOf(parentDir, owned, i)] == Node(owned[i].id, owned[i].directory)
      && LeftAlone(names, parentDir, owned, owned[i].parent))
  }

  ghost predicate AloneDuring(history: seq<map<Key, Node>>, from: nat, to: nat, parentDir: nat, owned: seq<Owned>, i: int)
    requires -1 <= i < |owned| && forall j :: 0 <= j < |owned| ==> -1 <= owned[j].parent < j
  {
    forall k :: from <= k < to && k < |history| ==> LeftAlone(history[k], parentDir, owned, i)
  }

  ghost predicate Looks(history: seq<map<Key, Node>>, from: nat, to: nat, names: map<Key, Node>) {
    forall k :: from <= k < to && k < |history| ==> history[k] == names
  }

  /** What a name meant at the last look, made since `start`. */
  ghost predicate LastSeen(history: seq<map<Key, Node>>, start: nat, key: Key, node: Node) {
    start < |history| && key in history[|history| - 1] && history[|history| - 1][key] == node
  }

  lemma LastLook(history: seq<map<Key, Node>>, start: nat, key: Key, node: Node)
    requires start < |history| && key in history[|history| - 1] && history[|history| - 1][key] == node
    ensures LastSeen(history, start, key, node)
  {
  }

  lemma LooksNone(history: seq<map<Key, Node>>, names: map<Key, Node>)
    ensures Looks(history, |history|, |history|, names)
  {
  }

  lemma LooksMore(was: seq<map<Key, Node>>, now: seq<map<Key, Node>>, from: nat, names: map<Key, Node>)
    requires Looks(was, from, |was|, names) && now == was + [names]
    ensures Looks(now, from, |now|, names)
  {
  }

  lemma AloneThroughout(history: seq<map<Key, Node>>, from: nat, to: nat, names: map<Key, Node>, parentDir: nat, owned: seq<Owned>, i: int)
    requires -1 <= i < |owned| && forall j :: 0 <= j < |owned| ==> -1 <= owned[j].parent < j
    requires Looks(history, from, to, names) && LeftAlone(names, parentDir, owned, i)
    ensures AloneDuring(history, from, to, parentDir, owned, i)
  {
    hide LeftAlone;
  }

  lemma ParentAlone(was: seq<map<Key, Node>>, now: seq<map<Key, Node>>, from: nat, parentDir: nat, owned: seq<Owned>, i: nat)
    requires i < |owned| && (forall j :: 0 <= j < |owned| ==> -1 <= owned[j].parent < j) && was <= now && from <= |was|
    ensures AloneDuring(now, from, |now|, parentDir, owned, i) ==> AloneDuring(was, from, |was|, parentDir, owned, owned[i].parent)
    ensures AloneDuring(now, from, |now|, parentDir, owned, i) ==> forall k :: |was| <= k < |now| ==>
      KeyOf(parentDir, owned, i) in now[k] && now[k][KeyOf(parentDir, owned, i)] == Node(owned[i].id, owned[i].directory)
  {
    if AloneDuring(now, from, |now|, parentDir, owned, i) {
      forall k | from <= k < |was| ensures LeftAlone(was[k], parentDir, owned, owned[i].parent) {
        assert was[k] == now[k] && LeftAlone(now[k], parentDir, owned, i);
      }
    }
  }

  lemma StaysAlone(was: seq<map<Key, Node>>, now: seq<map<Key, Node>>, from: nat, to: nat, parentDir: nat, owned: seq<Owned>, i: int)
    requires -1 <= i < |owned| && (forall j :: 0 <= j < |owned| ==> -1 <= owned[j].parent < j) && was <= now && to <= |was|
    ensures AloneDuring(now, from, to, parentDir, owned, i) <==> AloneDuring(was, from, to, parentDir, owned, i)
  {
    hide LeftAlone;
    assert forall k :: 0 <= k < |was| ==> now[k] == was[k];
  }

  // ----- the transaction

  class Transaction {
    const fs: FileSystem
    const parentDir: nat
    const name: string
    const stageName: string
    var owned: seq<Owned>
    /** The open handles of owned directories: by position, what was opened. */
    var handles: map<nat, nat>
    var directories: map<string, nat>
    var committed: bool
    var closed: bool
    /** The identity each owned entry was created with; a directory can be recorded under another. */
    ghost var made: seq<nat>
    /** The file system when the transaction began, and the names bound until then. */
    ghost var base: map<Key, Node>
    ghost var baseNext: nat
    ghost var boundBefore: set<Key>

    /** What holds whoever else writes. */
    ghost predicate Core()
      reads `owned, `made, `directories, `committed, `baseNext, `boundBefore, fs
    {
      && fs.Valid() && parentDir < baseNext <= fs.next && stageName != name
      && ParentsFirst(owned, stageName)
      && Births(owned, made, baseNext, fs.next, fs.created, fs.quiet)
      && "" in directories && directories[""] == 0
      && (forall path :: path in directories ==> directories[path] < |owned| && owned[directories[path]].directory)
      && Placed(owned, directories)
      && ((forall i :: 0 <= i < |owned| ==> owned[i].id != parentDir) && (parentDir, name) in fs.bound - boundBefore ==> committed)
    }

    /** Other processes, and calls of ours that bind no new name, leave the transaction as it is. */
    twostate lemma CoreStays()
      requires old(Core()) && fs.Valid() && owned == old(owned) && made == old(made) && directories == old(directories)
      requires committed == old(committed) && baseNext == old(baseNext) && boundBefore == old(boundBefore) && fs.bound == old(fs.bound)
      requires old(fs.next) <= fs.next && old(fs.created) <= fs.created
      ensures Core()
    {
      hide ParentsFirst, Placed, Births;
      BirthsStay(owned, made, baseNext, old(fs.next), fs.next, old(fs.created), fs.created, fs.quiet);
    }

    /** Binding a name in an owned directory does not bind the destination. */
    twostate lemma CoreBinds(spot: (nat, string))
      requires old(Core()) && fs.Valid() && owned == old(owned) && made == old(made) && directories == old(directories)
      requires committed == old(committed) && baseNext == old(baseNext) && boundBefore == old(boundBefore)
      requires spot.0 < |owned| && fs.bound <= old(fs.bound) + {(owned[spot.0].id, spot.1)}
      requires old(fs.next) <= fs.next && old(fs.created) <= fs.created
      ensures Core()
    {
      hide ParentsFirst, Placed, Births;
      BirthsStay(owned, made, baseNext, old(fs.next), fs.next, old(fs.created), fs.created, fs.quiet);
    }

    /** An identity that did not exist before is nobody's, and not older than the transaction. */
    twostate lemma NewBirth(m: nat)
      requires old(Core()) && made == old(made) && baseNext == old(baseNext) && m !in old(fs.created) && old(fs.next) <= m
      ensures m !in made && baseNext <= m
    {
      hide ParentsFirst, Placed;
    }

    lemma CoreFacts(i: nat)
      requires Core() && i < |owned|
      ensures fs.Valid() && parentDir < fs.next && stageName != name && |made| == |owned| > 0
      ensures -1 <= owned[i].parent < i && (owned[i].parent >= 0 ==> owned[owned[i].parent].directory)
      ensures fs.reliable ==> fs.examines
      ensures owned[i].id < fs.next && -1 <= DirectoryId(parentDir, owned, owned[i].parent) < fs.next
      ensures (!owned[i].directory || fs.quiet ==> owned[i].id == made[i]) && (i == 0 ==> owned[0] == Owned(-1, stageName, owned[0].id, true))
      ensures forall j :: 0 <= j < |owned| ==> -1 <= owned[j].parent < |owned|
    {
      hide Placed;
    }

    /** The file system is what it was, plus the first `n` owned entries. */
    ghost predicate Holds(n: nat)
      reads `owned, `base, `baseNext, fs
    {
      n <= |owned| && Separate(base, baseNext, parentDir, owned) && fs.nodes == base + Bindings(parentDir, owned, n)
    }

    ghost predicate Valid()
      reads this, fs
    {
      Core() && Pinned() && (fs.quiet && fs.examines && !committed && !closed ==> Holds(|owned|))
    }

    /** Every open handle is the directory that was recorded. */
    ghost predicate Pinned()
      reads `owned, `handles
    {
      forall i :: i in handles ==> i < |owned| && owned[i].directory && handles[i] == owned[i].id
    }

    function HandleId(i: int): nat
      reads `handles
      requires i == -1 || i in handles
    {
      if i == -1 then parentDir else handles[i]
    }

    lemma HandleIs(i: int)
      requires Pinned() && -1 <= i < |owned| && (i == -1 || i in handles)
      ensures HandleId(i) == DirectoryId(parentDir, owned, i)
    {
    }

    constructor (fs: FileSystem, parentDir: nat, name: string, stageName: string, stage: nat, ghost made: nat,
        ghost base: map<Key, Node>, ghost baseNext: nat)
      requires fs.Valid() && parentDir < baseNext <= fs.next && stageName != name
      requires stage < fs.next && baseNext <= made < fs.next && made in fs.created && (fs.quiet ==> stage == made)
      requires fs.quiet ==> WellFormed(base, baseNext) && (parentDir, stageName) !in base
      requires fs.quiet ==> fs.nodes == base[(parentDir, stageName) := Node(stage, true)]
      ensures Valid() && this.fs == fs && this.parentDir == parentDir && this.name == name && this.stageName == stageName
      ensures !committed && !closed && this.base == base && this.baseNext == baseNext && this.made == [made]
      ensures owned == [Owned(-1, stageName, stage, true)] && directories == map["" := 0]
    {
      this.fs, this.parentDir, this.name, this.stageName := fs, parentDir, name, stageName;
      owned := [Owned(-1, stageName, stage, true)];
      handles, directories, committed, closed := map[0 := stage], map["" := 0], false, false;
      this.made, this.base, this.baseNext, boundBefore := [made], base, baseNext, fs.bound;
      new;
      FirstBinding(base, parentDir, owned);
    }

    /** The handle of an owned directory: cached, or reopened from the handle of its parent and compared with the recorded identity,
        so that every handle in use is a recorded directory. It is reached whenever its name and those of the directories above
        it were left alone. */
    method OpenHandle(i: int) returns (ok: bool)
      requires Core() && Pinned() && -1 <= i < |owned| && (i >= 0 ==> owned[i].directory)
      modifies this`handles, fs`nodes, fs`next, fs`history
      ensures Core() && fs.next >= old(fs.next) && old(fs.history) <= fs.history && (forall j :: 0 <= j < |owned| ==> -1 <= owned[j].parent < j)
      ensures Pinned() && old(handles.Keys) <= handles.Keys && (ok ==> i == -1 || i in handles)
      ensures ok && i >= 0 && i !in old(handles) ==>
        LastSeen(fs.history, |old(fs.history)|, KeyOf(parentDir, owned, i), Node(handles[i], true))
      ensures fs.quiet ==> fs.nodes == old(fs.nodes) && Looks(fs.history, |old(fs.history)|, |fs.history|, fs.nodes)
      ensures fs.examines && AloneDuring(fs.history, |old(fs.history)|, |fs.history|, parentDir, owned, i) ==> ok
      decreases i
    {
      hide *;
      if i == -1 || i in handles {
        ParentsBelow();
        LooksNone(fs.history, fs.nodes);
        return true;
      }
      CoreFacts(i);
      ParentsBelow();
      var parentOk := OpenHandle(owned[i].parent);
      ghost var above := fs.history;
      if !parentOk {
        ParentAlone(above, above, |old(fs.history)|, parentDir, owned, i);
        return false;
      }
      CoreFacts(i);
      HandleIs(owned[i].parent);
      KeyIs(parentDir, owned, i);
      label before:
      var id := fs.OpenDirectory(HandleId(owned[i].parent), owned[i].name);
      CoreStays@before();
      ParentAlone(above, fs.history, |old(fs.history)|, parentDir, owned, i);
      if fs.quiet {
        LooksMore(above, fs.history, |old(fs.history)|, fs.nodes);
      }
      assert fs.history[|above|] == fs.nodes;
      if id != Some(owned[i].id) {
        return false;
      }
      LastLook(fs.history, |old(fs.history)|, KeyOf(parentDir, owned, i), Node(owned[i].id, true));
      label opening:
      handles := handles[i := id.value];
      PinnedOpens@opening(i);
      return true;
    }

    twostate lemma PinnedOpens(i: nat)
      requires old(Pinned()) && owned == old(owned) && i < |owned| && owned[i].directory && handles == old(handles)[i := owned[i].id]
      ensures Pinned()
    {
    }

    /** The handle of a directory to create something in; it is there unless somebody interferes. */
    method Reach(at: nat) returns (ok: bool)
      requires Valid() && !committed && !closed && at < |owned| && owned[at].directory
      modifies this`handles, fs`nodes, fs`next, fs`history
      ensures Valid() && fs.next >= old(fs.next) && (fs.reliable ==> fs.examines)
      ensures ok ==> at in handles && HandleId(at) == owned[at].id
      ensures fs.quiet ==> fs.nodes == old(fs.nodes)
      ensures fs.quiet && fs.examines ==> ok
    {
      hide Core, Separate, Bindings, KeyOf, LeftAlone, AloneDuring;
      CoreFacts(at);
      if fs.quiet && fs.examines {
        HeldAlone(|owned|, at);
      }
      ghost var names, from := fs.nodes, |fs.history|;
      ok := OpenHandle(at);
      if ok {
        HandleIs(at);
      }
      if fs.quiet && fs.examines {
        AloneThroughout(fs.history, from, |fs.history|, names, parentDir, owned, at);
      }
    }

    lemma ParentsBelow()
      requires Core()
      ensures forall j :: 0 <= j < |owned| ==> -1 <= owned[j].parent < j
    {
      hide Placed, Births;
    }

    /** When nobody interferes, the names of what is still bound are left alone. */
    lemma {:induction false} HeldAlone(n: nat, i: int)
      requires Core() && Holds(n) && -1 <= i < n
      ensures forall j :: 0 <= j < |owned| ==> -1 <= owned[j].parent < j
      ensures LeftAlone(fs.nodes, parentDir, owned, i)
      decreases i
    {
      hide Core, Bindings, Separate;
      ParentsBelow();
      if i >= 0 {
        BindingAt(base, baseNext, parentDir, owned, n, i);
        HeldAlone(n, owned[i].parent);
      }
    }

    /** Records an entry created with identity `m`. */
    method Own(entry: Owned, ghost m: nat, ghost before: map<Key, Node>)
      requires Core() && Pinned() && !committed && !closed && 0 <= entry.parent < |owned| && owned[entry.parent].directory
      requires entry.id < fs.next && baseNext <= m < fs.next && m in fs.created && m !in made
      requires (!entry.directory ==> entry.id == m) && (fs.quiet ==> entry.id == m)
      requires fs.quiet && fs.examines ==> Separate(base, baseNext, parentDir, owned) && before == base + Bindings(parentDir, owned, |owned|)
      requires fs.quiet ==> (owned[entry.parent].id, entry.name) !in before
      requires fs.quiet ==> fs.nodes == before[(owned[entry.parent].id, entry.name) := Node(entry.id, entry.directory)]
      modifies this`owned, this`made
      ensures Valid() && owned == old(owned) + [entry] && made == old(made) + [m]
    {
      hide Core, Separate, Bindings, KeyOf;
      CoreBirths(entry, m);
      if fs.quiet && fs.examines {
        OwnedSnoc(base, baseNext, parentDir, owned, entry);
      }
      owned, made := owned + [entry], made + [m];
      CoreOwns((entry, m));
    }

    lemma CoreBirths(entry: Owned, m: nat)
      requires Core() && entry.id < fs.next && baseNext <= m < fs.next && m in fs.created && m !in made
      requires (!entry.directory ==> entry.id == m) && (fs.quiet ==> entry.id == m)
      ensures fs.quiet ==> baseNext <= entry.id && forall i :: 0 <= i < |owned| ==> owned[i].id != entry.id
    {
      hide ParentsFirst, Placed, Births;
      BirthsSnoc(owned, made, baseNext, fs.next, fs.created, fs.quiet, entry, m);
    }

    /** Owning one more entry with its identity. */
    twostate lemma CoreOwns(more: (Owned, nat))
      requires old(Core()) && owned == old(owned) + [more.0] && made == old(made) + [more.1] && directories == old(directories)
      requires committed == old(committed) && baseNext == old(baseNext) && boundBefore == old(boundBefore)
      requires fs.nodes == old(fs.nodes) && fs.next == old(fs.next) && fs.created == old(fs.created) && fs.bound == old(fs.bound)
      requires 0 <= more.0.parent < |old(owned)| && old(owned)[more.0.parent].directory
      requires more.0.id < fs.next && baseNext <= more.1 < fs.next && more.1 in fs.created && more.1 !in old(made)
      requires (!more.0.directory ==> more.0.id == more.1) && (fs.quiet ==> more.0.id == more.1)
      ensures Core()
    {
      hide ParentsFirst, Placed, Births, WellFormed;
      PlacedStays(old(owned), owned, directories);
      BirthsSnoc(old(owned), old(made), baseNext, fs.next, fs.created, fs.quiet, more.0, more.1);
      ParentsFirstSnoc(old(owned), stageName, more.0);
      assert forall i :: 0 <= i < |old(owned)| ==> owned[i] == old(owned)[i];
    }

    /** Stages one file; `intact` says whether the source delivers exactly the promised bytes. */
    method WriteFile(ctx: Archive.Context, at: nat, fileName: string, intact: bool) returns (ok: bool)
      requires Valid() && !committed && !closed && at < |owned| && owned[at].directory
      modifies this`owned, this`made, this`handles, fs, ctx
      ensures Valid() && old(owned) <= owned && old(made) <= made
      ensures fs.removed == old(fs.removed) && (old(ctx.canceled) ==> ctx.canceled)
      ensures ok ==> intact && Grew(old(owned), owned, at, fileName, false)
      ensures fs.examines && fs.created != old(fs.created) ==> Grew(old(owned), owned, at, fileName, false)
      ensures fs.examines && fs.created != old(fs.created) ==>
        |made| == |old(made)| + 1 && fs.created == old(fs.created) + {made[|old(made)|]}
      ensures fs.quiet && fs.reliable && intact && !ctx.canceled && old((owned[at].id, fileName) !in fs.nodes) ==> ok
    {
      hide Core, Separate, Bindings, KeyOf;
      var stop := ctx.Err();
      if stop {
        return false;
      }
      var open := Reach(at);
      if !open {
        return false;
      }
      ghost var before, created := fs.nodes, fs.created;
      CoreFacts(at);
      label creating:
      var id, taken := fs.CreateFile(HandleId(at), fileName);
      CoreBinds@creating((at, fileName));
      if id.None? {
        return false;
      }
      var examined: bool := *;
      if !examined && !fs.examines {
        return false;
      }
      NewBirth@creating(id.value);
      Own(Owned(at, fileName, id.value, false), id.value, before);
      var complete: bool := *;
      stop := ctx.Err();
      return (complete || fs.reliable) && intact && !stop;
    }

    method Write(ctx: Archive.Context, fileName: string, intact: bool) returns (ok: bool)
      requires Valid()
      modifies this`owned, this`made, this`handles, fs, ctx
      ensures Valid() && old(owned) <= owned && old(made) <= made
      ensures old(closed || committed) ==> !ok && owned == old(owned) && fs.nodes == old(fs.nodes)
      ensures !Archive.PlainName(fileName) ==> !ok && owned == old(owned) && fs.nodes == old(fs.nodes)
      ensures ok ==> |owned| == |old(owned)| + 1 && !owned[|old(owned)|].directory && PathOf(owned, |old(owned)|) == fileName
      ensures ok ==> intact
      ensures (&& fs.quiet && fs.reliable && !old(closed || committed) && Archive.PlainName(fileName) && intact && !ctx.canceled
               && old((owned[directories[""]].id, fileName) !in fs.nodes)) ==> ok
    {
      if closed || committed || !Archive.PlainName(fileName) {
        return false;
      }
      ghost var was := owned;
      ok := WriteFile(ctx, directories[""], fileName, intact);
      if ok {
        GrownPath(was, owned, directories[""], fileName, false);
      }
    }

    /** Creates a directory in an owned one and owns it. */
    method OwnDirectory(at: nat, name: string) returns (ok: bool)
      requires Valid() && !committed && !closed && at < |owned| && owned[at].directory
      modifies this`owned, this`made, this`handles, fs
      ensures Valid() && old(made) <= made
      ensures if ok then Grew(old(owned), owned, at, name, true) else owned == old(owned)
      ensures fs.quiet && fs.reliable && old((owned[at].id, name) !in fs.nodes) ==> ok
    {
      hide Core, Separate, Bindings, KeyOf, Grew;
      var open := Reach(at);
      if !open {
        return false;
      }
      ghost var before := fs.nodes;
      CoreFacts(at);
      label making:
      var id, m, taken := fs.MakeDirectory(HandleId(at), name);
      CoreBinds@making((at, name));
      if id.None? {
        return false;
      }
      NewBirth@making(m);
      Owning(owned, Owned(at, name, id.value, true));
      Own(Owned(at, name, id.value, true), m, before);
      return true;
    }

    method CreateDirectory(path: string, at: nat) returns (ok: bool)
      requires Valid() && !committed && !closed && at < |owned| && owned[at].directory && path != ""
      requires Under(PathOf(owned, at), Base(path)) == path
      modifies this`owned, this`made, this`handles, this`directories, fs
      ensures Valid() && old(owned) <= owned && old(made) <= made
      ensures directories == if ok then old(directories)[path := |old(owned)|] else old(directories)
      ensures ok ==> Grew(old(owned), owned, at, Base(path), true)
      ensures fs.quiet && fs.reliable && old((owned[at].id, Base(path)) !in fs.nodes) ==> ok
    {
      hide Core, Holds, PathOf, Under, Base;
      ghost var was := owned;
      ok := OwnDirectory(at, Base(path));
      if ok {
        GrownPath(was, owned, at, Base(path), true);
        Register(path);
      }
    }

    /** The entry just owned becomes the open directory of `path`. */
    method Register(path: string)
      requires Valid() && owned[|owned| - 1].directory && path != "" && PathOf(owned, |owned| - 1) == path
      modifies this`handles, this`directories
      ensures Valid() && directories == old(directories)[path := |owned| - 1]
    {
      hide Separate, Bindings, ParentsFirst, KeyOf, WellFormed, Births;
      directories := directories[path := |owned| - 1];
      handles := handles[|owned| - 1 := owned[|owned| - 1].id];
    }

    lemma DirectoryAt(path: string)
      requires Valid()
      ensures "" in directories
      ensures path in directories ==>
        directories[path] < |owned| && owned[directories[path]].directory && PathOf(owned, directories[path]) == path
    {
      hide Separate, Bindings, ParentsFirst, KeyOf, WellFormed, PathOf;
    }

    /** Creates the directories, each after the one it lies in. */
    method CreateDirectories(ctx: Archive.Context, entries: seq<Archive.Entry>, dirs: seq<string>) returns (ok: bool)
      requires Valid() && !committed && !closed && Archive.ValidNames(entries) && Archive.DirectoryList(entries, dirs)
      modifies this`owned, this`made, this`handles, this`directories, fs, ctx
      ensures Valid() && old(owned) <= owned && old(made) <= made && (old(ctx.canceled) ==> ctx.canceled)
      ensures fs.quiet && fs.reliable && |old(owned)| == 1 && !ctx.canceled ==> ok
      ensures ok ==> forall i :: 0 <= i < |dirs| ==> dirs[i] in directories
      ensures ok ==> |owned| == |old(owned)| + |dirs| && Staged(owned, |old(owned)|, dirs, true)
    {
      hide *;
      ghost var from := |owned|;
      NothingStaged(owned, true);
      for i := 0 to |dirs|
        invariant Valid() && !committed && !closed && old(owned) <= owned && old(made) <= made && (old(ctx.canceled) ==> ctx.canceled)
        invariant forall j :: 0 <= j < i ==> dirs[j] in directories
        invariant |owned| == from + i && Staged(owned, from, dirs[..i], true)
      {
        var stop := ctx.Err();
        if stop {
          return false;
        }
        var parent := Dir(dirs[i]);
        Archive.ParentsFirst(entries, dirs, i);
        if parent == "." {
          parent := "";
        }
        DirectoryNamed(entries, dirs, i);
        ghost var was := owned;
        DirectoryAt(parent);
        var at := directories[parent];
        if fs.quiet && fs.reliable && from == 1 {
          NotYetListed(entries, dirs, i);
          NothingStaged(owned, false);
          NotYetStaged(owned, dirs[..i], [], dirs[i]);
          FreshName(at, Base(dirs[i]), dirs[i]);
        }
        var created := CreateDirectory(dirs[i], at);
        if !created {
          return false;
        }
        StagedSnoc(was, owned, from, dirs[..i], at, Base(dirs[i]), dirs[i], true);
        assert dirs[..i] + [dirs[i]] == dirs[..i + 1];
      }
      assert dirs[..|dirs|] == dirs;
      return true;
    }

    method CreateFiles(ctx: Archive.Context, entries: seq<Archive.Entry>, ghost dirs: seq<string>) returns (ok: bool)
      requires Valid() && !committed && !closed && Archive.ValidNames(entries) && Archive.DirectoryList(entries, dirs)
      requires forall i :: 0 <= i < |dirs| ==> dirs[i] in directories
      modifies this`owned, this`made, this`handles, fs, ctx
      ensures Valid() && old(owned) <= owned && old(made) <= made && (old(ctx.canceled) ==> ctx.canceled)
      ensures fs.quiet && fs.reliable && !ctx.canceled && Archive.IsTree(entries)
        ==> |old(owned)| == 1 + |dirs| && Staged(old(owned), 1, dirs, true) ==> ok
      ensures ok ==> |owned| == |old(owned)| + |FileNames(entries)| && Staged(owned, |old(owned)|, FileNames(entries), false)
    {
      hide *;
      ghost var from, was0 := |owned|, owned;
      NothingStaged(owned, false);
      NoFiles();
      assert entries[..0] == [];
      for i := 0 to |entries|
        invariant Valid() && !committed && !closed && old(owned) <= owned && old(made) <= made && (old(ctx.canceled) ==> ctx.canceled)
        invariant |owned| == from + |FileNames(entries[..i])| && Staged(owned, from, FileNames(entries[..i]), false)
      {
        FileNamesSnoc(entries, i);
        if entries[i].dir {
          continue;
        }
        var parent := Dir(entries[i].name);
        Archive.FileParentListed(entries, dirs, i);
        if parent == "." {
          parent := "";
        }
        FileNamed(entries, i);
        ghost var was := owned;
        DirectoryAt(parent);
        if fs.quiet && fs.reliable && from == 1 + |dirs| && Staged(was0, 1, dirs, true) && Archive.IsTree(entries) {
          StagedStays(was0, owned, 1, dirs, true);
          FileNotYetStaged(entries, dirs, i);
          NotYetStaged(owned, dirs, FileNames(entries[..i]), entries[i].name);
          FreshName(directories[parent], Base(entries[i].name), entries[i].name);
        }
        var written := WriteFile(ctx, directories[parent], Base(entries[i].name), true);
        if !written {
          return false;
        }
        StagedSnoc(was, owned, from, FileNames(entries[..i]), directories[parent], Base(entries[i].name), entries[i].name, false);
      }
      assert entries[..|entries|] == entries;
      return true;
    }

    /** Inspects the whole archive before creating anything; every parent it then looks up is there, and success means that
        exactly the archive's directories and then its files were created below the staging directory. When nobody interferes and
        no call fails by itself, an acceptable archive is extracted into a new transaction unless that is canceled. */
    method Extract(ctx: Archive.Context, data: bytes, files: Option<seq<Archive.ZipFile>>)
      returns (r: Option<Archive.Receipt>, ghost dirs: seq<string>)
      requires Valid()
      modifies this`owned, this`made, this`handles, this`directories, fs, ctx
      ensures Valid() && old(owned) <= owned && old(made) <= made
      ensures fs.quiet && fs.reliable && !ctx.canceled && |old(owned)| == 1 && !old(closed) && !old(committed)
        ==> (r.Some? <==> Archive.Acceptable(data, files))
      ensures owned != old(owned) || fs.nodes != old(fs.nodes) || r.Some? ==> Archive.Acceptable(data, files) && !old(closed) && !old(committed)
      ensures r.Some? ==> r.value == Archive.Expanded(files.value) && Archive.DirectoryList(Archive.EntriesOf(files.value), dirs)
      ensures r.Some? ==> |owned| == |old(owned)| + |dirs| + |FileNames(Archive.EntriesOf(files.value))|
      ensures r.Some? ==> Staged(owned, |old(owned)|, dirs, true)
      ensures r.Some? ==> Staged(owned, |old(owned)| + |dirs|, FileNames(Archive.EntriesOf(files.value)), false)
    {
      hide *;
      dirs := [];
      r := Archive.InspectArchive(ctx, data, files);
      if r.None? {
        return;
      }
      if closed || committed {
        return None, dirs;
      }
      AcceptedNames(data, files);
      var entries := Archive.EntriesOf(files.value);
      var list := Archive.ListDirectories(entries);
      dirs := list;
      var created := CreateDirectories(ctx, entries, list);
      if !created {
        return None, dirs;
      }
      ghost var was := owned;
      var written := CreateFiles(ctx, entries, dirs);
      if !written {
        return None, dirs;
      }
      StagedStays(was, owned, |old(owned)|, dirs, true);
    }

    method CloseHandle(i: nat) returns (ok: bool)
      requires Pinned()
      modifies this`handles
      ensures Pinned() && handles == old(handles) - {i} && (fs.examines ==> ok)
    {
      var fails: bool := *;
      ok := i !in handles || !fails || fs.examines;
      handles := handles - {i};
    }

    lemma StageIs()
      requires Core()
      ensures fs.Valid() && |owned| == |made| > 0 && owned[0] == Owned(-1, stageName, owned[0].id, true)
      ensures parentDir < fs.next && stageName != name && (fs.reliable ==> fs.examines)
    {
      hide Placed;
    }

    twostate lemma CorePublishes()
      requires old(Core()) && fs.Valid() && owned == old(owned) && made == old(made) && directories == old(directories)
      requires committed && baseNext == old(baseNext) && boundBefore == old(boundBefore) && old(fs.next) <= fs.next && old(fs.created) <= fs.created
      ensures Core()
    {
      hide ParentsFirst, Placed, Births;
      BirthsStay(owned, made, baseNext, old(fs.next), fs.next, old(fs.created), fs.created, fs.quiet);
    }

    /** Closes the handles of the directories below the staging directory. */
    method CloseDirectories() returns (ok: bool)
      requires Valid()
      modifies this`handles
      ensures Valid() && handles.Keys <= old(handles.Keys) && (fs.examines ==> ok)
      ensures ok ==> forall path :: path in directories && path != "" ==> directories[path] !in handles
    {
      hide Separate, Bindings, ParentsFirst, Placed, Births;
      var paths := directories.Keys;
      while paths != {}
        invariant Valid() && paths <= directories.Keys && handles.Keys <= old(handles.Keys)
        invariant forall path :: path in directories && path !in paths && path != "" ==> directories[path] !in handles
      {
        var path :| path in paths;
        paths := paths - {path};
        if path == "" {
          continue;
        }
        var shut := CloseHandle(directories[path]);
        if !shut {
          return false;
        }
      }
      return true;
    }

    /** Publishes the staged tree under the destination name, never replacing anything: the name is free when it is bound. It is
        the staging directory that was created which appears there, unless its name was rebound in one of two windows: before
        it was opened, or after it was verified for the publication. The last two looks at the names are the verification and
        the rename. */
    method Commit(ctx: Archive.Context) returns (ok: bool, ghost seen: map<Key, Node>, ghost at: map<Key, Node>)
      requires Valid()
      modifies this`handles, this`committed, fs, ctx
      ensures Valid() && committed == (old(committed) || ok) && (old(ctx.canceled) ==> ctx.canceled)
      ensures old(closed || committed) ==> !ok && fs.nodes == old(fs.nodes)
      ensures ok ==> fs.history == old(fs.history) + [seen, at]
      ensures ok ==> (parentDir, stageName) in at && (parentDir, name) !in at
      ensures ok ==> fs.nodes == (at - {(parentDir, stageName)})[(parentDir, name) := at[(parentDir, stageName)]]
      ensures ok ==> (parentDir, stageName) in seen && seen[(parentDir, stageName)] == Node(owned[0].id, true)
      ensures ok ==> (fs.nodes[(parentDir, name)].id == made[0] <==>
        if owned[0].id == made[0] then at[(parentDir, stageName)].id == seen[(parentDir, stageName)].id else at[(parentDir, stageName)].id == made[0])
      ensures fs.quiet && ok ==> at == old(fs.nodes)
      ensures fs.quiet && !ok ==> fs.nodes == old(fs.nodes)
      ensures ok ==> !ctx.canceled
      ensures fs.quiet && fs.reliable && !old(closed) && !old(committed) ==> (ok <==> (parentDir, name) !in old(fs.nodes) && !ctx.canceled)
      ensures !ok ==> fs.bound == old(fs.bound)
      ensures fs.removed == old(fs.removed)
    {
      hide *;
      seen, at := fs.nodes, fs.nodes;
      ValidMeans();
      StageIs();
      if closed || committed {
        return false, seen, at;
      }
      var stop := ctx.Err();
      if stop {
        return false, seen, at;
      }
      var parentMoved: bool := *;
      if parentMoved && !(fs.quiet && fs.reliable) {
        return false, seen, at;
      }
      var shut := CloseDirectories();
      if !shut {
        return false, seen, at;
      }
      stop := ctx.Err();
      if stop {
        return false, seen, at;
      }
      ValidMeans();
      if fs.quiet && fs.examines {
        StageHeld();
      }
      label verifying:
      var published, verified, renamed := fs.PublishDirectory(parentDir, stageName, name, owned[0].id);
      ok, seen, at := published, verified, renamed;
      if ok {
        committed := true;
        CorePublishes@verifying();
      } else {
        CoreStays@verifying();
        if fs.quiet && fs.examines {
          HoldsStays@verifying();
        }
      }
      ValidAgain();
    }

    lemma StageHeld()
      requires Core() && Holds(|owned|)
      ensures (parentDir, stageName) in fs.nodes && fs.nodes[(parentDir, stageName)] == Node(owned[0].id, true)
    {
      hide Core, Separate, Bindings;
      StageIs();
      BindingAt(base, baseNext, parentDir, owned, |owned|, 0);
      KeyIs(parentDir, owned, 0);
    }

    twostate lemma HoldsStays()
      requires old(Holds(|owned|)) && owned == old(owned) && base == old(base) && baseNext == old(baseNext) && fs.nodes == old(fs.nodes)
      ensures Holds(|owned|)
    {
      hide Separate, Bindings;
    }

    lemma ValidAgain()
      requires Core() && Pinned() && (fs.quiet && fs.examines && !committed && !closed ==> Holds(|owned|))
      ensures Valid()
    {
      hide Core, Pinned, Holds;
    }

    /** A removal of entry `i` from the name it is owned under, taking what it created unless one of the entry's two windows was hit. */
    ghost predicate Explains(i: nat, r: Removal)
      reads `owned, `made
      requires i < |owned| == |made| && -1 <= owned[i].parent < |owned|
    {
      r.took.Some? ==>
        r.took == Unlinked(r.seen, r.now, KeyOf(parentDir, owned, i), owned[i].id, owned[i].directory)
        && TakesOwn(r, KeyOf(parentDir, owned, i), made[i], owned[i].id)
    }

    /** Each time the removal of entry `i` looked, the names of the entry and of the directories above it were left alone, and
        nothing else lay in it at the end. */
    ghost predicate Undisturbed(history: seq<map<Key, Node>>, i: nat, r: Removal)
      reads `owned
      requires i < |owned| && forall j :: 0 <= j < |owned| ==> -1 <= owned[j].parent < j
    {
      && AloneDuring(history, r.from, r.to, parentDir, owned, i)
      && (owned[i].directory && r.from < r.to <= |history| ==> forall key :: key in history[r.to - 1] ==> key.0 != owned[i].id)
    }

    /** Rolls back, in reverse order of creation, unless the tree was published. Each removal takes the identity its entry was
        created with, unless the entry's name was rebound before the new directory was opened or after it was examined for the
        removal; it takes nothing else. Whoever else writes, an entry that is left alone is removed. */
    method Close() returns (clean: bool, ghost removals: seq<Removal>)
      requires Valid()
      modifies this`handles, this`closed, fs
      ensures Core() && closed && |removals| == |owned| && |made| == |owned| && old(fs.history) <= fs.history
      ensures forall j :: 0 <= j < |owned| ==> -1 <= owned[j].parent < j
      ensures forall i :: 0 <= i < |owned| ==> Explains(i, removals[i])
      ensures fs.removed == old(fs.removed) + TookAll(removals)
      ensures fs.created == old(fs.created) && fs.bound == old(fs.bound)
      ensures old(closed) || old(committed) ==> fs.nodes == old(fs.nodes) && fs.removed == old(fs.removed) && fs.history == old(fs.history)
      ensures clean && !old(closed) && !old(committed) ==> forall i :: 0 <= i < |owned| ==> removals[i].took.Some? || removals[i].gone
      ensures !old(closed) && !old(committed) ==>
        forall i :: 0 <= i < |owned| ==> Seen(fs.history, |old(fs.history)|, KeyOf(parentDir, owned, i), removals[i])
      ensures fs.examines && !old(closed) && !old(committed) ==>
        forall i :: 0 <= i < |owned| && Undisturbed(fs.history, i, removals[i]) ==> removals[i].took == Some(owned[i].id)
      ensures fs.quiet && fs.examines ==> clean
      ensures fs.quiet && fs.examines && !old(committed) && !old(closed) ==> fs.nodes == base
    {
      hide *;
      ValidMeans();
      removals := seq(|owned|, _ => Removal(map[], map[], 0, 0, false, None));
      NothingTaken(removals);
      NoProgress(fs.history, removals);
      ProgressMeans(fs.history, |fs.history|, removals, |owned|, true);
      if closed {
        return true, removals;
      }
      closed := true;
      clean := true;
      if !committed {
        var i := |owned|;
        while i > 0
          invariant 0 <= i <= |owned| && Core() && Pinned() && closed && !committed && old(fs.history) <= fs.history
          invariant fs.created == old(fs.created) && fs.bound == old(fs.bound)
          invariant Progress(fs.history, |old(fs.history)|, removals, i, clean)
          invariant fs.removed == old(fs.removed) + TookAll(removals)
          invariant fs.quiet && fs.examines ==> Holds(i) && clean
        {
          i := i - 1;
          ghost var was := fs.history;
          var undone, r := RemoveEntry(i);
          ProgressStep(was, fs.history, |old(fs.history)|, removals, i, clean, undone, r);
          TookOneMore(removals, i, r);
          removals := removals[i := r];
          clean := clean && undone;
        }
        HoldsNothing();
        ProgressMeans(fs.history, |old(fs.history)|, removals, 0, clean);
      }
      var fails: bool := *;
      handles := map[];
      clean := clean && (!fails || fs.examines);
    }

    /** The entries from `i` on have been removed as far as they could. */
    ghost predicate Progress(history: seq<map<Key, Node>>, start: nat, removals: seq<Removal>, i: nat, clean: bool)
      reads `owned, `made
    {
      && |removals| == |owned| == |made| && (forall j :: 0 <= j < |owned| ==> -1 <= owned[j].parent < j)
      && (forall j :: 0 <= j < |owned| ==> Explains(j, removals[j]))
      && (forall j :: 0 <= j < i && j < |owned| ==> removals[j].took.None?)
      && (forall j :: i <= j < |owned| ==> Seen(history, start, KeyOf(parentDir, owned, j), removals[j]))
      && (clean ==> forall j :: i <= j < |owned| ==> removals[j].took.Some? || removals[j].gone)
      && (fs.examines ==> forall j :: i <= j < |owned| && Undisturbed(history, j, removals[j]) ==> removals[j].took == Some(owned[j].id))
    }

    lemma NoProgress(history: seq<map<Key, Node>>, removals: seq<Removal>)
      requires Core() && |removals| == |owned| && forall j :: 0 <= j < |removals| ==> removals[j].took.None?
      ensures Progress(history, |history|, removals, |owned|, true)
    {
      hide Core;
      StageIs();
      ParentsBelow();
    }

    lemma ValidMeans()
      requires Valid()
      ensures Core() && Pinned() && (fs.quiet && fs.examines && !committed && !closed ==> Holds(|owned|))
    {
      hide Core, Holds, Pinned;
    }

    lemma ProgressStep(was: seq<map<Key, Node>>, now: seq<map<Key, Node>>, start: nat, removals: seq<Removal>, i: nat, clean: bool, undone: bool, r: Removal)
      requires Progress(was, start, removals, i + 1, clean) && i < |owned| && start <= |was| && was <= now
      requires Explains(i, r) && Seen(now, |was|, KeyOf(parentDir, owned, i), r) && (undone ==> r.took.Some? || r.gone)
      requires fs.examines && Undisturbed(now, i, r) ==> r.took == Some(owned[i].id)
      ensures Progress(now, start, removals[i := r], i, clean && undone) && i < |removals| && removals[i].took.None?
    {
      hide Explains, Undisturbed, Seen, KeyOf;
      StillUndisturbed(was, now, start, removals, i + 1);
      SeenFrom(now, |was|, start, KeyOf(parentDir, owned, i), r);
    }

    lemma ProgressMeans(history: seq<map<Key, Node>>, start: nat, removals: seq<Removal>, i: nat, clean: bool)
      requires Progress(history, start, removals, i, clean)
      ensures |removals| == |owned| == |made| && (forall j :: 0 <= j < |owned| ==> -1 <= owned[j].parent < j)
      ensures forall j :: 0 <= j < |owned| ==> Explains(j, removals[j])
      ensures i == 0 ==> (forall j :: 0 <= j < |owned| ==> Seen(history, start, KeyOf(parentDir, owned, j), removals[j]))
      ensures i == 0 && clean ==> forall j :: 0 <= j < |owned| ==> removals[j].took.Some? || removals[j].gone
      ensures i == 0 && fs.examines ==>
        forall j :: 0 <= j < |owned| && Undisturbed(history, j, removals[j]) ==> removals[j].took == Some(owned[j].id)
    {
      hide Explains, Undisturbed, Seen, KeyOf;
    }

    lemma StillUndisturbed(was: seq<map<Key, Node>>, now: seq<map<Key, Node>>, start: nat, removals: seq<Removal>, n: nat)
      requires (forall j :: 0 <= j < |owned| ==> -1 <= owned[j].parent < j) && |removals| == |owned| && was <= now
      requires forall j :: n <= j < |owned| ==> Seen(was, start, KeyOf(parentDir, owned, j), removals[j])
      ensures forall j :: n <= j < |owned| ==> Seen(now, start, KeyOf(parentDir, owned, j), removals[j])
      ensures forall j :: n <= j < |owned| && Undisturbed(now, j, removals[j]) ==> Undisturbed(was, j, removals[j])
    {
      hide LeftAlone, AloneDuring;
      forall j | n <= j < |owned|
        ensures Seen(now, start, KeyOf(parentDir, owned, j), removals[j])
        ensures Undisturbed(now, j, removals[j]) ==> Undisturbed(was, j, removals[j])
      {
        assert Seen(was, start, KeyOf(parentDir, owned, j), removals[j]);
        StaysAlone(was, now, removals[j].from, removals[j].to, parentDir, owned, j);
      }
    }

    lemma HoldsNothing()
      ensures fs.quiet && fs.examines && Holds(0) ==> fs.nodes == base
    {
    }

    /** Removes one owned entry, if its directory can still be reached and its identity is unchanged. */
    method RemoveEntry(i: nat) returns (undone: bool, ghost r: Removal)
      requires Core() && Pinned() && i < |owned| && !committed && closed
      modifies this`handles, fs
      ensures Core() && Pinned() && fs.created == old(fs.created) && fs.bound == old(fs.bound) && |made| == |owned| && old(fs.history) <= fs.history
      ensures forall j :: 0 <= j < |owned| ==> -1 <= owned[j].parent < j
      ensures Explains(i, r) && fs.removed == old(fs.removed) + Took(r)
      ensures r.took.Some? ==> fs.nodes == r.now - {KeyOf(parentDir, owned, i)}
      ensures undone ==> r.took.Some? || r.gone
      ensures Seen(fs.history, |old(fs.history)|, KeyOf(parentDir, owned, i), r)
      ensures fs.examines && Undisturbed(fs.history, i, r) ==> r.took == Some(owned[i].id)
      ensures fs.quiet && fs.examines && old(Holds(i + 1)) ==> undone && Holds(i)
    {
      hide *;
      ghost var from := |fs.history|;
      var shut := CloseHandle(i);
      CoreFacts(i);
      ParentsBelow();
      var open := ReachParent(i);
      ghost var above := fs.history;
      r := Removal(map[], map[], from, |above|, false, None);
      if !open {
        NothingExplained(above, i, r);
        NotReached(above, i, r);
        return false, r;
      }
      var gone, removal := TakeAway(i);
      r := removal.(from := from);
      TookSame(removal, r);
      UndisturbedTakes(above, fs.history, i, r);
      RemovalExplained(above, fs.history, i, r);
      return shut && gone, r;
    }

    /** The removal itself, once the directory is reached. */
    method TakeAway(i: nat) returns (gone: bool, ghost r: Removal)
      requires Core() && Pinned() && i < |owned| && (owned[i].parent == -1 || owned[i].parent in handles)
      modifies fs
      ensures Core() && fs.created == old(fs.created) && fs.bound == old(fs.bound) && old(fs.history) < fs.history && |fs.history| <= |old(fs.history)| + 2
      ensures fs.removed == old(fs.removed) + Took(r) && -1 <= owned[i].parent < |owned|
      ensures r.seen == fs.history[|old(fs.history)|] && r.now == fs.history[|fs.history| - 1] && r.to == |fs.history|
      ensures r.took.Some? ==> r.to == |old(fs.history)| + 2 && fs.nodes == r.now - {KeyOf(parentDir, owned, i)}
      ensures r.took.Some? || fs.examines ==>
        r.took == Unlinked(r.seen, r.now, KeyOf(parentDir, owned, i), owned[i].id, owned[i].directory)
      ensures (gone ==> r.took.Some? || r.gone) && (r.gone ==> KeyOf(parentDir, owned, i) !in r.now)
      ensures fs.quiet && fs.examines && old(Holds(i + 1)) ==> gone && Holds(i)
    {
      hide *;
      CoreFacts(i);
      HandleIs(owned[i].parent);
      KeyIs(parentDir, owned, i);
      ghost var held := fs.quiet && fs.examines && Holds(i + 1);
      if held {
        HeldEntry(i);
      }
      var ok, removal := fs.RemoveOwned(HandleId(owned[i].parent), owned[i].name, owned[i].id, owned[i].directory);
      CoreStays();
      gone, r := ok, removal;
      if held {
        HeldRemoved(i);
      }
    }

    /** The handle of the directory that an entry lies in, to remove it there. */
    method ReachParent(i: nat) returns (open: bool)
      requires Core() && Pinned() && i < |owned|
      modifies this`handles, fs`nodes, fs`next, fs`history
      ensures Core() && Pinned() && fs.next >= old(fs.next) && old(fs.history) <= fs.history
      ensures open ==> owned[i].parent == -1 || owned[i].parent in handles
      ensures forall j :: 0 <= j < |owned| ==> -1 <= owned[j].parent < j
      ensures fs.quiet ==> fs.nodes == old(fs.nodes)
      ensures fs.examines && AloneDuring(fs.history, |old(fs.history)|, |fs.history|, parentDir, owned, owned[i].parent) ==> open
      ensures fs.quiet && old(Holds(i + 1)) ==> Holds(i + 1) && (fs.examines ==> open)
    {
      hide Core, Separate, Bindings, KeyOf, LeftAlone, AloneDuring;
      CoreFacts(i);
      ParentsBelow();
      if Holds(i + 1) {
        HeldAlone(i + 1, owned[i].parent);
      }
      ghost var names, from, held := fs.nodes, |fs.history|, Holds(i + 1);
      open := OpenHandle(owned[i].parent);
      if fs.quiet && held {
        AloneThroughout(fs.history, from, |fs.history|, names, parentDir, owned, owned[i].parent);
      }
    }

    lemma NothingExplained(history: seq<map<Key, Node>>, i: nat, r: Removal)
      requires Core() && i < |owned| && -1 <= owned[i].parent < |owned| && r.took.None? && !r.gone && r.from <= r.to == |history|
      ensures |made| == |owned| && Explains(i, r) && Seen(history, r.from, KeyOf(parentDir, owned, i), r) && Took(r) == {}
    {
      hide Core;
      StageIs();
    }

    twostate lemma HeldRemoved(i: nat)
      requires old(Holds(i + 1)) && owned == old(owned) && base == old(base) && baseNext == old(baseNext)
      requires (forall j :: 0 <= j < |owned| ==> -1 <= owned[j].parent < j) && fs.nodes == base + Bindings(parentDir, owned, i)
      ensures Holds(i)
    {
      hide Separate, Bindings;
    }

    lemma RemovalExplained(above: seq<map<Key, Node>>, now: seq<map<Key, Node>>, i: nat, r: Removal)
      requires Core() && i < |owned| && -1 <= owned[i].parent < |owned|
      requires r.took.Some? ==> r.took == Unlinked(r.seen, r.now, KeyOf(parentDir, owned, i), owned[i].id, owned[i].directory)
      requires above < now && r.from <= |above| && r.to == |now| <= |above| + 2 && r.seen == now[|above|] && r.now == now[|now| - 1]
      requires (r.took.Some? ==> r.to == |above| + 2) && (r.gone ==> KeyOf(parentDir, owned, i) !in r.now)
      ensures |made| == |owned| && Explains(i, r) && Seen(now, r.from, KeyOf(parentDir, owned, i), r)
    {
      hide Core, KeyOf;
      StageIs();
    }

    lemma HeldEntry(i: nat)
      requires Core() && Holds(i + 1)
      ensures -1 <= owned[i].parent < i && forall j :: 0 <= j < |owned| ==> -1 <= owned[j].parent < j
      ensures LeftAlone(fs.nodes, parentDir, owned, owned[i].parent)
      ensures var key := KeyOf(parentDir, owned, i);
        Unlinked(fs.nodes, fs.nodes, key, owned[i].id, owned[i].directory) == Some(owned[i].id)
        && fs.nodes - {key} == base + Bindings(parentDir, owned, i)
    {
      hide Core, Separate, Bindings, LeftAlone;
      CoreFacts(i);
      HeldAlone(i + 1, owned[i].parent);
      LastBinding(base, baseNext, parentDir, owned, i + 1);
      OwnUnlinked(fs.nodes, KeyOf(parentDir, owned, i), owned[i].id, owned[i].directory);
    }

    lemma NotReached(above: seq<map<Key, Node>>, i: nat, r: Removal)
      requires i < |owned| && (forall j :: 0 <= j < |owned| ==> -1 <= owned[j].parent < j) && r.from <= r.to == |above|
      ensures Undisturbed(above, i, r) ==> AloneDuring(above, r.from, |above|, parentDir, owned, owned[i].parent)
    {
      hide LeftAlone, AloneDuring;
      ParentAlone(above, above, r.from, parentDir, owned, i);
    }

    lemma UndisturbedTakes(above: seq<map<Key, Node>>, now: seq<map<Key, Node>>, i: nat, r: Removal)
      requires i < |owned| && forall j :: 0 <= j < |owned| ==> -1 <= owned[j].parent < j
      requires above < now && r.from <= |above| && r.to == |now| && r.seen == now[|above|] && r.now == now[|now| - 1]
      ensures Undisturbed(now, i, r) ==>
        Unlinked(r.seen, r.now, KeyOf(parentDir, owned, i), owned[i].id, owned[i].directory) == Some(owned[i].id)
    {
      hide LeftAlone, AloneDuring, Unlinked;
      ParentAlone(above, now, r.from, parentDir, owned, i);
      if Undisturbed(now, i, r) {
        AloneUnlinked(r.seen, r.now, KeyOf(parentDir, owned, i), owned[i].id, owned[i].directory);
      }
    }

    /** How a rollback can be made to remove a foreign, empty directory. Somebody rebound the name of an owned directory to it before
        that was opened, so that it is recorded, and then leaves it alone; or rebinds the name after it was examined. */
    lemma MisledRemoval(i: nat, names: map<Key, Node>, other: nat)
      requires Core() && i < |owned| && owned[i].directory && other !in fs.created
      requires forall key :: key in names ==> key.0 != other && key.0 != made[i]
      ensures |made| == |owned| && -1 <= owned[i].parent < |owned|
      ensures var key := KeyOf(parentDir, owned, i);
        var swapped := names[key := Node(other, true)];
        var early, late := Removal(swapped, swapped, 0, 0, false, Some(other)),
                           Removal(names[key := Node(made[i], true)], swapped, 0, 0, false, Some(other));
        key.0 != other ==>
          && other !in made
          && (owned[i].id == other ==> Explains(i, early) && Unlinked(swapped, swapped, key, other, true) == early.took)
          && (owned[i].id == made[i] ==> Explains(i, late) && Unlinked(late.seen, swapped, key, owned[i].id, true) == late.took)
    {
      hide Placed, ParentsFirst;
      StageIs();
      CoreFacts(i);
    }

    /** Staging does not take the destination's name, when nobody interferes. */
    lemma DestinationFree()
      requires Valid() && !committed && !closed
      ensures fs.quiet && fs.examines && (parentDir, name) !in base ==> (parentDir, name) !in fs.nodes
      ensures fs.quiet && fs.examines ==> Separate(base, baseNext, parentDir, owned) && (parentDir, stageName) in fs.nodes
      ensures fs.quiet && fs.examines ==> fs.nodes == base + Bindings(parentDir, owned, |owned|)
      ensures ParentsFirst(owned, stageName)
    {
      hide Placed, Births, Bindings;
      ParentsBefore(owned, stageName);
      if fs.quiet && fs.examines {
        BindingAt(base, baseNext, parentDir, owned, |owned|, 0);
        if (parentDir, name) in Bindings(parentDir, owned, |owned|) {
          var j := BoundBy(parentDir, owned, |owned|, (parentDir, name));
          DestinationNotOwned(base, baseNext, parentDir, owned, stageName, name, j);
        }
      }
    }

    /** A name under which nothing was staged yet is free, when nobody interferes. */
    lemma FreshName(at: nat, name: string, path: string)
      requires Valid() && !committed && !closed && fs.quiet && fs.reliable
      requires at < |owned| && Under(PathOf(owned, at), name) == path
      requires forall j :: 0 < j < |owned| ==> PathOf(owned, j) != path
      ensures (owned[at].id, name) !in fs.nodes
    {
      hide Placed, Births, Bindings, PathOf, Under, KeyOf;
      var key := (owned[at].id, name);
      ParentsBefore(owned, stageName);
      if key in Bindings(parentDir, owned, |owned|) {
        var j := BoundBy(parentDir, owned, |owned|, key);
        KeyNotTaken(base, baseNext, parentDir, owned, stageName, at, name, j);
      }
    }
  }

  /** A whole download, from before the transfer to the cleanup (`data` is None when the archive could not be transferred). The
      destination name is free when it is bound. When nobody interferes and no call fails by itself, exactly an acceptable archive
      is published, unless a name is taken or the download is canceled; then the destination holds the archive's directories and
      files and nothing else has changed, and otherwise nothing has changed at all. */
  method DownloadArchive(fs: FileSystem, parentDir: nat, name: string, stageName: string, ctx: Archive.Context, data: Option<bytes>,
      files: Option<seq<Archive.ZipFile>>)
    returns (published: bool, clean: bool, ghost owned: seq<Owned>, ghost dirs: seq<string>, ghost at: map<Key, Node>)
    requires fs.Valid() && parentDir < fs.next && stageName != name
    modifies fs, ctx
    ensures published ==> data.Some? && Archive.Acceptable(data.value, files) && files.Some?
    ensures published ==> fs.history != [] && at == fs.history[|fs.history| - 1]
    ensures published ==> (parentDir, stageName) in at && (parentDir, name) !in at
    ensures published ==> fs.nodes == (at - {(parentDir, stageName)})[(parentDir, name) := at[(parentDir, stageName)]]
    ensures fs.quiet && fs.reliable ==> (published <==>
      && (parentDir, name) !in old(fs.nodes) && (parentDir, stageName) !in old(fs.nodes)
      && data.Some? && Archive.Acceptable(data.value, files) && !ctx.canceled)
    ensures fs.quiet && fs.examines && !published ==> fs.nodes == old(fs.nodes)
    ensures fs.quiet && fs.examines && published ==>
      Delivered(old(fs.nodes), old(fs.next), parentDir, stageName, name, owned, dirs, Archive.EntriesOf(files.value), fs.nodes)
    ensures fs.quiet && fs.examines ==> clean
  {
    hide *;
    fs.Sane();
    published, clean, owned, dirs, at := false, true, [], [], fs.nodes;
    var t := Prepare(fs, parentDir, name, stageName);
    if t == null {
      return;
    }
    if data.Some? {
      var receipt, list := t.Extract(ctx, data.value, files);
      dirs := list;
      if receipt.Some? {
        t.DestinationFree();
        AcceptedNames(data.value, files);
        ghost var was := fs.nodes;
        var ok, seen, renamed := t.Commit(ctx);
        if fs.quiet && fs.examines && ok {
          Delivers(t.base, t.baseNext, parentDir, stageName, name, t.owned, dirs, Archive.EntriesOf(files.value), was, fs.nodes);
        }
        published, at := ok, renamed;
      }
    }
    owned := t.owned;
    var done, removals := t.Close();
    clean := done;
  }

  /** The owned entries are the staging directory, then the archive's directories, then its files. */
  ghost predicate HoldsArchive(owned: seq<Owned>, stageName: string, dirs: seq<string>, entries: seq<Archive.Entry>) {
    && |owned| == 1 + |dirs| + |FileNames(entries)| && owned[0].parent == -1 && owned[0].name == stageName && owned[0].directory
    && Archive.DirectoryList(entries, dirs) && Staged(owned, 1, dirs, true) && Staged(owned, 1 + |dirs|, FileNames(entries), false)
  }

  /** The archive was staged beside what was there `before`, and its staging directory renamed to the destination. */
  ghost predicate Delivered(before: map<Key, Node>, next: nat, parentDir: nat, stageName: string, name: string, owned: seq<Owned>,
      dirs: seq<string>, entries: seq<Archive.Entry>, after: map<Key, Node>)
  {
    && Separate(before, next, parentDir, owned) && HoldsArchive(owned, stageName, dirs, entries)
    && var staged := before + Bindings(parentDir, owned, |owned|);
    && (parentDir, stageName) in staged && (parentDir, name) !in staged
    && after == (staged - {(parentDir, stageName)})[(parentDir, name) := staged[(parentDir, stageName)]]
  }

  lemma Delivers(before: map<Key, Node>, next: nat, parentDir: nat, stageName: string, name: string, owned: seq<Owned>,
      dirs: seq<string>, entries: seq<Archive.Entry>, staged: map<Key, Node>, after: map<Key, Node>)
    requires Separate(before, next, parentDir, owned) && ParentsFirst(owned, stageName) && Archive.DirectoryList(entries, dirs)
    requires |owned| == 1 + |dirs| + |FileNames(entries)| && Staged(owned, 1, dirs, true) && Staged(owned, 1 + |dirs|, FileNames(entries), false)
    requires staged == before + Bindings(parentDir, owned, |owned|) && (parentDir, stageName) in staged && (parentDir, name) !in staged
    requires after == (staged - {(parentDir, stageName)})[(parentDir, name) := staged[(parentDir, stageName)]]
    ensures Delivered(before, next, parentDir, stageName, name, owned, dirs, entries, after)
  {
    hide Separate, Bindings, Staged, FileNames, Archive.DirectoryList;
  }

  lemma KeyNotTaken(base: map<Key, Node>, baseNext: nat, parentDir: nat, owned: seq<Owned>, stageName: string, at: nat, name: string, j: nat)
    requires Separate(base, baseNext, parentDir, owned) && ParentsFirst(owned, stageName) && at < |owned| && j < |owned|
    requires 0 < j ==> PathOf(owned, j) != Under(PathOf(owned, at), name)
    ensures -1 <= owned[j].parent < |owned| && KeyOf(parentDir, owned, j) != (owned[at].id, name)
  {
    hide WellFormed, Under;
    if 0 < j {
      assert PathOf(owned, j) == Under(PathOf(owned, owned[j].parent), owned[j].name);
      assert owned[j].parent != at ==> owned[owned[j].parent].id != owned[at].id;
    }
  }

  lemma DestinationNotOwned(base: map<Key, Node>, baseNext: nat, parentDir: nat, owned: seq<Owned>, stageName: string, name: string, j: nat)
    requires Separate(base, baseNext, parentDir, owned) && ParentsFirst(owned, stageName) && j < |owned| && stageName != name
    ensures -1 <= owned[j].parent < |owned| && KeyOf(parentDir, owned, j) != (parentDir, name)
  {
    hide WellFormed;
  }

  /** What each owned entry was created with: new identities, one each; only a directory can be recorded under another, and
      only if somebody interferes. */
  ghost predicate Births(owned: seq<Owned>, made: seq<nat>, baseNext: nat, next: nat, created: set<nat>, quiet: bool) {
    && |made| == |owned|
    && (forall i :: 0 <= i < |owned| ==> owned[i].id < next && baseNext <= made[i] < next && made[i] in created)
    && (forall i :: 0 <= i < |owned| && (quiet || !owned[i].directory) ==> owned[i].id == made[i])
    && (forall i, j :: 0 <= i < j < |made| ==> made[i] != made[j])
  }

  lemma BirthsSnoc(owned: seq<Owned>, made: seq<nat>, baseNext: nat, next: nat, created: set<nat>, quiet: bool, e: Owned, m: nat)
    requires Births(owned, made, baseNext, next, created, quiet)
    requires e.id < next && baseNext <= m < next && m in created && m !in made && (quiet || !e.directory ==> e.id == m)
    ensures Births(owned + [e], made + [m], baseNext, next, created, quiet) && |made| == |owned|
    ensures quiet ==> baseNext <= e.id && forall i :: 0 <= i < |owned| ==> owned[i].id != e.id
  {
  }

  lemma BirthsStay(owned: seq<Owned>, made: seq<nat>, baseNext: nat, next: nat, later: nat, created: set<nat>, more: set<nat>, quiet: bool)
    requires Births(owned, made, baseNext, next, created, quiet) && next <= later && created <= more
    ensures Births(owned, made, baseNext, later, more, quiet)
  {
  }

  ghost function TookAll(removals: seq<Removal>): set<nat> {
    set i | 0 <= i < |removals| && removals[i].took.Some? :: removals[i].took.value
  }

  lemma NothingTaken(removals: seq<Removal>)
    requires forall i :: 0 <= i < |removals| ==> removals[i].took.None?
    ensures TookAll(removals) == {}
  {
  }

  lemma TookOneMore(removals: seq<Removal>, i: nat, r: Removal)
    requires i < |removals| && removals[i].took.None?
    ensures TookAll(removals[i := r]) == TookAll(removals) + Took(r)
  {
    var now := removals[i := r];
    assert now[i] == r;
    forall id | id in TookAll(removals) ensures id in TookAll(now) {
      var j :| 0 <= j < |removals| && removals[j].took == Some(id);
      assert now[j] == removals[j];
    }
  }

  /** Identities that no window let in are the transaction's own. */
  lemma UndisturbedTakesOwn(removals: seq<Removal>, keys: seq<Key>, made: seq<nat>, owned: seq<Owned>)
    requires |removals| == |keys| == |made| == |owned|
    requires forall i :: 0 <= i < |removals| && removals[i].took.Some? ==> TakesOwn(removals[i], keys[i], made[i], owned[i].id)
    requires forall i :: 0 <= i < |removals| && removals[i].took.Some? ==>
      !OpenedAnother(made[i], owned[i].id) && keys[i] in removals[i].now && keys[i] in removals[i].seen && !Rebound(removals[i], keys[i])
    ensures forall id :: id in TookAll(removals) ==> id in made
  {
  }

  lemma {:induction false} BoundBy(parentDir: nat, owned: seq<Owned>, n: nat, key: Key) returns (j: nat)
    requires n <= |owned| && (forall i :: 0 <= i < |owned| ==> -1 <= owned[i].parent < |owned|) && key in Bindings(parentDir, owned, n)
    ensures j < n && KeyOf(parentDir, owned, j) == key
  {
    if key == KeyOf(parentDir, owned, n - 1) {
      j := n - 1;
    } else {
      j := BoundBy(parentDir, owned, n - 1, key);
    }
  }

  lemma NotYetListed(entries: seq<Archive.Entry>, dirs: seq<string>, i: nat)
    requires Archive.DirectoryList(entries, dirs) && i < |dirs|
    ensures dirs[i] !in dirs[..i]
  {
  }

  /** A new file has none of the names staged before it. */
  lemma FileNotYetStaged(entries: seq<Archive.Entry>, dirs: seq<string>, i: nat)
    requires Archive.IsTree(entries) && Archive.DirectoryList(entries, dirs) && i < |entries| && !entries[i].dir
    ensures entries[i].name !in dirs && entries[i].name !in FileNames(entries[..i])
  {
    hide Archive.DirectoryList, FileNames;
    if entries[i].name in dirs {
      var d :| 0 <= d < |dirs| && dirs[d] == entries[i].name;
      Archive.NoFileTwice(entries, dirs, d, i);
    }
    if entries[i].name in FileNames(entries[..i]) {
      var j := FileOf(entries[..i], entries[i].name);
      FilesDiffer(entries, j, i);
    }
  }

  lemma FilesDiffer(entries: seq<Archive.Entry>, j: nat, i: nat)
    requires Archive.IsTree(entries) && j < i < |entries|
    ensures entries[j].name != entries[i].name
  {
  }

  lemma {:induction false} FileOf(entries: seq<Archive.Entry>, path: string) returns (j: nat)
    requires path in FileNames(entries)
    ensures j < |entries| && entries[j].name == path
  {
    var last := |entries| - 1;
    if path in FileNames(entries[..last]) {
      j := FileOf(entries[..last], path);
    } else {
      j := last;
    }
  }

  /** A path that is in none of the lists staged so far is staged nowhere. */
  lemma NotYetStaged(owned: seq<Owned>, dirs: seq<string>, files: seq<string>, path: string)
    requires Staged(owned, 1, dirs, true) && Staged(owned, 1 + |dirs|, files, false) && |owned| == 1 + |dirs| + |files|
    requires path !in dirs && path !in files
    ensures forall j :: 0 < j < |owned| ==> PathOf(owned, j) != path
  {
    hide PathOf, Staged;
    forall j | 0 < j < |owned| ensures PathOf(owned, j) != path {
      if j <= |dirs| {
        StagedPath(owned, 1, dirs, true, j - 1);
      } else {
        StagedPath(owned, 1 + |dirs|, files, false, j - 1 - |dirs|);
      }
    }
  }

  lemma StagedPath(owned: seq<Owned>, from: nat, paths: seq<string>, directory: bool, k: nat)
    requires Staged(owned, from, paths, directory) && k < |paths|
    ensures from + k < |owned| && PathOf(owned, from + k) == paths[k]
  {
    hide PathOf;
    assert StagedAt(owned, from + k, paths[k], directory);
  }

  lemma ParentsBefore(owned: seq<Owned>, stageName: string)
    requires ParentsFirst(owned, stageName)
    ensures forall i :: 0 <= i < |owned| ==> -1 <= owned[i].parent < |owned|
  {
  }

  lemma KeyIs(parentDir: nat, owned: seq<Owned>, i: nat)
    requires i < |owned| && -1 <= owned[i].parent < |owned|
    ensures KeyOf(parentDir, owned, i) == (DirectoryId(parentDir, owned, owned[i].parent), owned[i].name)
  {
  }

  lemma AcceptedNames(data: bytes, files: Option<seq<Archive.ZipFile>>)
    requires Archive.Acceptable(data, files)
    ensures files.Some? && Archive.ValidNames(Archive.EntriesOf(files.value)) && Archive.IsTree(Archive.EntriesOf(files.value))
  {
  }

  lemma DirectoryNamed(entries: seq<Archive.Entry>, dirs: seq<string>, i: nat)
    requires Archive.ValidNames(entries) && Archive.DirectoryList(entries, dirs) && i < |dirs|
    ensures dirs[i] != "" && Under(if Dir(dirs[i]) == "." then "" else Dir(dirs[i]), Base(dirs[i])) == dirs[i]
  {
    assert dirs[i] in Archive.DirectoryPaths(Archive.AllMentions(entries));
    var e, n := Archive.DirectoryFrom(entries, dirs[i]);
    AncestorNamed(entries[e].name, n);
  }

  lemma FileNamed(entries: seq<Archive.Entry>, i: nat)
    requires Archive.ValidNames(entries) && i < |entries|
    ensures var name := entries[i].name; Under(if Dir(name) == "." then "" else Dir(name), Base(name)) == name
  {
    AncestorParts(entries[i].name, |Split(entries[i].name)|);
    AncestorNamed(entries[i].name, |Split(entries[i].name)|);
  }

  /** A path is its directory and its last part. */
  lemma AncestorNamed(name: string, n: nat)
    requires ValidName(name) && 0 < n <= |Split(name)|
    ensures var path := Ancestor(name, n);
      path != "" && Under(if Dir(path) == "." then "" else Dir(path), Base(path)) == path
  {
    var path := Ancestor(name, n);
    AncestorParts(name, n);
    Archive.DirOfAncestor(name, n);
    JoinSplit(path);
    assert Split(name)[..n][0] == Split(name)[0];
    if n > 1 {
      DirSortsFirst(path);
      NotEmpty(name, n - 1);
    }
  }

  lemma NotEmpty(name: string, n: nat)
    requires ValidName(name) && 0 < n <= |Split(name)|
    ensures Ancestor(name, n) != ""
  {
  }

  // ----- where owned entries lie

  function Under(dir: string, name: string): string {
    if dir == "" then name else dir + "/" + name
  }

  /** The path of an owned entry below the staging directory. */
  ghost function PathOf(owned: seq<Owned>, i: nat): string
    requires i < |owned|
    decreases i
  {
    if 0 <= owned[i].parent < i then Under(PathOf(owned, owned[i].parent), owned[i].name) else ""
  }

  /** Each directory handle belongs to the path it is kept under. */
  ghost predicate Placed(owned: seq<Owned>, directories: map<string, nat>) {
    forall path :: path in directories ==> directories[path] < |owned| && PathOf(owned, directories[path]) == path
  }

  /** One more entry is owned, with this name in this directory. */
  ghost predicate Grew(was: seq<Owned>, now: seq<Owned>, at: nat, name: string, directory: bool) {
    && at < |was| && |now| == |was| + 1 && was <= now
    && now[|was|].parent == at && now[|was|].name == name && now[|was|].directory == directory
  }

  /** The entries owned from position `from` on are these, in order. */
  ghost predicate Staged(owned: seq<Owned>, from: nat, paths: seq<string>, directory: bool) {
    from + |paths| <= |owned|
    && forall j :: 0 <= j < |paths| ==> StagedAt(owned, from + j, paths[j], directory)
  }

  ghost predicate StagedAt(owned: seq<Owned>, k: nat, path: string, directory: bool) {
    k < |owned| && owned[k].directory == directory && PathOf(owned, k) == path
  }

  function FileNames(entries: seq<Archive.Entry>): seq<string> {
    if entries == [] then []
    else
      var last := entries[|entries| - 1];
      FileNames(entries[..|entries| - 1]) + if last.dir then [] else [last.name]
  }

  lemma FileNamesSnoc(entries: seq<Archive.Entry>, i: nat)
    requires i < |entries|
    ensures FileNames(entries[..i + 1]) == if entries[i].dir then FileNames(entries[..i]) else FileNames(entries[..i]) + [entries[i].name]
  {
    assert entries[..i + 1][..i] == entries[..i];
  }

  lemma NoFiles()
    ensures FileNames([]) == []
  {
  }

  lemma NothingStaged(owned: seq<Owned>, directory: bool)
    ensures Staged(owned, |owned|, [], directory)
  {
  }

  lemma {:induction false} PathStays(was: seq<Owned>, now: seq<Owned>, i: nat)
    requires was <= now && i < |was|
    ensures PathOf(now, i) == PathOf(was, i)
    decreases i
  {
    if 0 <= was[i].parent < i {
      PathStays(was, now, was[i].parent);
    }
  }

  lemma PlacedStays(was: seq<Owned>, now: seq<Owned>, directories: map<string, nat>)
    requires Placed(was, directories) && was <= now
    ensures Placed(now, directories)
  {
    forall path | path in directories ensures directories[path] < |now| && PathOf(now, directories[path]) == path {
      PathStays(was, now, directories[path]);
    }
  }

  lemma Owning(was: seq<Owned>, e: Owned)
    requires 0 <= e.parent < |was|
    ensures Grew(was, was + [e], e.parent, e.name, e.directory)
  {
  }

  lemma GrownPath(was: seq<Owned>, now: seq<Owned>, at: nat, name: string, directory: bool)
    requires Grew(was, now, at, name, directory)
    ensures PathOf(now, |was|) == Under(PathOf(was, at), name)
  {
    PathStays(was, now, at);
  }

  lemma StagedStays(was: seq<Owned>, now: seq<Owned>, from: nat, paths: seq<string>, directory: bool)
    requires Staged(was, from, paths, directory) && was <= now
    ensures Staged(now, from, paths, directory)
  {
    forall j | 0 <= j < |paths| ensures StagedAt(now, from + j, paths[j], directory) {
      assert StagedAt(was, from + j, paths[j], directory);
      PathStays(was, now, from + j);
    }
  }

  lemma StagedSnoc(was: seq<Owned>, now: seq<Owned>, from: nat, paths: seq<string>, at: nat, name: string, path: string, directory: bool)
    requires Staged(was, from, paths, directory) && from + |paths| == |was| && Grew(was, now, at, name, directory)
    requires Under(PathOf(was, at), name) == path
    ensures Staged(now, from, paths + [path], directory) && |now| == |was| + 1
  {
    StagedStays(was, now, from, paths, directory);
    GrownPath(was, now, at, name, directory);
    var more := paths + [path];
    forall j | 0 <= j < |more| ensures StagedAt(now, from + j, more[j], directory) {
      if j < |paths| {
        assert StagedAt(now, from + j, paths[j], directory);
      }
    }
  }

  /** Starts a transaction: nothing may have the destination's name, and the staging directory is new. */
  method Prepare(fs: FileSystem, parentDir: nat, name: string, stageName: string) returns (t: Transaction?)
    requires fs.Valid() && parentDir < fs.next && stageName != name
    modifies fs
    ensures t != null ==> fresh(t) && t.Valid() && t.fs == fs && t.parentDir == parentDir && t.name == name && t.stageName == stageName
    ensures t != null ==> !t.committed && !t.closed && |t.owned| == 1
    ensures t != null ==> var looked := |old(fs.history)|;
      old(fs.history) < fs.history && |fs.history| == looked + 3
      && (parentDir, name) !in fs.history[looked] && (parentDir, stageName) !in fs.history[looked + 1]
      && (parentDir, stageName) in fs.history[looked + 2] && fs.history[looked + 2][(parentDir, stageName)] == Node(t.owned[0].id, true)
    ensures t != null && fs.quiet ==> t.base == old(fs.nodes) && t.baseNext == old(fs.next) && (parentDir, name) !in old(fs.nodes)
    ensures fs.quiet && fs.reliable ==> (t != null <==> (parentDir, name) !in old(fs.nodes) && (parentDir, stageName) !in old(fs.nodes))
    ensures t == null && fs.quiet && fs.examines ==> fs.nodes == old(fs.nodes)
    ensures fs.removed == old(fs.removed)
  {
    fs.Others();
    if (parentDir, name) in fs.nodes {
      return null;
    }
    ghost var base, baseNext := fs.nodes, fs.next;
    var stage, made, at := fs.MakeDirectory(parentDir, stageName);
    if stage.None? {
      return null;
    }
    t := new Transaction(fs, parentDir, name, stageName, stage.value, made, base, baseNext);
  }

  lemma FirstBinding(base: map<Key, Node>, parentDir: nat, owned: seq<Owned>)
    requires |owned| == 1 && owned[0].parent == -1
    ensures KeyOf(parentDir, owned, 0) == (parentDir, owned[0].name)
    ensures Bindings(parentDir, owned, 1) == map[(parentDir, owned[0].name) := Node(owned[0].id, owned[0].directory)]
    ensures base + Bindings(parentDir, owned, 1) == base[(parentDir, owned[0].name) := Node(owned[0].id, owned[0].directory)]
  {
    assert Bindings(parentDir, owned, 0) == map[];
  }

  /** Owning one more entry, bound to a new name. */
  lemma OwnedSnoc(base: map<Key, Node>, baseNext: nat, parentDir: nat, owned: seq<Owned>, e: Owned)
    requires Separate(base, baseNext, parentDir, owned) && 0 <= e.parent < |owned| && baseNext <= e.id
    requires forall i :: 0 <= i < |owned| ==> owned[i].id != e.id
    requires (owned[e.parent].id, e.name) !in base + Bindings(parentDir, owned, |owned|)
    ensures Separate(base, baseNext, parentDir, owned + [e])
    ensures base + Bindings(parentDir, owned + [e], |owned| + 1)
      == (base + Bindings(parentDir, owned, |owned|))[(owned[e.parent].id, e.name) := Node(e.id, e.directory)]
  {
    hide Bindings, Separate;
    OwnedSeparate(base, baseNext, parentDir, owned, e);
    BindingsSame(parentDir, owned, owned + [e], |owned|);
    OwnedBinds(base, parentDir, owned, e);
  }

  lemma OwnedSeparate(base: map<Key, Node>, baseNext: nat, parentDir: nat, owned: seq<Owned>, e: Owned)
    requires Separate(base, baseNext, parentDir, owned) && 0 <= e.parent < |owned| && baseNext <= e.id
    requires forall i :: 0 <= i < |owned| ==> owned[i].id != e.id
    requires (owned[e.parent].id, e.name) !in base + Bindings(parentDir, owned, |owned|)
    ensures Separate(base, baseNext, parentDir, owned + [e]) && forall i :: 0 <= i < |owned| ==> -1 <= owned[i].parent < i
  {
    hide Bindings, WellFormed;
    var more, n := owned + [e], |owned|;
    var key := (owned[e.parent].id, e.name);
    assert KeyOf(parentDir, more, n) == key;
    forall i | 0 <= i < n ensures KeyOf(parentDir, more, i) == KeyOf(parentDir, owned, i) != key {
      BindingAt(base, baseNext, parentDir, owned, n, i);
    }
  }

  lemma OwnedBinds(base: map<Key, Node>, parentDir: nat, owned: seq<Owned>, e: Owned)
    requires 0 <= e.parent < |owned| && forall i :: 0 <= i < |owned| ==> -1 <= owned[i].parent < i
    requires Bindings(parentDir, owned, |owned|) == Bindings(parentDir, owned + [e], |owned|)
    requires (owned[e.parent].id, e.name) !in base + Bindings(parentDir, owned, |owned|)
    ensures base + Bindings(parentDir, owned + [e], |owned| + 1)
      == (base + Bindings(parentDir, owned, |owned|))[(owned[e.parent].id, e.name) := Node(e.id, e.directory)]
  {
    RemoveAdded(base, Bindings(parentDir, owned, |owned|), (owned[e.parent].id, e.name), Node(e.id, e.directory));
  }

  lemma {:induction false} BindingsSame(parentDir: nat, owned: seq<Owned>, more: seq<Owned>, n: nat)
    requires n <= |owned| && owned <= more
    requires forall i :: 0 <= i < |owned| ==> -1 <= owned[i].parent < |owned|
    requires forall i :: 0 <= i < |more| ==> -1 <= more[i].parent < |more|
    ensures Bindings(parentDir, owned, n) == Bindings(parentDir, more, n)
  {
    if n > 0 {
      BindingsSame(parentDir, owned, more, n - 1);
    }
  }

  lemma ParentsFirstSnoc(owned: seq<Owned>, stageName: string, e: Owned)
    requires ParentsFirst(owned, stageName) && 0 <= e.parent < |owned| && owned[e.parent].directory
    ensures ParentsFirst(owned + [e], stageName)
  {
  }
}
