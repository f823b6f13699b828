/** Commits, ancestry and merge bases, as the stack relies on them. */
module CommitGraph {

  /** Commits with their parents. The generation of a commit exceeds that of its parents, so the graph has no cycle. */
  datatype Graph = Graph(parents: map<string, set<string>>, generation: map<string, nat>) {
    ghost predicate Valid() {
      && parents.Keys == generation.Keys
      && forall c, p :: c in parents && p in parents[c] ==> p in parents && generation[p] < generation[c]
    }
  }

  /** `a` is `b` or reachable from it through parents. */
  predicate Ancestor(g: Graph, a: string, b: string)
    requires g.Valid() && b in g.parents
    decreases g.generation[b]
  {
    a == b || exists p :: p in g.parents[b] && Ancestor(g, a, p)
  }

  lemma {:induction false} AncestorIsCommit(g: Graph, a: string, b: string)
    requires g.Valid() && b in g.parents && Ancestor(g, a, b)
    ensures a in g.parents && g.generation[a] <= g.generation[b]
    ensures a != b ==> g.generation[a] < g.generation[b]
    decreases g.generation[b]
  {
    if a != b {
      var p :| p in g.parents[b] && Ancestor(g, a, p);
      AncestorIsCommit(g, a, p);
    }
  }

  lemma {:induction false} AncestorTransitive(g: Graph, a: string, b: string, c: string)
    requires g.Valid() && b in g.parents && c in g.parents && Ancestor(g, a, b) && Ancestor(g, b, c)
    ensures Ancestor(g, a, c)
    decreases g.generation[c]
  {
    if b != c {
      var p :| p in g.parents[c] && Ancestor(g, b, p);
      AncestorTransitive(g, a, b, p);
    }
  }

  /** Two commits that reach each other are the same. */
  lemma AncestorAntisymmetric(g: Graph, a: string, b: string)
    requires g.Valid() && a in g.parents && b in g.parents && Ancestor(g, a, b) && Ancestor(g, b, a)
    ensures a == b
  {
    if a != b {
      AncestorIsCommit(g, a, b);
      AncestorIsCommit(g, b, a);
    }
  }

  predicate Common(g: Graph, c: string, a: string, b: string)
    requires g.Valid() && a in g.parents && b in g.parents
  {
    Ancestor(g, c, a) && Ancestor(g, c, b)
  }

  /** git merge-base --all: the common ancestors that no other common ancestor descends from. */
  function MergeBases(g: Graph, a: string, b: string): set<string>
    requires g.Valid() && a in g.parents && b in g.parents
  {
    set c | c in g.parents && Common(g, c, a, b)
      && forall d :: d in g.parents && Common(g, d, a, b) && Ancestor(g, c, d) ==> d == c
  }

  /** The unique merge base is the first commit exactly when that commit is an ancestor of the second. */
  lemma UniqueMergeBase(g: Graph, a: string, b: string)
    requires g.Valid() && a in g.parents && b in g.parents
    ensures MergeBases(g, a, b) == {a} <==> Ancestor(g, a, b)
  {
    if Ancestor(g, a, b) {
      forall c | c in g.parents && Common(g, c, a, b) && a != c ensures c !in MergeBases(g, a, b) {
        assert Common(g, a, a, b);
      }
      forall d | d in g.parents && Common(g, d, a, b) && Ancestor(g, a, d) ensures d == a {
        AncestorAntisymmetric(g, a, d);
      }
      assert a in MergeBases(g, a, b);
    } else {
      assert a !in MergeBases(g, a, b);
    }
  }

  /** Each head is an ancestor of the next one. */
  ghost predicate Chain(g: Graph, heads: seq<string>)
    requires g.Valid() && forall i :: 0 <= i < |heads| ==> heads[i] in g.parents
  {
    forall i :: 0 <= i < |heads| - 1 ==> Ancestor(g, heads[i], heads[i + 1])
  }

  /** So every head, the base first of all, reaches every later one. */
  lemma {:induction false} ChainReaches(g: Graph, heads: seq<string>, i: nat, j: nat)
    requires g.Valid() && (forall k :: 0 <= k < |heads| ==> heads[k] in g.parents)
    requires Chain(g, heads) && i <= j < |heads|
    ensures Ancestor(g, heads[i], heads[j])
  {
    if i < j {
      ChainReaches(g, heads, i, j - 1);
      AncestorTransitive(g, heads[i], heads[j - 1], heads[j]);
    }
  }
}
