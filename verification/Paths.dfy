// Paths, reachability and dominance in a finite directed graph.
module Paths {

  // Successor lists, as in CFG::succeeding_edges.
  type Graph = map<nat, seq<nat>>

  predicate Edge(g: Graph, a: nat, b: nat) {
    a in g && b in g[a]
  }

  ghost predicate IsPath(g: Graph, p: seq<nat>) {
    && |p| > 0
    && (|p| > 1 ==> Edge(g, p[|p| - 2], p[|p| - 1]) && IsPath(g, p[..|p| - 1]))
  }

  ghost predicate PathBetween(g: Graph, a: nat, b: nat, p: seq<nat>) {
    IsPath(g, p) && p[0] == a && p[|p| - 1] == b
  }

  ghost predicate Reaches(g: Graph, a: nat, b: nat) {
    exists p :: PathBetween(g, a, b, p)
  }

  // a lies on every path from the entry to b.
  ghost predicate Dominates(g: Graph, entry: nat, a: nat, b: nat) {
    forall p :: PathBetween(g, entry, b, p) ==> a in p
  }

  ghost predicate StrictlyDominates(g: Graph, entry: nat, a: nat, b: nat) {
    a != b && Dominates(g, entry, a, b)
  }

  // d is a strict dominator of b that every other strict dominator of b dominates.
  ghost predicate IsImmediateDominator(g: Graph, entry: nat, d: nat, b: nat) {
    && StrictlyDominates(g, entry, d, b)
    && forall c :: StrictlyDominates(g, entry, c, b) ==> Dominates(g, entry, c, d)
  }

  // The dominators of d are exactly the blocks that dominate every member of s.
  ghost predicate IsNearestCommonDominator(g: Graph, entry: nat, d: nat, s: set<nat>) {
    forall c :: Dominates(g, entry, c, d) <==> forall b :: b in s ==> Dominates(g, entry, c, b)
  }

  lemma SingletonPath(g: Graph, a: nat)
    ensures PathBetween(g, a, a, [a])
    ensures Reaches(g, a, a)
  {
    assert PathBetween(g, a, a, [a]);
  }

  lemma ExtendPath(g: Graph, a: nat, b: nat, c: nat, p: seq<nat>)
    requires PathBetween(g, a, b, p) && Edge(g, b, c)
    ensures PathBetween(g, a, c, p + [c])
    ensures Reaches(g, a, c)
  {
    assert (p + [c])[..|p|] == p;
    assert PathBetween(g, a, c, p + [c]);
  }

  lemma ExtendReach(g: Graph, a: nat, b: nat, c: nat)
    requires Reaches(g, a, b) && Edge(g, b, c)
    ensures Reaches(g, a, c)
  {
    var p :| PathBetween(g, a, b, p);
    ExtendPath(g, a, b, c, p);
  }

  lemma {:induction false} PrefixIsPath(g: Graph, p: seq<nat>, n: nat)
    requires IsPath(g, p) && 0 < n <= |p|
    ensures IsPath(g, p[..n])
    decreases |p|
  {
    if n < |p| {
      PrefixIsPath(g, p[..|p| - 1], n);
      assert p[..|p| - 1][..n] == p[..n];
    } else {
      assert p[..n] == p;
    }
  }

  lemma {:induction false} PathEdge(g: Graph, p: seq<nat>, i: nat)
    requires IsPath(g, p) && i + 1 < |p|
    ensures Edge(g, p[i], p[i + 1])
  {
    PrefixIsPath(g, p, i + 2);
  }

  lemma {:induction false} JoinPaths(g: Graph, a: nat, b: nat, c: nat, p: seq<nat>, q: seq<nat>)
    requires PathBetween(g, a, b, p) && PathBetween(g, b, c, q)
    ensures PathBetween(g, a, c, p + q[1..])
    decreases |q|
  {
    if |q| == 1 {
      assert p + q[1..] == p;
    } else {
      var r := q[..|q| - 1];
      JoinPaths(g, a, b, r[|r| - 1], p, r);
      ExtendPath(g, a, r[|r| - 1], c, p + r[1..]);
      assert p + q[1..] == p + r[1..] + [c];
    }
  }

  lemma {:induction false} SuffixIsPath(g: Graph, p: seq<nat>, i: nat)
    requires IsPath(g, p) && i < |p|
    ensures IsPath(g, p[i..])
    decreases |p|
  {
    if i + 1 < |p| {
      SuffixIsPath(g, p[..|p| - 1], i);
      assert p[i..][..|p| - i - 1] == p[..|p| - 1][i..];
    }
  }

  // A set that contains the start and is closed under edges contains every path.
  lemma {:induction false} ClosedSetHoldsPath(g: Graph, s: set<nat>, p: seq<nat>)
    requires IsPath(g, p) && p[0] in s
    requires forall a, b :: a in s && Edge(g, a, b) ==> b in s
    ensures forall x :: x in p ==> x in s
    decreases |p|
  {
    if |p| > 1 {
      ClosedSetHoldsPath(g, s, p[..|p| - 1]);
      assert p == p[..|p| - 1] + [p[|p| - 1]];
      assert p[|p| - 2] == p[..|p| - 1][|p| - 2];
    }
  }

  // ---- Dominance ----

  lemma EntryDominators(g: Graph, entry: nat, a: nat)
    ensures Dominates(g, entry, a, entry) <==> a == entry
  {
    SingletonPath(g, entry);
  }

  lemma SelfDominates(g: Graph, entry: nat, a: nat)
    ensures Dominates(g, entry, a, a)
    ensures Dominates(g, entry, entry, a)
  {}

  // The dominator equation: besides b itself, the dominators of b are those that
  // dominate all its predecessors.
  lemma DominatorEquation(g: Graph, entry: nat, a: nat, b: nat)
    requires a != b && b != entry
    ensures Dominates(g, entry, a, b) <==> forall q :: Edge(g, q, b) ==> Dominates(g, entry, a, q)
  {
    if Dominates(g, entry, a, b) {
      forall q, p | Edge(g, q, b) && PathBetween(g, entry, q, p)
        ensures a in p
      {
        ExtendPath(g, entry, q, b, p);
        assert a in p + [b];
      }
    }
    if forall q :: Edge(g, q, b) ==> Dominates(g, entry, a, q) {
      forall p | PathBetween(g, entry, b, p)
        ensures a in p
      {
        var r := p[..|p| - 1];
        assert PathBetween(g, entry, p[|p| - 2], r);
        assert a in r;
      }
    }
  }

  lemma DominatesTransitive(g: Graph, entry: nat, a: nat, b: nat, c: nat)
    requires Dominates(g, entry, a, b) && Dominates(g, entry, b, c)
    ensures Dominates(g, entry, a, c)
  {
    forall p | PathBetween(g, entry, c, p)
      ensures a in p
    {
      var i :| 0 <= i < |p| && p[i] == b;
      PrefixIsPath(g, p, i + 1);
      assert PathBetween(g, entry, b, p[..i + 1]);
      assert a in p[..i + 1];
    }
  }

  // ---- Graphs whose edges lower a rank ----

  ghost predicate Descends(g: Graph, rank: map<nat, int>) {
    forall a, b :: Edge(g, a, b) ==> a in rank && b in rank && rank[b] < rank[a]
  }

  lemma {:induction false} PathDescends(g: Graph, rank: map<nat, int>, p: seq<nat>)
    requires Descends(g, rank) && IsPath(g, p) && p[0] in rank
    ensures forall i :: 0 <= i < |p| ==> p[i] in rank && rank[p[i]] <= rank[p[0]]
    ensures forall i :: 0 <= i < |p| ==> rank[p[|p| - 1]] <= rank[p[i]]
    ensures forall i :: 0 <= i < |p| - 1 ==> rank[p[|p| - 1]] < rank[p[i]]
    decreases |p|
  {
    if |p| > 1 {
      var q := p[..|p| - 1];
      PathDescends(g, rank, q);
      forall i | 0 <= i < |p| - 1
        ensures p[i] in rank && rank[p[i]] <= rank[p[0]] && rank[p[|p| - 1]] < rank[p[i]]
      {
        assert q[i] == p[i];
      }
    }
  }

  // Along descending edges a dominator has at least the rank of what it dominates,
  // and equal rank only when it is the same node.
  lemma DominatorRank(g: Graph, rank: map<nat, int>, entry: nat, a: nat, b: nat)
    requires Descends(g, rank) && entry in rank
    requires Reaches(g, entry, b) && Dominates(g, entry, a, b)
    ensures a in rank && b in rank && (a != b ==> rank[b] < rank[a])
    ensures Reaches(g, entry, a)
  {
    var p :| PathBetween(g, entry, b, p);
    PathDescends(g, rank, p);
    var i :| 0 <= i < |p| && p[i] == a;
    PrefixIsPath(g, p, i + 1);
    assert PathBetween(g, entry, a, p[..i + 1]);
  }
}
