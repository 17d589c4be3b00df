// Immediate dominators over a completed search, as facts about values.
module Dominators {
  import opened Paths
  import opened Search

  type Idoms = map<nat, nat>

  // The table's entry for b is its immediate dominator, which is numbered higher;
  // the function's entry block stands for itself.
  ghost predicate EntryExact(entry: nat, s: State, idoms: Idoms, b: nat)
    requires b in s.order
  {
    && b in idoms && idoms[b] in s.order
    && (b == entry ==> idoms[b] == entry)
    && (b != entry ==> s.order[idoms[b]] > s.order[b] && IsImmediateDominator(s.succ, entry, idoms[b], b))
  }

  // Entries for all blocks numbered above `low` are exact.
  ghost predicate ExactAbove(entry: nat, s: State, idoms: Idoms, low: int) {
    forall b {:trigger EntryExact(entry, s, idoms, b)} ::
      b in s.order && s.order[b] > low ==> EntryExact(entry, s, idoms, b)
  }

  // The table has exactly the numbered blocks, each with its immediate dominator.
  ghost predicate Exact(entry: nat, s: State, idoms: Idoms) {
    idoms.Keys == s.order.Keys && ExactAbove(entry, s, idoms, 0)
  }

  ghost predicate CommonDominator(s: State, entry: nat, c: nat, a: nat, b: nat) {
    Dominates(s.succ, entry, c, a) && Dominates(s.succ, entry, c, b)
  }

  // The one block whose dominators are the common dominators of a and b.
  ghost predicate IsCommonDominator(s: State, entry: nat, r: nat, a: nat, b: nat) {
    forall c :: Dominates(s.succ, entry, c, r) <==> CommonDominator(s, entry, c, a, b)
  }

  ghost predicate SameCommon(s: State, entry: nat, a: nat, b: nat, x: nat, y: nat) {
    forall c :: CommonDominator(s, entry, c, a, b) <==> CommonDominator(s, entry, c, x, y)
  }

  lemma DominatorIsHigher(g: Shape, entry: nat, s: State, a: nat, b: nat)
    requires Completed(g, entry, s) && b in s.order && Dominates(s.succ, entry, a, b)
    ensures a in s.order && (a != b ==> s.order[b] < s.order[a])
  {
    ReachedByEdges(g, entry, s, b);
    DominatorRank(s.succ, s.order, entry, a, b);
  }

  // One climbing step of the two-finger walk loses no common dominator and gains none.
  lemma ClimbKeepsCommon(g: Shape, entry: nat, s: State, idoms: Idoms, low: int, a: nat, b: nat)
    requires Completed(g, entry, s) && ExactAbove(entry, s, idoms, low)
    requires a in s.order && b in s.order && low < s.order[a] < s.order[b]
    ensures a != entry && a in idoms && idoms[a] in s.order && s.order[a] < s.order[idoms[a]]
    ensures SameCommon(s, entry, a, b, idoms[a], b)
  {
    hide Completed;
    assert EntryExact(entry, s, idoms, a);
    OrderIsInjective(g, entry, s, a, b);
    EntryIsLast(g, entry, s, b);
    var d := idoms[a];
    forall c
      ensures CommonDominator(s, entry, c, a, b) <==> CommonDominator(s, entry, c, d, b)
    {
      if CommonDominator(s, entry, c, a, b) {
        DominatorIsHigher(g, entry, s, c, b);
        assert StrictlyDominates(s.succ, entry, c, a);
      }
      if CommonDominator(s, entry, c, d, b) {
        DominatesTransitive(s.succ, entry, c, d, a);
      }
    }
  }

  lemma EntryIsLast(g: Shape, entry: nat, s: State, b: nat)
    requires Completed(g, entry, s) && b in s.order
    ensures entry in s.order && s.order[b] <= s.order[entry] == |s.post|
  {}

  lemma CommonIsSymmetric(s: State, entry: nat, a: nat, b: nat, x: nat, y: nat)
    requires SameCommon(s, entry, a, b, x, y)
    ensures SameCommon(s, entry, b, a, y, x)
  {
    forall c ensures CommonDominator(s, entry, c, b, a) <==> CommonDominator(s, entry, c, y, x) {
      assert CommonDominator(s, entry, c, a, b) <==> CommonDominator(s, entry, c, x, y);
    }
  }

  lemma CommonIsTransitive(s: State, entry: nat, a: nat, b: nat, x: nat, y: nat, u: nat, v: nat)
    requires SameCommon(s, entry, a, b, x, y) && SameCommon(s, entry, x, y, u, v)
    ensures SameCommon(s, entry, a, b, u, v)
  {}

  lemma OrderIsInjective(g: Shape, entry: nat, s: State, a: nat, b: nat)
    requires Completed(g, entry, s) && a in s.order && b in s.order
    ensures 1 <= s.order[a] <= |s.post| && 1 <= s.order[b] <= |s.post|
    ensures a != b ==> s.order[a] != s.order[b]
  {
    hide NumbersReachable, EdgesExact, OnlyEntryUnpreceded;
  }

  lemma CommonIsReflexive(s: State, entry: nat, a: nat, b: nat)
    ensures SameCommon(s, entry, a, b, a, b)
  {}

  lemma CommonOfEqual(s: State, entry: nat, x: nat, a: nat, b: nat)
    requires SameCommon(s, entry, a, b, x, x)
    ensures IsCommonDominator(s, entry, x, a, b)
  {}

  // What has been gathered after the first n predecessors of a block: a block whose
  // dominators are the common dominators of those predecessors.
  ghost predicate Gathered(entry: nat, s: State, d: nat, edges: seq<nat>, n: nat)
    requires n <= |edges|
  {
    forall c :: Dominates(s.succ, entry, c, d) <==> forall i :: 0 <= i < n ==> Dominates(s.succ, entry, c, edges[i])
  }

  lemma GatherFirst(entry: nat, s: State, edges: seq<nat>)
    requires |edges| > 0
    ensures Gathered(entry, s, edges[0], edges, 1)
  {}

  lemma GatherNext(entry: nat, s: State, d: nat, edges: seq<nat>, n: nat, r: nat)
    requires n < |edges| && Gathered(entry, s, d, edges, n)
    requires IsCommonDominator(s, entry, r, d, edges[n])
    ensures Gathered(entry, s, r, edges, n + 1)
  {}

  // Gathering all predecessors of a block yields its immediate dominator.
  lemma GatheredIsImmediate(g: Shape, entry: nat, s: State, b: nat, d: nat)
    requires Completed(g, entry, s) && b in s.order && b != entry && b in s.pred && s.pred[b] != []
    requires Gathered(entry, s, d, s.pred[b], |s.pred[b]|)
    ensures forall idoms: Idoms :: b in idoms && idoms[b] == d ==> EntryExact(entry, s, idoms, b)
  {
    var edges := s.pred[b];
    forall c | c != b
      ensures Dominates(s.succ, entry, c, b) <==> Dominates(s.succ, entry, c, d)
    {
      DominatorEquation(s.succ, entry, c, b);
      forall q
        ensures Edge(s.succ, q, b) <==> q in edges
      {
        assert Edge(s.succ, q, b) <==> Edge(s.pred, b, q);
      }
    }
    SelfDominates(s.succ, entry, d);
    assert Dominates(s.succ, entry, d, edges[0]);
    assert Edge(s.pred, b, edges[0]) && Edge(s.succ, edges[0], b);
    DominatorIsHigher(g, entry, s, d, edges[0]);
  }

  // ---- Bookkeeping of the pass ----

  lemma EntryIsExact(g: Shape, entry: nat, s: State)
    requires Completed(g, entry, s)
    ensures entry in s.order && s.order[entry] == |s.post| > 0
    ensures EdgesOf(s.pred, entry) == []
    ensures ExactAbove(entry, s, map[entry := entry], |s.post| - 1)
  {
    if EdgesOf(s.pred, entry) != [] {
      assert Edge(s.pred, entry, s.pred[entry][0]);
    }
  }

  lemma HasPredecessors(g: Shape, entry: nat, s: State, b: nat)
    requires Completed(g, entry, s) && b in s.order && b != entry
    ensures b in s.pred && s.pred[b] != []
    ensures forall a :: a in s.pred[b] ==> a in s.order && s.order[a] > s.order[b]
  {
    var a :| Edge(s.succ, a, b);
    assert Edge(s.pred, b, a);
    forall x | x in s.pred[b] ensures x in s.order && s.order[x] > s.order[b] {
      assert Edge(s.pred, b, x) && Edge(s.succ, x, b);
    }
  }

  lemma BlockAt(g: Shape, entry: nat, s: State, i: nat)
    requires Completed(g, entry, s) && i < |s.post|
    ensures s.post[i] in s.order && s.order[s.post[i]] == i + 1
    ensures s.post[i] == entry <==> i == |s.post| - 1
    ensures forall b :: b in s.order && s.order[b] == i + 1 ==> b == s.post[i]
    ensures forall b :: b in s.order ==> 1 <= s.order[b] <= |s.post|
  {}

  lemma EmptyAddsNoEdge(pred: Graph, b: nat)
    requires b !in pred
    ensures forall x, y :: Edge(pred[b := []], x, y) <==> Edge(pred, x, y)
  {}

  lemma EmptyChangesNoList(pred: Graph, b: nat)
    requires b !in pred
    ensures forall t :: EdgesOf(pred[b := []], t) == EdgesOf(pred, t)
  {}

  lemma EmptyKeepsJoins(g: Shape, s: State, b: nat)
    requires MergesJoined(g, s) && b !in s.pred
    ensures MergesJoined(g, s.(pred := s.pred[b := []]))
  {
    hide Edge, EdgesOf;
    EmptyChangesNoList(s.pred, b);
  }

  // The look-up of a missing predecessor list leaves an empty one behind.
  lemma EmptyEntryKeeps(g: Shape, entry: nat, s: State, b: nat, idoms: Idoms, low: int)
    requires Completed(g, entry, s) && b !in s.pred && ExactAbove(entry, s, idoms, low)
    ensures Completed(g, entry, s.(pred := s.pred[b := []]))
    ensures ExactAbove(entry, s.(pred := s.pred[b := []]), idoms, low)
  {
    hide Edge, Dominates, IsImmediateDominator, Descends, Reaches, MergesJoined;
    var t := s.(pred := s.pred[b := []]);
    EmptyAddsNoEdge(s.pred, b);
    EmptyKeepsJoins(g, s, b);
    forall x | x in t.order && t.order[x] > low ensures EntryExact(entry, t, idoms, x) {
      assert EntryExact(entry, s, idoms, x);
    }
  }

  lemma UpdateKeeps(entry: nat, s: State, idoms: Idoms, low: int, b: nat, d: nat)
    requires ExactAbove(entry, s, idoms, low) && b in s.order && s.order[b] <= low
    ensures ExactAbove(entry, s, idoms[b := d], low)
  {
    var after := idoms[b := d];
    forall x | x in s.order && s.order[x] > low ensures EntryExact(entry, s, after, x) {
      assert EntryExact(entry, s, idoms, x);
    }
  }

  // The predecessors of a block have their immediate dominators already.
  lemma PredecessorIsDone(entry: nat, s: State, idoms: Idoms, b: nat, edge: nat)
    requires b in s.order && edge in s.order && s.order[edge] > s.order[b] && 0 !in s.order
    requires ExactAbove(entry, s, idoms, s.order[b])
    ensures edge in idoms && idoms[edge] != 0
  {
    assert EntryExact(entry, s, idoms, edge);
  }

  // The pass moves down by one block once that block's entry is right.
  lemma LowerByOne(g: Shape, entry: nat, s: State, idoms: Idoms, b: nat)
    requires Completed(g, entry, s) && b in s.order && ExactAbove(entry, s, idoms, s.order[b])
    requires EntryExact(entry, s, idoms, b)
    ensures ExactAbove(entry, s, idoms, s.order[b] - 1)
  {
    BlockAt(g, entry, s, s.order[b] - 1);
    forall x | x in s.order && s.order[x] > s.order[b] - 1 ensures EntryExact(entry, s, idoms, x) {
      if x != b {
        assert s.order[x] > s.order[b];
      }
    }
  }

  lemma FinishedPass(g: Shape, entry: nat, s: State, idoms: Idoms)
    requires Completed(g, entry, s) && ExactAbove(entry, s, idoms, 0)
    requires forall b :: b in idoms <==> b == entry || (b in s.order && s.order[b] > 0)
    ensures Exact(entry, s, idoms)
  {}

  // Two exact tables are the same table.
  lemma ExactIsUnique(g: Shape, entry: nat, s: State, x: Idoms, y: Idoms)
    requires Completed(g, entry, s) && Exact(entry, s, x) && Exact(entry, s, y)
    ensures x == y
  {
    forall b | b in s.order ensures x[b] == y[b] {
      SameEntry(g, entry, s, x, y, b);
    }
  }

  lemma SameEntry(g: Shape, entry: nat, s: State, x: Idoms, y: Idoms, b: nat)
    requires Completed(g, entry, s) && ExactAbove(entry, s, x, 0) && ExactAbove(entry, s, y, 0)
    requires b in s.order
    ensures b in x && b in y && x[b] == y[b]
  {
    assert s.order[b] > 0;
    assert EntryExact(entry, s, x, b) && EntryExact(entry, s, y, b);
    if b != entry {
      ImmediateIsUnique(g, entry, s, x[b], y[b], b);
    }
  }

  lemma SameDominators(g: Shape, entry: nat, s: State, a: nat, b: nat)
    requires Completed(g, entry, s) && a in s.order && b in s.order
    requires Dominates(s.succ, entry, a, b) && Dominates(s.succ, entry, b, a)
    ensures a == b
  {
    DominatorIsHigher(g, entry, s, a, b);
    DominatorIsHigher(g, entry, s, b, a);
  }

  lemma ImmediateIsUnique(g: Shape, entry: nat, s: State, x: nat, y: nat, b: nat)
    requires Completed(g, entry, s) && x in s.order && y in s.order
    requires IsImmediateDominator(s.succ, entry, x, b) && IsImmediateDominator(s.succ, entry, y, b)
    ensures x == y
  {
    SameDominators(g, entry, s, x, y);
  }
}
