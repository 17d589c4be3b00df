// The graph leaves out back edges. When do the dominators computed without them
// equal those of the graph that has them?
module Reducibility {
  import opened Blocks
  import opened Paths
  import opened Search
  import opened Dominators
  import opened ControlFlow

  ghost predicate IsSubgraph(r: Graph, f: Graph) {
    forall a, b :: Edge(r, a, b) ==> Edge(f, a, b)
  }

  // Following edges of f never leaves what r reaches.
  ghost predicate StaysReached(r: Graph, f: Graph, entry: nat) {
    forall a, b :: Edge(f, a, b) && Reaches(r, entry, a) ==> Reaches(r, entry, b)
  }

  ghost predicate SameDominance(r: Graph, f: Graph, entry: nat) {
    forall a, b :: Reaches(r, entry, b) ==> (Dominates(f, entry, a, b) <==> Dominates(r, entry, a, b))
  }

  // The edge from u to v closes no way around a strict dominator of v.
  ghost predicate Harmless(r: Graph, entry: nat, u: nat, v: nat) {
    forall a :: StrictlyDominates(r, entry, a, v) ==> Dominates(r, entry, a, u)
  }

  ghost predicate DroppedAreHarmless(r: Graph, f: Graph, entry: nat) {
    forall u, v :: Edge(f, u, v) && !Edge(r, u, v) && Reaches(r, entry, u) ==> Harmless(r, entry, u, v)
  }

  // Reducibility: every dropped edge returns to a block that dominates its source.
  ghost predicate DroppedReturnToDominators(r: Graph, f: Graph, entry: nat) {
    forall u, v :: Edge(f, u, v) && !Edge(r, u, v) && Reaches(r, entry, u) ==> Dominates(r, entry, v, u)
  }

  lemma {:induction false} SubgraphPath(r: Graph, f: Graph, p: seq<nat>)
    requires IsSubgraph(r, f) && IsPath(r, p)
    ensures IsPath(f, p)
    decreases |p|
  {
    if |p| > 1 {
      SubgraphPath(r, f, p[..|p| - 1]);
    }
  }

  lemma FewerEdgesMoreDominators(r: Graph, f: Graph, entry: nat, a: nat, b: nat)
    requires IsSubgraph(r, f) && Dominates(f, entry, a, b)
    ensures Dominates(r, entry, a, b)
  {
    forall p | PathBetween(r, entry, b, p) ensures a in p {
      SubgraphPath(r, f, p);
      assert PathBetween(f, entry, b, p);
    }
  }

  // Every path of the larger graph meets all dominators of its end in the smaller one.
  lemma {:induction false} PathMeetsDominators(r: Graph, f: Graph, entry: nat, p: seq<nat>)
    requires StaysReached(r, f, entry) && DroppedAreHarmless(r, f, entry)
    requires IsPath(f, p) && p[0] == entry
    ensures Reaches(r, entry, p[|p| - 1])
    ensures forall a :: Dominates(r, entry, a, p[|p| - 1]) ==> a in p
    decreases |p|
  {
    var v := p[|p| - 1];
    if v == entry {
      SingletonPath(r, entry);
      forall a | Dominates(r, entry, a, v) ensures a in p {
        EntryDominators(r, entry, a);
      }
    } else {
      var u, q := p[|p| - 2], p[..|p| - 1];
      PathMeetsDominators(r, f, entry, q);
      forall a | Dominates(r, entry, a, v) ensures a in p {
        if a != v {
          if Edge(r, u, v) {
            DominatorEquation(r, entry, a, v);
          } else {
            assert Harmless(r, entry, u, v) && StrictlyDominates(r, entry, a, v);
          }
          assert a in q;
        }
      }
    }
  }

  lemma HarmlessSuffices(r: Graph, f: Graph, entry: nat)
    requires IsSubgraph(r, f) && StaysReached(r, f, entry) && DroppedAreHarmless(r, f, entry)
    ensures SameDominance(r, f, entry)
  {
    forall a, b | Reaches(r, entry, b)
      ensures Dominates(f, entry, a, b) <==> Dominates(r, entry, a, b)
    {
      if Dominates(f, entry, a, b) {
        FewerEdgesMoreDominators(r, f, entry, a, b);
      }
      if Dominates(r, entry, a, b) {
        forall p | PathBetween(f, entry, b, p) ensures a in p {
          PathMeetsDominators(r, f, entry, p);
        }
      }
    }
  }

  lemma HarmlessIsNecessary(r: Graph, f: Graph, entry: nat)
    requires IsSubgraph(r, f) && StaysReached(r, f, entry) && SameDominance(r, f, entry)
    ensures DroppedAreHarmless(r, f, entry)
  {
    forall u, v, a | Edge(f, u, v) && !Edge(r, u, v) && Reaches(r, entry, u) && StrictlyDominates(r, entry, a, v)
      ensures Dominates(r, entry, a, u)
    {
      assert Dominates(f, entry, a, v);
      forall p | PathBetween(f, entry, u, p) ensures a in p {
        ExtendPath(f, entry, u, v, p);
        assert a in p + [v];
      }
    }
  }

  // ---- For a constructed graph ----

  // Recorded edges together with all terminator and loop-merge edges: the back edges
  // are put back.
  ghost function WithBackEdges(blocks: Program, s: State): Graph {
    map b | b in s.order && b in blocks ::
      EdgesOf(s.succ, b) + (LoopMerge(blocks[b]) + BranchTargets(blocks[b]))
  }

  // The same with all selection-merge edges too, also those the search leaves out.
  ghost function WithAllTargets(blocks: Program, s: State): Graph {
    map b | b in s.order && b in blocks :: EdgesOf(s.succ, b) + Targets(blocks[b])
  }

  lemma FullGraphContains(blocks: Program, entry: nat, s: State, f: Graph)
    requires WellFormed(blocks, entry) && Completed(ShapeOf(blocks, entry), entry, s)
    requires f == WithBackEdges(blocks, s) || f == WithAllTargets(blocks, s)
    ensures IsSubgraph(s.succ, f)
    ensures forall a, b :: Edge(f, a, b) ==> Edge(s.succ, a, b) || Edge(ShapeOf(blocks, entry).walk, a, b)
  {
    hide Completed, WellFormed;
    NumberedAreBlocks(blocks, entry, s);
    forall a, b | Edge(s.succ, a, b) ensures Edge(f, a, b) {
      EdgeIsNumbered(ShapeOf(blocks, entry), entry, s, a, b);
    }
  }

  lemma EdgeIsNumbered(g: Shape, entry: nat, s: State, a: nat, b: nat)
    requires Completed(g, entry, s) && Edge(s.succ, a, b)
    ensures a in s.order && b in s.order
  {
    hide NumbersReachable, OrdersInverse, OnlyEntryUnpreceded, MergesJoined;
  }

  // Whatever can be followed from a reached block leads to a reached block.
  lemma TargetsStayReached(g: Shape, entry: nat, s: State, a: nat, b: nat)
    requires Completed(g, entry, s) && Reaches(s.succ, entry, a) && Edge(g.walk, a, b)
    ensures Reaches(s.succ, entry, b)
  {
    hide OrdersInverse, OnlyEntryUnpreceded, MergesJoined;
    RecordedReachIsReach(g, entry, s, a);
    ExtendReach(g.walk, entry, a, b);
    ReachedByEdges(g, entry, s, b);
  }

  lemma RecordedReachIsReach(g: Shape, entry: nat, s: State, a: nat)
    requires Completed(g, entry, s) && Reaches(s.succ, entry, a)
    ensures Reaches(g.walk, entry, a)
  {
    hide NumbersReachable, OrdersInverse, OnlyEntryUnpreceded, MergesJoined;
    var p :| PathBetween(s.succ, entry, a, p);
    SubgraphPath(s.succ, g.walk, p);
    assert PathBetween(g.walk, entry, a, p);
  }

  lemma FullGraphFits(blocks: Program, entry: nat, s: State, f: Graph)
    requires WellFormed(blocks, entry) && Completed(ShapeOf(blocks, entry), entry, s)
    requires f == WithBackEdges(blocks, s) || f == WithAllTargets(blocks, s)
    ensures IsSubgraph(s.succ, f) && StaysReached(s.succ, f, entry)
  {
    hide Completed, WellFormed, ShapeOf, WithBackEdges, WithAllTargets, Edge, Reaches;
    FullGraphContains(blocks, entry, s, f);
    forall a, b | Edge(f, a, b) && Reaches(s.succ, entry, a) ensures Reaches(s.succ, entry, b) {
      if Edge(s.succ, a, b) {
        ExtendReach(s.succ, entry, a, b);
      } else {
        TargetsStayReached(ShapeOf(blocks, entry), entry, s, a, b);
      }
    }
  }

  // The dominators computed without back edges are those of the full graph if and only
  // if every edge left out is harmless.
  lemma DominatorsExactIff(blocks: Program, entry: nat, s: State, f: Graph)
    requires WellFormed(blocks, entry) && Completed(ShapeOf(blocks, entry), entry, s)
    requires f == WithBackEdges(blocks, s) || f == WithAllTargets(blocks, s)
    ensures SameDominance(s.succ, f, entry) <==> DroppedAreHarmless(s.succ, f, entry)
  {
    FullGraphFits(blocks, entry, s, f);
    if SameDominance(s.succ, f, entry) {
      HarmlessIsNecessary(s.succ, f, entry);
    }
    if DroppedAreHarmless(s.succ, f, entry) {
      HarmlessSuffices(s.succ, f, entry);
    }
  }

  // In particular they are for a reducible function, and then the table holds the
  // immediate dominators of the full graph.
  lemma ReducibleIsExact(blocks: Program, entry: nat, s: State, f: Graph, idoms: Idoms, b: nat)
    requires WellFormed(blocks, entry) && Completed(ShapeOf(blocks, entry), entry, s)
    requires f == WithBackEdges(blocks, s) || f == WithAllTargets(blocks, s)
    requires DroppedReturnToDominators(s.succ, f, entry)
    requires Exact(entry, s, idoms) && b in s.order && b != entry
    ensures SameDominance(s.succ, f, entry)
    ensures IsImmediateDominator(f, entry, idoms[b], b)
  {
    var g := ShapeOf(blocks, entry);
    hide Completed, ShapeOf, WellFormed, WithBackEdges, WithAllTargets;
    forall u, v, a | Edge(f, u, v) && !Edge(s.succ, u, v) && Reaches(s.succ, entry, u)
        && StrictlyDominates(s.succ, entry, a, v)
      ensures Dominates(s.succ, entry, a, u)
    {
      DominatesTransitive(s.succ, entry, a, v, u);
    }
    DominatorsExactIff(blocks, entry, s, f);
    OrdersArePositive(g, entry, s, b);
    assert EntryExact(entry, s, idoms, b);
    ReachedByEdges(g, entry, s, b);
    ReachedByEdges(g, entry, s, idoms[b]);
  }

  lemma OrdersArePositive(g: Shape, entry: nat, s: State, b: nat)
    requires Completed(g, entry, s) && b in s.order
    ensures s.order[b] > 0
  {}
}
