// Which pointer parameters must keep the caller's value.
module Preservation {
  import opened Arithmetic
  import opened Paths
  import opened Search
  import opened ControlFlow
  import opened Blocks
  import opened Dominators

  // ---- Is there a way to the end of the function that avoids some blocks? ----

  ghost predicate PositiveRanks(rank: map<nat, int>) {
    forall b :: b in rank ==> rank[b] > 0
  }

  // The recursion goes down the numbering, so it ends.
  predicate ExistsUnaccessedPath(succ: Graph, rank: map<nat, int>, block: nat, blocks: set<nat>)
    requires Descends(succ, rank) && PositiveRanks(rank)
    decreases if block in rank then rank[block] else 0
  {
    if block in blocks then false
    else if EdgesOf(succ, block) == [] then true
    else exists i :: 0 <= i < |EdgesOf(succ, block)| &&
           (assert Edge(succ, block, EdgesOf(succ, block)[i]);
            ExistsUnaccessedPath(succ, rank, EdgesOf(succ, block)[i], blocks))
  }

  // A path from a to a block with no successors, none of whose blocks is in `avoid`.
  ghost predicate AvoidingPath(succ: Graph, a: nat, avoid: set<nat>, p: seq<nat>) {
    && IsPath(succ, p) && p[0] == a
    && EdgesOf(succ, p[|p| - 1]) == []
    && forall x :: x in p ==> x !in avoid
  }

  lemma {:induction false} UnaccessedPathFound(succ: Graph, rank: map<nat, int>, a: nat, avoid: set<nat>)
      returns (p: seq<nat>)
    requires Descends(succ, rank) && PositiveRanks(rank)
    requires ExistsUnaccessedPath(succ, rank, a, avoid)
    ensures AvoidingPath(succ, a, avoid, p)
    decreases if a in rank then rank[a] else 0
  {
    SingletonPath(succ, a);
    if EdgesOf(succ, a) == [] {
      return [a];
    }
    var i :| 0 <= i < |EdgesOf(succ, a)| && ExistsUnaccessedPath(succ, rank, EdgesOf(succ, a)[i], avoid);
    var b := EdgesOf(succ, a)[i];
    assert Edge(succ, a, b);
    var q := UnaccessedPathFound(succ, rank, b, avoid);
    ExtendPath(succ, a, a, b, [a]);
    JoinPaths(succ, a, b, q[|q| - 1], [a] + [b], q);
    p := [a] + [b] + q[1..];
    assert [a] + [b] + q[1..] == [a] + q;
  }

  lemma {:induction false} UnaccessedPathExists(succ: Graph, rank: map<nat, int>, a: nat, avoid: set<nat>, p: seq<nat>)
    requires Descends(succ, rank) && PositiveRanks(rank)
    requires AvoidingPath(succ, a, avoid, p)
    ensures ExistsUnaccessedPath(succ, rank, a, avoid)
    decreases |p|
  {
    assert a in p;
    if |p| > 1 {
      PathEdge(succ, p, 0);
      SuffixIsPath(succ, p, 1);
      UnaccessedPathExists(succ, rank, p[1], avoid, p[1..]);
      var i :| 0 <= i < |EdgesOf(succ, a)| && EdgesOf(succ, a)[i] == p[1];
      assert ExistsUnaccessedPath(succ, rank, EdgesOf(succ, a)[i], avoid);
    }
  }

  // The test is exact.
  lemma UnaccessedPathIff(succ: Graph, rank: map<nat, int>, a: nat, avoid: set<nat>)
    requires Descends(succ, rank) && PositiveRanks(rank)
    ensures ExistsUnaccessedPath(succ, rank, a, avoid) <==> exists p :: AvoidingPath(succ, a, avoid, p)
  {
    if ExistsUnaccessedPath(succ, rank, a, avoid) {
      var p := UnaccessedPathFound(succ, rank, a, avoid);
    }
    if p :| AvoidingPath(succ, a, avoid, p) {
      UnaccessedPathExists(succ, rank, a, avoid, p);
    }
  }

  // With nothing to avoid there is always a way out.
  lemma {:induction false} SomeWayOut(succ: Graph, rank: map<nat, int>, a: nat)
    requires Descends(succ, rank) && PositiveRanks(rank)
    ensures ExistsUnaccessedPath(succ, rank, a, {})
    decreases if a in rank then rank[a] else 0
  {
    if EdgesOf(succ, a) != [] {
      assert Edge(succ, a, EdgesOf(succ, a)[0]);
      SomeWayOut(succ, rank, EdgesOf(succ, a)[0]);
    }
  }

  // ---- The parameters of a function ----

  datatype Parameter = Parameter(id: nat, pointer: bool, opaqueType: bool, readCount: nat)

  ghost function CompleteWriters(completeWriteBlocks: map<nat, set<nat>>, id: nat): set<nat> {
    if id in completeWriteBlocks then completeWriteBlocks[id] else {}
  }

  // An accessed, non-opaque pointer that some run through the graph, from the entry to
  // an exit, never writes completely.
  ghost predicate MayKeepValue(succ: Graph, entry: nat, p: Parameter,
      accessed: map<nat, set<nat>>, complete: map<nat, set<nat>>)
  {
    && p.pointer && !p.opaqueType && p.id in accessed
    && exists path :: AvoidingPath(succ, entry, CompleteWriters(complete, p.id), path)
  }

  lemma GraphRanks(cfg: Cfg)
    requires cfg.Valid()
    ensures Descends(cfg.succeedingEdges, cfg.visitOrder) && PositiveRanks(cfg.visitOrder)
  {}

  lemma KeepIff(succ: Graph, rank: map<nat, int>, entry: nat, p: Parameter, accessed: map<nat, set<nat>>,
      complete: map<nat, set<nat>>)
    requires Descends(succ, rank) && PositiveRanks(rank)
    ensures MayKeepValue(succ, entry, p, accessed, complete) <==>
              p.pointer && !p.opaqueType && p.id in accessed
              && (p.id in complete ==> ExistsUnaccessedPath(succ, rank, entry, complete[p.id]))
  {
    UnaccessedPathIff(succ, rank, entry, CompleteWriters(complete, p.id));
    SomeWayOut(succ, rank, entry);
  }

  // Exactly the parameters that may keep their value get one more read.
  method AnalyzeParameterPreservation(cfg: Cfg, arguments: array<Parameter>,
      variableToBlocks: map<nat, set<nat>>, completeWriteBlocks: map<nat, set<nat>>)
    requires cfg.Valid()
    modifies arguments
    ensures forall i :: 0 <= i < arguments.Length ==>
              && arguments[i].id == old(arguments[i]).id
              && arguments[i].pointer == old(arguments[i]).pointer
              && arguments[i].opaqueType == old(arguments[i]).opaqueType
    ensures forall i :: 0 <= i < arguments.Length ==>
              arguments[i].readCount ==
              var p := old(arguments[i]);
              if MayKeepValue(cfg.succeedingEdges, cfg.entry, p, variableToBlocks, completeWriteBlocks)
              then (p.readCount + 1) % UINT_LIMIT else p.readCount
  {
    hide MayKeepValue, AvoidingPath, WellFormed, Completed, Exact, ExistsUnaccessedPath, Descends, PositiveRanks;
    GraphRanks(cfg);
    ghost var succ, entry := cfg.succeedingEdges, cfg.entry;
    for i := 0 to arguments.Length
      invariant forall j :: i <= j < arguments.Length ==> arguments[j] == old(arguments[j])
      invariant forall j :: 0 <= j < i ==>
                  arguments[j] ==
                  var p := old(arguments[j]);
                  if MayKeepValue(succ, entry, p, variableToBlocks, completeWriteBlocks)
                  then p.(readCount := (p.readCount + 1) % UINT_LIMIT) else p
    {
      var arg := arguments[i];
      KeepIff(succ, cfg.visitOrder, entry, arg, variableToBlocks, completeWriteBlocks);
      if !arg.pointer || arg.opaqueType || arg.id !in variableToBlocks {
        continue;
      }
      if arg.id !in completeWriteBlocks {
        arguments[i] := arg.(readCount := (arg.readCount + 1) % UINT_LIMIT);
        continue;
      }
      if ExistsUnaccessedPath(cfg.succeedingEdges, cfg.visitOrder, cfg.entry, completeWriteBlocks[arg.id]) {
        arguments[i] := arg.(readCount := (arg.readCount + 1) % UINT_LIMIT);
      }
    }
  }
}
