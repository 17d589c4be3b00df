// Does control flow come back together between two blocks?
module SubGraphs {
  import opened Sets
  import opened Blocks
  import opened Paths
  import opened Search
  import opened Dominators
  import opened ControlFlow
  import opened StraightLine
  import opened DominatorBuilders

  // The block whose reaching counts as having left the construct headed by `from`.
  ghost function IgnoredBlock(b: Block): nat {
    if b.merge == MergeLoop then b.mergeBlock else 0
  }

  ghost predicate Ignores(blocks: Program, ignored: nat, arm: nat) {
    ignored != 0 && OnChain(blocks, arm, ignored)
  }

  // Control flow between the dominator d and the block `to` is a merge, a plain branch,
  // or a branch whose other arm leaves the enclosing loop.
  ghost predicate Rejoins(blocks: Program, ignored: nat, d: nat, to: nat) {
    d in blocks && (
      var b := blocks[d];
      || (b.merge == MergeSelection && b.nextBlock == to)
      || (b.merge == MergeLoop && b.mergeBlock == to)
      || (b.terminator == Direct && b.nextBlock == to)
      || (b.terminator == Select && b.trueBlock == to && Ignores(blocks, ignored, b.falseBlock))
      || (b.terminator == Select && b.falseBlock == to && Ignores(blocks, ignored, b.trueBlock)))
  }

  // n steps up the dominator tree lead from `to` to `from`, each of which rejoins.
  ghost predicate ClimbsTo(blocks: Program, idoms: Idoms, entry: nat, from: nat, to: nat, n: nat)
    requires from in blocks
    decreases n
  {
    if to == from then n == 0
    else
      && n > 0 && to in idoms && to != entry
      && Rejoins(blocks, IgnoredBlock(blocks[from]), idoms[to], to)
      && ClimbsTo(blocks, idoms, entry, from, idoms[to], n - 1)
  }

  // Climbing only visits dominators.
  lemma {:induction false} ClimbDominates(blocks: Program, g: Shape, entry: nat, s: State, idoms: Idoms, from: nat,
      to: nat, n: nat)
    requires Completed(g, entry, s) && Exact(entry, s, idoms)
    requires from in blocks && ClimbsTo(blocks, idoms, entry, from, to, n)
    ensures Dominates(s.succ, entry, from, to)
    decreases n
  {
    hide Completed, Rejoins;
    SelfDominates(s.succ, entry, to);
    if to != from {
      OrderIsInjective(g, entry, s, to, to);
      assert EntryExact(entry, s, idoms, to);
      ClimbDominates(blocks, g, entry, s, idoms, from, idoms[to], n - 1);
      DominatesTransitive(s.succ, entry, from, idoms[to], to);
    }
  }

  // The blocks that dominate what a builder holds are those that dominate all it was fed.
  lemma FedAreGathered(entry: nat, s: State, edges: seq<nat>, d: nat)
    requires edges != [] && forall x :: x in edges ==> x in s.order
    requires IsDominatorOf(entry, s, d, Elements(edges))
    ensures d in s.order && Gathered(entry, s, d, edges, |edges|)
  {
    hide Dominates;
    assert edges[0] in Known(s, Elements(edges));
    assert forall x :: x in Known(s, Elements(edges)) <==> x in edges;
  }

  lemma NothingToFeed(g: Shape, entry: nat, s: State, b: nat)
    requires Completed(g, entry, s) && b in s.pred && (b !in s.order || b == entry)
    ensures Known(s, Elements(s.pred[b])) == {}
  {
    forall x ensures x !in s.pred[b] {
      assert Edge(s.succ, x, b) <==> Edge(s.pred, b, x);
    }
  }

  // Feeding all predecessors of a block to a builder gives its immediate dominator.
  lemma PredecessorsGiveImmediate(g: Shape, entry: nat, s: State, idoms: Idoms, b: nat, fed: set<nat>, d: nat)
    requires Completed(g, entry, s) && Exact(entry, s, idoms) && 0 !in s.order
    requires b in s.pred && fed == Elements(s.pred[b])
    requires IsDominatorOf(entry, s, d, fed)
    ensures b in s.order && b != entry ==> d == idoms[b] && d in s.order && s.order[d] > s.order[b]
    ensures b !in s.order || b == entry ==> d == 0
  {
    hide Completed, Gathered, IsDominatorOf, Dominates;
    if b in s.order && b != entry {
      HasPredecessors(g, entry, s, b);
      OrderIsInjective(g, entry, s, b, b);
      assert EntryExact(entry, s, idoms, b);
      FedAreGathered(entry, s, s.pred[b], d);
      GatheredIsImmediate(g, entry, s, b, d);
      assert EntryExact(entry, s, idoms[b := d], b);
      ImmediateIsUnique(g, entry, s, idoms[b], d, b);
    } else {
      NothingToFeed(g, entry, s, b);
      DominatorIsZeroIff(entry, s, d, fed);
    }
  }

  // A climb from `to` goes through `at` after the given number of steps.
  ghost predicate Climbed(blocks: Program, idoms: Idoms, entry: nat, from: nat, to: nat, at: nat, steps: nat)
    requires from in blocks
  {
    && (forall n: nat :: ClimbsTo(blocks, idoms, entry, from, at, n) ==>
          ClimbsTo(blocks, idoms, entry, from, to, n + steps))
    && (forall n: nat :: ClimbsTo(blocks, idoms, entry, from, to, n) ==>
          n >= steps && ClimbsTo(blocks, idoms, entry, from, at, n - steps))
  }

  lemma ClimbStarts(blocks: Program, idoms: Idoms, entry: nat, from: nat, to: nat)
    requires from in blocks
    ensures Climbed(blocks, idoms, entry, from, to, to, 0)
  {}

  lemma ClimbGoesOn(blocks: Program, idoms: Idoms, entry: nat, from: nat, to: nat, at: nat, steps: nat, d: nat)
    requires from in blocks && Climbed(blocks, idoms, entry, from, to, at, steps)
    requires forall n: nat :: ClimbsTo(blocks, idoms, entry, from, at, n) <==>
                 n > 0 && ClimbsTo(blocks, idoms, entry, from, d, n - 1)
    ensures Climbed(blocks, idoms, entry, from, to, d, steps + 1)
  {
    hide ClimbsTo;
    forall n: nat | ClimbsTo(blocks, idoms, entry, from, d, n)
      ensures ClimbsTo(blocks, idoms, entry, from, to, n + steps + 1)
    {
      assert ClimbsTo(blocks, idoms, entry, from, at, n + 1);
    }
  }

  lemma ClimbFails(blocks: Program, idoms: Idoms, entry: nat, from: nat, to: nat, at: nat, steps: nat)
    requires from in blocks && Climbed(blocks, idoms, entry, from, to, at, steps)
    requires forall n: nat :: !ClimbsTo(blocks, idoms, entry, from, at, n)
    ensures forall n: nat :: !ClimbsTo(blocks, idoms, entry, from, to, n)
  {
    hide ClimbsTo;
  }

  lemma ClimbArrives(blocks: Program, idoms: Idoms, entry: nat, from: nat, to: nat, steps: nat)
    requires from in blocks && Climbed(blocks, idoms, entry, from, to, from, steps)
    ensures ClimbsTo(blocks, idoms, entry, from, to, steps)
  {
    assert ClimbsTo(blocks, idoms, entry, from, from, 0);
  }

  // True iff the climb from `to` reaches `from`; in particular `from` dominates `to`.
  method NodeTerminatesControlFlow(cfg: Cfg, from: nat, to: nat) returns (r: bool)
    requires cfg.Valid() && from in cfg.blocks
    requires BranchesResolve(cfg.blocks) && NoBareCycle(cfg.blocks)
    ensures r <==> exists n: nat :: ClimbsTo(cfg.blocks, cfg.immediateDominators, cfg.entry, from, to, n)
    ensures r ==> Dominates(cfg.succeedingEdges, cfg.entry, from, to)
  {
    hide Completed, Exact, WellFormed, ShapeOf, NoBareCycle, BranchesResolve, ClimbsTo, Climbed, Dominates;
    ghost var s, idoms := cfg.SearchState(), cfg.immediateDominators;
    var ignored := 0;
    if cfg.blocks[from].merge == MergeLoop {
      ignored := cfg.blocks[from].mergeBlock;
    }
    IgnoredIsBlock(cfg.blocks, cfg.entry, from);
    ClimbStarts(cfg.blocks, idoms, cfg.entry, from, to);
    var at := to;
    ghost var steps: nat := 0;
    while at != from
      invariant Climbed(cfg.blocks, idoms, cfg.entry, from, to, at, steps)
      decreases |cfg.postOrder| - (if at in cfg.visitOrder then cfg.visitOrder[at] else 0)
    {
      var dominator := ClimbStep(cfg, from, ignored, at);
      if dominator == 0 {
        ClimbFails(cfg.blocks, idoms, cfg.entry, from, to, at, steps);
        return false;
      }
      ClimbGoesOn(cfg.blocks, idoms, cfg.entry, from, to, at, steps, dominator);
      at := dominator;
      steps := steps + 1;
    }
    ClimbArrives(cfg.blocks, idoms, cfg.entry, from, to, steps);
    ClimbDominates(cfg.blocks, cfg.GraphShape(), cfg.entry, s, idoms, from, to, steps);
    return true;
  }

  // One round of the loop: the dominator of all predecessors, or 0 if the answer is no.
  method ClimbStep(cfg: Cfg, from: nat, ignored: nat, at: nat) returns (d: nat)
    requires cfg.Valid() && from in cfg.blocks && at != from
    requires BranchesResolve(cfg.blocks) && NoBareCycle(cfg.blocks)
    requires ignored == IgnoredBlock(cfg.blocks[from]) && (ignored != 0 ==> ignored in cfg.blocks)
    ensures d == 0 ==> forall n: nat :: !ClimbsTo(cfg.blocks, cfg.immediateDominators, cfg.entry, from, at, n)
    ensures d != 0 ==>
              && at in cfg.visitOrder && d in cfg.visitOrder
              && cfg.visitOrder[at] < cfg.visitOrder[d] <= |cfg.postOrder|
    ensures d != 0 ==> forall n: nat ::
              ClimbsTo(cfg.blocks, cfg.immediateDominators, cfg.entry, from, at, n) <==>
              n > 0 && ClimbsTo(cfg.blocks, cfg.immediateDominators, cfg.entry, from, d, n - 1)
  {
    hide Completed, Exact, WellFormed, ShapeOf, NoBareCycle, BranchesResolve, Rejoins, IsDominatorOf, IgnoredBlock;
    ghost var s, idoms := cfg.SearchState(), cfg.immediateDominators;
    NumberedAreBlocks(cfg.blocks, cfg.entry, s);
    ImmediateIsKnown(cfg.GraphShape(), cfg.entry, s, idoms);
    if at !in cfg.precedingEdges {
      NoPredecessorNoClimb(cfg.blocks, cfg.GraphShape(), cfg.entry, s, idoms, from, at);
      return 0;
    }
    d := DominatorOfAll(cfg, cfg.precedingEdges[at]);
    PredecessorsGiveImmediate(cfg.GraphShape(), cfg.entry, s, idoms, at, Elements(cfg.precedingEdges[at]), d);
    if d == 0 {
      return 0;
    }
    OrderIsInjective(cfg.GraphShape(), cfg.entry, s, d, d);
    var rejoins := CheckRejoins(cfg.blocks, cfg.entry, ignored, d, at);
    if !rejoins {
      return 0;
    }
  }

  // A fresh builder fed with a list of blocks.
  method DominatorOfAll(cfg: Cfg, blocks: seq<nat>) returns (d: nat)
    requires cfg.Valid()
    ensures IsDominatorOf(cfg.entry, cfg.SearchState(), d, Elements(blocks))
  {
    hide Completed, Exact, WellFormed, ShapeOf, IsDominatorOf;
    var builder := new DominatorBuilder(cfg);
    assert builder.fed == Elements(blocks[..0]);
    for i := 0 to |blocks|
      invariant builder.Valid() && builder.cfg == cfg && fresh(builder)
      invariant builder.fed == Elements(blocks[..i])
    {
      builder.AddBlock(blocks[i]);
      assert blocks[..i + 1] == blocks[..i] + [blocks[i]];
    }
    assert blocks[..|blocks|] == blocks;
    d := builder.dominator;
  }

  method CheckRejoins(blocks: Program, entry: nat, ignored: nat, d: nat, to: nat) returns (r: bool)
    requires WellFormed(blocks, entry) && BranchesResolve(blocks) && NoBareCycle(blocks)
    requires d in blocks && (ignored != 0 ==> ignored in blocks)
    ensures r <==> Rejoins(blocks, ignored, d, to)
  {
    hide NoBareCycle, WellFormed, OnChain;
    SelectTargetsAreBlocks(blocks, entry, d);
    var b := blocks[d];
    var trueIgnored, falseIgnored := false, false;
    if ignored != 0 && b.terminator == Select {
      EveryChainEnds(blocks, b.trueBlock, ignored);
      EveryChainEnds(blocks, b.falseBlock, ignored);
      trueIgnored := ExecutionIsBranchless(blocks, b.trueBlock, ignored);
      falseIgnored := ExecutionIsBranchless(blocks, b.falseBlock, ignored);
    }
    r := (b.merge == MergeSelection && b.nextBlock == to)
         || (b.merge == MergeLoop && b.mergeBlock == to)
         || (b.terminator == Direct && b.nextBlock == to)
         || (b.terminator == Select && b.trueBlock == to && falseIgnored)
         || (b.terminator == Select && b.falseBlock == to && trueIgnored);
  }

  lemma SelectTargetsAreBlocks(blocks: Program, entry: nat, d: nat)
    requires WellFormed(blocks, entry) && d in blocks
    ensures blocks[d].terminator == Select ==> blocks[d].trueBlock in blocks && blocks[d].falseBlock in blocks
  {}

  lemma IgnoredIsBlock(blocks: Program, entry: nat, from: nat)
    requires WellFormed(blocks, entry) && from in blocks
    ensures IgnoredBlock(blocks[from]) != 0 ==> IgnoredBlock(blocks[from]) in blocks
  {}

  lemma NoPredecessorNoClimb(blocks: Program, g: Shape, entry: nat, s: State, idoms: Idoms, from: nat, at: nat)
    requires Completed(g, entry, s) && Exact(entry, s, idoms)
    requires from in blocks && at != from && at !in s.pred
    ensures forall n: nat :: !ClimbsTo(blocks, idoms, entry, from, at, n)
  {}
}
