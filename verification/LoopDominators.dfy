// Walking back from a block to the header of the loop it may be in.
module LoopDominators {
  import opened Blocks
  import opened Paths
  import opened Search
  import opened Dominators
  import opened ControlFlow

  // From the header a recorded path leads into the loop and on to the block: its first
  // step is not the implied branch to the loop's own merge block.
  ghost predicate EntersLoop(blocks: Program, succ: Graph, header: nat, block: nat, p: seq<nat>) {
    && header in blocks && blocks[header].merge == MergeLoop
    && PathBetween(succ, header, block, p) && |p| > 1 && p[1] != blocks[header].mergeBlock
  }

  ghost predicate HeadsLoop(b: Block, merge: nat) {
    b.merge == MergeLoop && b.mergeBlock == merge
  }

  ghost predicate HeadsSelection(b: Block, merge: nat) {
    b.merge == MergeSelection && b.nextBlock == merge
  }

  // The predecessor the walk goes to: the first header whose merge block this is, else
  // the first predecessor.
  ghost predicate IsChosen(blocks: Program, preds: seq<nat>, block: nat, r: nat)
    requires forall p :: p in preds ==> p in blocks
  {
    exists k :: 0 <= k < |preds| && preds[k] == r && (Heads(blocks[r], block) || k == 0)
      && forall j :: 0 <= j < (if Heads(blocks[r], block) then k else |preds|) ==> !Heads(blocks[preds[j]], block)
  }

  ghost predicate Heads(b: Block, merge: nat) {
    HeadsLoop(b, merge) || HeadsSelection(b, merge)
  }

  method ChoosePredecessor(blocks: Program, preds: seq<nat>, block: nat) returns (r: nat, ignoreLoopHeader: bool)
    requires preds != [] && forall p :: p in preds ==> p in blocks && p != NO_DOMINATOR
    ensures r in preds && IsChosen(blocks, preds, block, r)
    ensures ignoreLoopHeader <==> HeadsLoop(blocks[r], block)
  {
    r, ignoreLoopHeader := NO_DOMINATOR, false;
    for i := 0 to |preds|
      invariant r == NO_DOMINATOR && !ignoreLoopHeader
      invariant forall j :: 0 <= j < i ==> !Heads(blocks[preds[j]], block)
    {
      var pred := blocks[preds[i]];
      if pred.merge == MergeLoop && pred.mergeBlock == block {
        r, ignoreLoopHeader := preds[i], true;
        break;
      } else if pred.merge == MergeSelection && pred.nextBlock == block {
        r := preds[i];
        break;
      }
    }
    if r == NO_DOMINATOR {
      r := preds[0];
    }
  }

  // The walk stops at a loop header that it does not reach from its own merge block.
  ghost predicate Stops(blocks: Program, a: nat, b: nat)
    requires a in blocks
  {
    blocks[a].merge == MergeLoop && !HeadsLoop(blocks[a], b)
  }

  // A backward walk, listed from where it has come to: every step goes to the chosen
  // predecessor, and it has not stopped before its first block.
  ghost predicate WalksBack(blocks: Program, pred: Graph, p: seq<nat>)
    requires forall b, a :: a in EdgesOf(pred, b) ==> a in blocks
  {
    && |p| > 0
    && (forall i :: 0 <= i < |p| - 1 ==> IsChosen(blocks, EdgesOf(pred, p[i + 1]), p[i + 1], p[i]))
    && (forall i :: 0 < i < |p| - 1 ==> !Stops(blocks, p[i], p[i + 1]))
  }

  // Where the walk from a block ends: at the header it stops at, or without one at a
  // block that has no predecessor.
  ghost predicate EndsAt(blocks: Program, pred: Graph, p: seq<nat>, r: nat)
    requires forall b, a :: a in EdgesOf(pred, b) ==> a in blocks
    requires WalksBack(blocks, pred, p)
  {
    if |p| > 1 && Stops(blocks, p[0], p[1]) then r == p[0]
    else r == NO_DOMINATOR && EdgesOf(pred, p[0]) == []
  }

  // The walk ends, with the header it stops at or with none; and from a header found a
  // recorded path leads into its loop and on to the block.
  method FindLoopDominator(cfg: Cfg, block: nat) returns (r: nat)
    requires cfg.Valid() && forall b :: b in cfg.blocks ==> b < NO_DOMINATOR
    ensures forall b, a :: a in EdgesOf(cfg.precedingEdges, b) ==> a in cfg.blocks
    ensures exists p :: WalksBack(cfg.blocks, cfg.precedingEdges, p) && p[|p| - 1] == block
              && EndsAt(cfg.blocks, cfg.precedingEdges, p, r)
    ensures r != NO_DOMINATOR ==>
              r in cfg.visitOrder && exists p :: EntersLoop(cfg.blocks, cfg.succeedingEdges, r, block, p)
  {
    hide Completed, Exact, WellFormed, ShapeOf, IsPath, IsChosen, Stops;
    ghost var s := cfg.SearchState();
    NumberedAreBlocks(cfg.blocks, cfg.entry, s);
    forall b, a | a in EdgesOf(s.pred, b) ensures a in cfg.blocks {
      PredecessorsRise(cfg.GraphShape(), cfg.entry, s, b);
    }
    var at := block;
    ghost var p := [block];
    SingletonPath(s.succ, block);
    PredecessorsRise(cfg.GraphShape(), cfg.entry, s, NO_DOMINATOR);
    while at != NO_DOMINATOR
      invariant |p| > 0 && p[0] == at && p[|p| - 1] == block && PathBetween(s.succ, at, block, p)
      invariant WalksBack(cfg.blocks, s.pred, p) && (|p| > 1 ==> at in cfg.blocks && !Stops(cfg.blocks, at, p[1]))
      decreases |cfg.postOrder| - (if at in cfg.visitOrder then cfg.visitOrder[at] else 0)
    {
      var pred := EdgesOf(cfg.precedingEdges, at);
      if pred == [] {
        return NO_DOMINATOR;
      }
      PredecessorsRise(cfg.GraphShape(), cfg.entry, s, at);
      var chosen, ignoreLoopHeader := ChoosePredecessor(cfg.blocks, pred, at);
      PrependPath(s.succ, chosen, at, block, p);
      StepBack(cfg.blocks, s.pred, p, chosen);
      p := [chosen] + p;
      at := chosen;
      if !ignoreLoopHeader && at != 0 && cfg.blocks[at].merge == MergeLoop {
        StopsHere(cfg.blocks, s.succ, s.pred, p, block);
        return at;
      }
      GoesOn(cfg.blocks, at, p[1]);
    }
    return at;
  }

  lemma StepBack(blocks: Program, pred: Graph, p: seq<nat>, a: nat)
    requires forall b, x :: x in EdgesOf(pred, b) ==> x in blocks
    requires WalksBack(blocks, pred, p) && (|p| > 1 ==> !Stops(blocks, p[0], p[1]))
    requires IsChosen(blocks, EdgesOf(pred, p[0]), p[0], a)
    ensures WalksBack(blocks, pred, [a] + p)
  {
    hide IsChosen, Stops;
  }

  lemma StopsHere(blocks: Program, succ: Graph, pred: Graph, p: seq<nat>, block: nat)
    requires forall b, x :: x in EdgesOf(pred, b) ==> x in blocks
    requires WalksBack(blocks, pred, p) && |p| > 1 && PathBetween(succ, p[0], block, p)
    requires p[0] in blocks && blocks[p[0]].merge == MergeLoop && !HeadsLoop(blocks[p[0]], p[1])
    ensures EndsAt(blocks, pred, p, p[0]) && EntersLoop(blocks, succ, p[0], block, p)
  {}

  lemma GoesOn(blocks: Program, a: nat, b: nat)
    requires a in blocks && (HeadsLoop(blocks[a], b) || blocks[a].merge != MergeLoop)
    ensures !Stops(blocks, a, b)
  {}

  lemma PredecessorsRise(g: Shape, entry: nat, s: State, b: nat)
    requires Completed(g, entry, s)
    ensures forall a :: a in EdgesOf(s.pred, b) ==>
              Edge(s.succ, a, b) && a in s.order && b in s.order && 0 < s.order[b] < s.order[a] <= |s.post|
    ensures EdgesOf(s.pred, b) != [] ==> b in s.order
  {
    assert EdgesOf(s.pred, b) != [] ==> EdgesOf(s.pred, b)[0] in EdgesOf(s.pred, b);
    forall a | a in EdgesOf(s.pred, b)
      ensures Edge(s.succ, a, b) && a in s.order && b in s.order && 0 < s.order[b] < s.order[a] <= |s.post|
    {
      assert Edge(s.succ, a, b) <==> Edge(s.pred, b, a);
    }
  }

  lemma PrependPath(g: Graph, a: nat, b: nat, c: nat, p: seq<nat>)
    requires Edge(g, a, b) && PathBetween(g, b, c, p)
    ensures PathBetween(g, a, c, [a] + p)
  {
    SingletonPath(g, a);
    ExtendPath(g, a, a, b, [a]);
    JoinPaths(g, a, b, c, [a] + [b], p);
    assert [a] + [b] + p[1..] == [a] + p;
  }
}
