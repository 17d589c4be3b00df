// Deciding that a variable can be declared in the header of a loop.
module LoopVariables {
  import opened Blocks
  import opened Paths
  import opened Search
  import opened Dominators
  import opened ControlFlow
  import opened Walks

  // A path each step of which is the only way out of one block and the only way into
  // the next.
  ghost predicate OnlyWay(pred: Graph, succ: Graph, p: seq<nat>) {
    && IsPath(succ, p)
    && forall i :: 0 <= i < |p| - 1 ==> EdgesOf(succ, p[i]) == [p[i + 1]] && EdgesOf(pred, p[i + 1]) == [p[i]]
  }

  // The chain from the variable's dominator to the loop header, which it first meets
  // at its end.
  ghost predicate InitChain(pred: Graph, succ: Graph, dominator: nat, header: nat, p: seq<nat>) {
    && OnlyWay(pred, succ, p) && p[0] == dominator && p[|p| - 1] == header
    && forall i :: 0 <= i < |p| - 1 ==> p[i] != header
  }

  ghost predicate AccessedOn(p: seq<nat>, accessed: set<nat>) {
    exists x :: x in p && x in accessed
  }

  ghost predicate AccessedAfter(succ: Graph, mergeBlock: nat, accessed: set<nat>) {
    exists x :: x in accessed && Reaches(succ, mergeBlock, x)
  }

  // What makes a variable a loop variable of the loop.
  ghost predicate IsLoopVariable(cfg: Cfg, dominator: nat, header: nat, accessed: set<nat>)
    requires header in cfg.blocks
    reads cfg
  {
    && (exists p :: InitChain(cfg.precedingEdges, cfg.succeedingEdges, dominator, header, p) && AccessedOn(p, accessed))
    && !AccessedAfter(cfg.succeedingEdges, cfg.blocks[header].mergeBlock, accessed)
  }

  // h heads a loop whose continue block is `block`.
  ghost predicate ContinuesAt(blocks: Program, h: nat, block: nat) {
    h in blocks && blocks[h].merge == MergeLoop && blocks[h].continueBlock == block
  }

  // The parser registers a loop header under its continue block, which only a loop header
  // has; a block continues at most one loop.
  ghost predicate HeadersOk(blocks: Program, headers: map<nat, nat>) {
    && (forall x :: x in headers ==> ContinuesAt(blocks, headers[x], x))
    && (forall b :: b in blocks && blocks[b].continueBlock != 0 ==> blocks[b].merge == MergeLoop)
    && (forall g, h, x :: ContinuesAt(blocks, g, x) && ContinuesAt(blocks, h, x) ==> g == h)
  }

  // Is the variable with this dominator, used in this one continue block (or in none, 0, or
  // in several, all ones), a loop variable?
  method AcceptLoopVariable(cfg: Cfg, headers: map<nat, nat>, dominator: nat, block: nat, accessed: set<nat>)
    returns (accepted: bool)
    requires cfg.Valid() && (dominator != 0 ==> dominator in cfg.visitOrder) && HeadersOk(cfg.blocks, headers)
    requires block != 0 && block != 0xffff_ffff ==>
               block in cfg.blocks && (block in headers || cfg.blocks[block].continueBlock == block)
    ensures accepted <==>
              block != 0 && block != 0xffff_ffff && dominator != 0
              && exists h :: ContinuesAt(cfg.blocks, h, block) && IsLoopVariable(cfg, dominator, h, accessed)
  {
    hide IsPath, InitChain, AccessedOn, AccessedAfter, Completed, Exact, WellFormed;
    if block == 0xffff_ffff || block == 0 || dominator == 0 {
      return false;
    }
    var header := 0;
    if block in headers {
      header := headers[block];
    } else if cfg.blocks[block].continueBlock == block {
      header := block;
    }
    assert ContinuesAt(cfg.blocks, header, block);
    var direct, accessedBefore := FollowInitChain(cfg, dominator, header, accessed);
    if !direct || !accessedBefore {
      return false;
    }
    var mergeBlock := cfg.blocks[header].mergeBlock;
    var after := AccessAfterMerge(cfg, mergeBlock, accessed);
    return !after;
  }

  // Walk from the dominator along the only way, as long as there is one.
  method FollowInitChain(cfg: Cfg, start: nat, header: nat, accessed: set<nat>) returns (direct: bool, found: bool)
    requires cfg.Valid() && start in cfg.visitOrder
    ensures direct && found <==>
              exists p :: InitChain(cfg.precedingEdges, cfg.succeedingEdges, start, header, p)
                  && AccessedOn(p, accessed)
  {
    hide Completed, Exact, WellFormed, ShapeOf, IsPath;
    ghost var s := cfg.SearchState();
    found := header in accessed;
    var dominator := start;
    ghost var p := [start];
    StartOnlyWay(s.pred, s.succ, start);
    while dominator != header
      invariant dominator in cfg.visitOrder && OnlyWay(s.pred, s.succ, p)
      invariant |p| > 0 && p[0] == start && p[|p| - 1] == dominator
      invariant forall i :: 0 <= i < |p| - 1 ==> p[i] != header
      invariant found <==> header in accessed || AccessedOn(p[..|p| - 1], accessed)
      decreases cfg.visitOrder[dominator]
    {
      if dominator in accessed {
        found := true;
      }
      var succ := EdgesOf(cfg.succeedingEdges, dominator);
      if |succ| != 1 {
        NoWayOn(s.pred, s.succ, start, header, p);
        return false, found;
      }
      var pred := EdgesOf(cfg.precedingEdges, succ[0]);
      if |pred| != 1 || pred[0] != dominator {
        NoWayOn(s.pred, s.succ, start, header, p);
        return false, found;
      }
      EdgeLowers(cfg.GraphShape(), cfg.entry, s, dominator, succ[0]);
      ExtendOnlyWay(s.pred, s.succ, p, succ[0]);
      AccessedSplit(p, accessed);
      assert (p + [succ[0]])[..|p|] == p;
      p := p + [succ[0]];
      dominator := succ[0];
    }
    ChainIsUnique(s.pred, s.succ, start, header, p);
    AccessedSplit(p, accessed);
    return true, found;
  }

  // Is the variable accessed in a block that can follow the loop?
  method AccessAfterMerge(cfg: Cfg, mergeBlock: nat, accessed: set<nat>) returns (after: bool)
    requires cfg.Valid()
    ensures after <==> AccessedAfter(cfg.succeedingEdges, mergeBlock, accessed)
  {
    hide Completed, Exact, WellFormed, ShapeOf, IsPath, FreshReaches, Reaches;
    ghost var s := cfg.SearchState();
    var walker := new Walker(cfg.succeedingEdges, b => true, {});
    EdgesAreNumbered(cfg.GraphShape(), cfg.entry, s);
    walker.WalkFrom(mergeBlock, s.order.Keys + {mergeBlock});
    forall x ensures x in walker.seenBlocks <==> Reaches(cfg.succeedingEdges, mergeBlock, x) {
      UnrestrictedIsReachability(cfg.succeedingEdges, walker.op, mergeBlock, x);
    }
    after := exists x :: x in walker.seenBlocks && x in accessed;
  }

  lemma EdgesAreNumbered(g: Shape, entry: nat, s: State)
    requires Completed(g, entry, s)
    ensures forall a, b :: Edge(s.succ, a, b) ==> b in s.order.Keys
  {}

  lemma EdgeLowers(g: Shape, entry: nat, s: State, a: nat, b: nat)
    requires Completed(g, entry, s) && a in s.order && b in EdgesOf(s.succ, a)
    ensures b in s.order && 0 < s.order[b] < s.order[a]
  {
    assert Edge(s.succ, a, b);
  }

  lemma AccessedSplit(p: seq<nat>, accessed: set<nat>)
    requires |p| > 0
    ensures AccessedOn(p, accessed) <==> AccessedOn(p[..|p| - 1], accessed) || p[|p| - 1] in accessed
  {}

  lemma StartOnlyWay(pred: Graph, succ: Graph, a: nat)
    ensures OnlyWay(pred, succ, [a])
  {}

  lemma ExtendOnlyWay(pred: Graph, succ: Graph, p: seq<nat>, b: nat)
    requires OnlyWay(pred, succ, p)
    requires EdgesOf(succ, p[|p| - 1]) == [b] && EdgesOf(pred, b) == [p[|p| - 1]]
    ensures OnlyWay(pred, succ, p + [b])
  {}

  // The only way from a block is determined, so a chain to the header that starts like
  // p goes on like p.
  lemma {:induction false} ChainsAgree(pred: Graph, succ: Graph, header: nat, p: seq<nat>, q: seq<nat>, n: nat)
    requires OnlyWay(pred, succ, p) && n < |p| && forall i :: 0 <= i < |p| - 1 ==> p[i] != header
    requires InitChain(pred, succ, p[0], header, q)
    ensures n < |q| && q[n] == p[n]
  {
    if n > 0 {
      ChainsAgree(pred, succ, header, p, q, n - 1);
      assert EdgesOf(succ, p[n - 1]) == [p[n]];
    }
  }

  lemma ChainGoesOn(pred: Graph, succ: Graph, header: nat, p: seq<nat>, q: seq<nat>)
    requires OnlyWay(pred, succ, p) && forall i :: 0 <= i < |p| ==> p[i] != header
    requires InitChain(pred, succ, p[0], header, q)
    ensures |EdgesOf(succ, p[|p| - 1])| == 1
    ensures EdgesOf(pred, EdgesOf(succ, p[|p| - 1])[0]) == [p[|p| - 1]]
  {
    var n := |p| - 1;
    ChainsAgree(pred, succ, header, p, q, n);
    assert EdgesOf(succ, q[n]) == [q[n + 1]] && EdgesOf(pred, q[n + 1]) == [q[n]];
  }

  lemma NoWayOn(pred: Graph, succ: Graph, start: nat, header: nat, p: seq<nat>)
    requires OnlyWay(pred, succ, p) && p[0] == start && forall i :: 0 <= i < |p| ==> p[i] != header
    requires |EdgesOf(succ, p[|p| - 1])| != 1 || EdgesOf(pred, EdgesOf(succ, p[|p| - 1])[0]) != [p[|p| - 1]]
    ensures forall q :: !InitChain(pred, succ, start, header, q)
  {
    forall q | InitChain(pred, succ, start, header, q) ensures false {
      ChainGoesOn(pred, succ, header, p, q);
    }
  }

  lemma ChainIsUnique(pred: Graph, succ: Graph, start: nat, header: nat, p: seq<nat>)
    requires InitChain(pred, succ, start, header, p)
    ensures forall q :: InitChain(pred, succ, start, header, q) ==> q == p
  {
    forall q | InitChain(pred, succ, start, header, q) ensures q == p {
      ChainsAgree(pred, succ, header, p, q, |p| - 1);
      assert |q| == |p|;
      forall i | 0 <= i < |p| ensures q[i] == p[i] {
        ChainsAgree(pred, succ, header, p, q, i);
      }
    }
  }

  // ---- Why the initializer is known statically ----

  // Every run from the entry to the header ends with the whole chain, so the last write
  // on the chain is the value the loop starts with.
  lemma {:induction false} HeaderRunsEndWithChain(g: Shape, entry: nat, s: State, p: seq<nat>, run: seq<nat>)
    requires Completed(g, entry, s) && OnlyWay(s.pred, s.succ, p)
    requires PathBetween(s.succ, entry, p[|p| - 1], run)
    ensures |p| <= |run| && run[|run| - |p|..] == p
    decreases |p|
  {
    hide Completed;
    if |p| > 1 {
      var last := |p| - 1;
      ShortenOnlyWay(s.pred, s.succ, p);
      EntryHasNoWayIn(g, entry, s);
      RunArrives(g, entry, s, p[last - 1], p[last], run);
      HeaderRunsEndWithChain(g, entry, s, p[..last], run[..|run| - 1]);
      EndsExtend(p, run);
    }
  }

  lemma ShortenOnlyWay(pred: Graph, succ: Graph, p: seq<nat>)
    requires OnlyWay(pred, succ, p) && |p| > 1
    ensures OnlyWay(pred, succ, p[..|p| - 1]) && EdgesOf(pred, p[|p| - 1]) == [p[|p| - 2]]
  {}

  lemma EndsExtend(p: seq<nat>, run: seq<nat>)
    requires 0 < |p| && 0 < |run| && p[|p| - 1] == run[|run| - 1]
    requires |p| <= |run| && run[..|run| - 1][|run| - |p|..] == p[..|p| - 1]
    ensures run[|run| - |p|..] == p
  {}

  lemma EntryHasNoWayIn(g: Shape, entry: nat, s: State)
    requires Completed(g, entry, s)
    ensures EdgesOf(s.pred, entry) == []
  {
    EntryIsExact(g, entry, s);
  }

  lemma OnlyWayIn(g: Shape, entry: nat, s: State, a: nat, b: nat)
    requires Completed(g, entry, s) && EdgesOf(s.pred, b) == [a]
    ensures forall c :: Edge(s.succ, c, b) ==> c == a
  {
    hide NumbersReachable, OrdersInverse, OnlyEntryUnpreceded, MergesJoined;
    forall c | Edge(s.succ, c, b) ensures c == a {
      assert Edge(s.pred, b, c);
    }
  }

  lemma RunArrives(g: Shape, entry: nat, s: State, a: nat, b: nat, run: seq<nat>)
    requires Completed(g, entry, s) && EdgesOf(s.pred, b) == [a] && b != entry
    requires PathBetween(s.succ, entry, b, run)
    ensures |run| > 1 && PathBetween(s.succ, entry, a, run[..|run| - 1])
  {
    hide Completed;
    OnlyWayIn(g, entry, s, a, b);
  }

  // In particular every block of the chain dominates the header.
  lemma ChainDominatesHeader(g: Shape, entry: nat, s: State, p: seq<nat>, x: nat)
    requires Completed(g, entry, s) && OnlyWay(s.pred, s.succ, p) && x in p
    ensures Dominates(s.succ, entry, x, p[|p| - 1])
  {
    forall run | PathBetween(s.succ, entry, p[|p| - 1], run) ensures x in run {
      HeaderRunsEndWithChain(g, entry, s, p, run);
      assert x in run[|run| - |p|..];
    }
  }
}
