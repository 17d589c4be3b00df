// Finding the block that dominates a set of blocks, and what is built on it.
module DominatorBuilders {
  import opened Blocks
  import opened Paths
  import opened Search
  import opened Dominators
  import opened ControlFlow

  // Of the blocks fed so far, those the graph knows.
  ghost function Known(s: State, fed: set<nat>): set<nat> {
    set b | b in fed && b in s.order
  }

  // 0 while no known block was fed; then the one block whose dominators are the common
  // dominators of the known blocks.
  ghost predicate IsDominatorOf(entry: nat, s: State, d: nat, fed: set<nat>) {
    if Known(s, fed) == {} then d == 0
    else d in s.order && IsNearestCommonDominator(s.succ, entry, d, Known(s, fed))
  }

  // The result depends on the set of blocks only, not on their order or repetition.
  lemma DominatorIsUnique(g: Shape, entry: nat, s: State, x: nat, y: nat, fed: set<nat>)
    requires Completed(g, entry, s)
    requires IsDominatorOf(entry, s, x, fed) && IsDominatorOf(entry, s, y, fed)
    ensures x == y
  {
    if Known(s, fed) != {} {
      hide Completed;
      SelfDominates(s.succ, entry, x);
      SelfDominates(s.succ, entry, y);
      SameDominators(g, entry, s, x, y);
    }
  }

  // It dominates every known block, and is itself dominated by whatever does.
  lemma DominatesAll(entry: nat, s: State, d: nat, fed: set<nat>)
    requires IsDominatorOf(entry, s, d, fed)
    ensures forall b :: b in fed && b in s.order ==> Dominates(s.succ, entry, d, b)
    ensures Known(s, fed) != {} ==>
              forall c :: (forall b :: b in fed && b in s.order ==> Dominates(s.succ, entry, c, b)) ==>
                  Dominates(s.succ, entry, c, d)
  {
    if Known(s, fed) != {} {
      SelfDominates(s.succ, entry, d);
    }
    forall b | b in fed && b in s.order ensures Dominates(s.succ, entry, d, b) {
      assert b in Known(s, fed);
    }
  }

  lemma FeedUnknown(entry: nat, s: State, d: nat, fed: set<nat>, b: nat)
    requires IsDominatorOf(entry, s, d, fed) && b !in s.order
    ensures IsDominatorOf(entry, s, d, fed + {b})
  {}

  lemma FeedFirst(entry: nat, s: State, fed: set<nat>, b: nat)
    requires Known(s, fed) == {} && b in s.order
    ensures IsDominatorOf(entry, s, b, fed + {b})
  {
    assert Known(s, fed + {b}) == {b};
  }

  lemma FeedSame(entry: nat, s: State, d: nat, fed: set<nat>)
    requires IsDominatorOf(entry, s, d, fed) && d in s.order && Known(s, fed) != {}
    ensures IsDominatorOf(entry, s, d, fed + {d})
  {}

  lemma FeedNext(entry: nat, s: State, d: nat, fed: set<nat>, b: nat, r: nat)
    requires IsDominatorOf(entry, s, d, fed) && Known(s, fed) != {} && b in s.order && r in s.order
    requires IsCommonDominator(s, entry, r, b, d)
    ensures IsDominatorOf(entry, s, r, fed + {b})
  {}

  // A terminator target of b is numbered higher than b.
  ghost predicate BranchesBack(blocks: Program, s: State, b: nat)
    requires b in blocks && b in s.order
  {
    exists t :: t in BranchTargets(blocks[b]) && t in s.order && s.order[t] > s.order[b]
  }

  class DominatorBuilder {
    const cfg: Cfg
    var dominator: nat
    ghost var fed: set<nat>

    ghost predicate Valid()
      reads this, cfg
    {
      cfg.Valid() && IsDominatorOf(cfg.entry, cfg.SearchState(), dominator, fed)
    }

    constructor (cfg: Cfg)
      requires cfg.Valid()
      ensures Valid() && this.cfg == cfg && fed == {}
    {
      hide Completed, Exact, WellFormed;
      this.cfg := cfg;
      dominator := 0;
      fed := {};
    }

    method AddBlock(block: nat)
      requires Valid()
      modifies this
      ensures Valid() && fed == old(fed) + {block}
    {
      hide Completed, ExactAbove, WellFormed, IsDominatorOf, IsCommonDominator, ShapeOf;
      ghost var s := cfg.SearchState();
      NumberedAreBlocks(cfg.blocks, cfg.entry, s);
      ImmediateIsKnown(cfg.GraphShape(), cfg.entry, s, cfg.immediateDominators);
      DominatorIsZeroIff(cfg.entry, s, dominator, fed);
      if cfg.GetImmediateDominator(block) == 0 {
        FeedUnknown(cfg.entry, s, dominator, fed, block);
        fed := fed + {block};
        return;
      }
      if dominator == 0 {
        FeedFirst(cfg.entry, s, fed, block);
        dominator := block;
        fed := fed + {block};
        return;
      }
      if block != dominator {
        OrderIsInjective(cfg.GraphShape(), cfg.entry, s, block, dominator);
        var common := cfg.FindCommonDominator(block, dominator, 0);
        FeedNext(cfg.entry, s, dominator, fed, block, common);
        dominator := common;
      } else {
        FeedSame(cfg.entry, s, dominator, fed);
      }
      fed := fed + {block};
    }

    // A dominator that branches back, as a continue block does, is given up for the
    // function's entry.
    method LiftContinueBlockDominator()
      requires Valid()
      modifies `dominator
      ensures old(dominator) == 0 ==> dominator == 0
      ensures old(dominator) != 0 ==> old(dominator) in cfg.blocks && old(dominator) in cfg.visitOrder
      ensures old(dominator) != 0 ==> (
                if BranchesBack(cfg.blocks, cfg.SearchState(), old(dominator)) then dominator == cfg.entry
                else dominator == old(dominator))
      ensures forall b :: b in fed && b in cfg.visitOrder ==>
                Dominates(cfg.succeedingEdges, cfg.entry, dominator, b)
    {
      hide Completed, Exact, WellFormed, IsDominatorOf, ShapeOf, Dominates;
      ghost var s := cfg.SearchState();
      DominatesAll(cfg.entry, s, dominator, fed);
      if dominator == 0 {
        return;
      }
      NumberedAreBlocks(cfg.blocks, cfg.entry, s);
      DominatorIsZeroIff(cfg.entry, s, dominator, fed);
      BranchesAreNumbered(cfg.blocks, cfg.entry, s, dominator);
      var block := cfg.blocks[dominator];
      var postOrder := cfg.GetVisitOrder(dominator);
      var back := false;
      match block.terminator {
        case Direct =>
          assert block.nextBlock in BranchTargets(block);
          if cfg.GetVisitOrder(block.nextBlock) > postOrder {
            back := true;
          }
        case Select =>
          assert block.trueBlock in BranchTargets(block) && block.falseBlock in BranchTargets(block);
          if cfg.GetVisitOrder(block.trueBlock) > postOrder {
            back := true;
          }
          if cfg.GetVisitOrder(block.falseBlock) > postOrder {
            back := true;
          }
        case MultiSelect =>
          for i := 0 to |block.cases|
            invariant back <==> exists j :: 0 <= j < i && cfg.visitOrder[block.cases[j]] > postOrder
          {
            assert block.cases[i] in BranchTargets(block);
            if cfg.GetVisitOrder(block.cases[i]) > postOrder {
              back := true;
            }
          }
          if block.defaultBlock != 0 {
            assert block.defaultBlock in BranchTargets(block);
            if cfg.GetVisitOrder(block.defaultBlock) > postOrder {
              back := true;
            }
          }
        case _ =>
      }
      if back {
        dominator := cfg.entry;
      }
      forall b ensures Dominates(cfg.succeedingEdges, cfg.entry, cfg.entry, b) {
        SelfDominates(cfg.succeedingEdges, cfg.entry, b);
      }
    }
  }

  lemma ImmediateIsKnown(g: Shape, entry: nat, s: State, idoms: Idoms)
    requires Completed(g, entry, s) && Exact(entry, s, idoms) && 0 !in s.order
    ensures idoms.Keys == s.order.Keys
    ensures forall b :: b in s.order <==> b in idoms && idoms[b] != 0
  {
    hide Completed;
    forall b | b in s.order ensures b in idoms && idoms[b] != 0 {
      OrderIsInjective(g, entry, s, b, b);
      assert EntryExact(entry, s, idoms, b);
    }
  }

  lemma DominatorIsZeroIff(entry: nat, s: State, d: nat, fed: set<nat>)
    requires IsDominatorOf(entry, s, d, fed) && 0 !in s.order
    ensures d == 0 <==> Known(s, fed) == {}
    ensures d != 0 ==> d in s.order
  {}

  lemma BranchesAreNumbered(blocks: Program, entry: nat, s: State, b: nat)
    requires WellFormed(blocks, entry) && Completed(ShapeOf(blocks, entry), entry, s) && b in s.order
    ensures b in blocks && s.order[b] > 0
    ensures forall t :: t in BranchTargets(blocks[b]) ==> t in s.order && s.order[t] > 0
  {
    var g := ShapeOf(blocks, entry);
    NumberedAreBlocks(blocks, entry, s);
    OrderIsInjective(g, entry, s, b, b);
    forall t | t in BranchTargets(blocks[b]) ensures t in s.order && s.order[t] > 0 {
      assert Edge(g.must, b, t);
      OrderIsInjective(g, entry, s, t, t);
    }
  }
}
