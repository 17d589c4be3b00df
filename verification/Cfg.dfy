// The control-flow graph of one function: a depth-first numbering of its blocks, the
// edges it records, and the immediate dominators built on them.
module ControlFlow {
  import opened Sets
  import opened Blocks
  import opened Paths
  import opened Search
  import opened Dominators

  ghost function WalkGraph(blocks: Program): Graph {
    map b | b in blocks :: Targets(blocks[b])
  }

  // Branches and loop merges; a selection merge is recorded only in some cases.
  ghost function MustGraph(blocks: Program): Graph {
    map b | b in blocks :: LoopMerge(blocks[b]) + BranchTargets(blocks[b])
  }

  ghost function JoinGraph(blocks: Program): Graph {
    map b | b in blocks :: SelectionMerge(blocks[b])
  }

  ghost function ShapeOf(blocks: Program, entry: nat): (g: Shape) {
    Shape(
      WalkGraph(blocks),
      MustGraph(blocks),
      (set b | b in blocks && Reaches(WalkGraph(blocks), entry, b)),
      JoinGraph(blocks),
      (set b | b in blocks && blocks[b].terminator == MultiSelect))
  }

  lemma ShapeIsOk(blocks: Program, entry: nat)
    requires WellFormed(blocks, entry)
    ensures ShapeOk(ShapeOf(blocks, entry), entry) && ReachIsExact(ShapeOf(blocks, entry), entry)
  {
    var g := ShapeOf(blocks, entry);
    SingletonPath(g.walk, entry);
    forall a, b | Edge(g.must, a, b) ensures Edge(g.walk, a, b) {}
    forall a, b | a in g.reach && Edge(g.walk, a, b) ensures b in g.reach {
      ExtendReach(g.walk, entry, a, b);
    }
  }

  lemma TargetsAreEdges(blocks: Program, entry: nat, b: nat)
    requires b in blocks
    ensures forall t :: t in LoopMerge(blocks[b]) ==> Edge(ShapeOf(blocks, entry).must, b, t)
    ensures forall t :: t in BranchTargets(blocks[b]) ==> Edge(ShapeOf(blocks, entry).must, b, t)
    ensures forall t :: t in SelectionMerge(blocks[b]) ==> Edge(ShapeOf(blocks, entry).walk, b, t)
  {}

  lemma MustIsWalked(blocks: Program, entry: nat, a: nat, t: nat)
    requires Edge(ShapeOf(blocks, entry).must, a, t)
    ensures Edge(ShapeOf(blocks, entry).walk, a, t)
  {}

  // A block that was still open with no other edges still is.
  lemma OpenKeepsMust(g: Shape, s: State, t: State, b: nat)
    requires Open(s, b) && OnlyMust(g, s, b) && AllMustKept(g, s, t)
    ensures OnlyMust(g, t, b)
  {}

  lemma SwitchesBranch(blocks: Program, entry: nat, b: nat)
    requires b in blocks
    ensures b in ShapeOf(blocks, entry).switches <==> blocks[b].terminator == MultiSelect
  {}

  lemma ReachedIsBlock(blocks: Program, entry: nat, b: nat)
    requires b in ShapeOf(blocks, entry).reach
    ensures b in blocks
  {}

  lemma NumberedAreBlocks(blocks: Program, entry: nat, s: State)
    requires WellFormed(blocks, entry) && Completed(ShapeOf(blocks, entry), entry, s)
    ensures s.order.Keys <= blocks.Keys && 0 !in s.order
    ensures |s.order| <= |blocks|
  {
    assert forall b :: b in s.order.Keys ==> b in blocks.Keys;
    SubsetIsSmaller(s.order.Keys, blocks.Keys);
  }

  lemma CountIsOrders(g: Shape, entry: nat, s: State)
    requires Completed(g, entry, s)
    ensures |s.post| == |s.order|
  {
    hide NumbersReachable, EdgesExact, OnlyEntryUnpreceded;
    DistinctCount(s.post);
    assert s.order.Keys == Elements(s.post);
  }

  lemma TargetIsReached(blocks: Program, entry: nat, a: nat, t: nat)
    requires WellFormed(blocks, entry) && a in ShapeOf(blocks, entry).reach && Edge(ShapeOf(blocks, entry).walk, a, t)
    ensures t in blocks && t in ShapeOf(blocks, entry).reach
  {
    ShapeIsOk(blocks, entry);
  }

  // What has been tried at one stage of a visit stays tried.
  lemma TargetsAreTended(blocks: Program, entry: nat, b: nat, s0: State, s1: State, s2: State, s3: State)
    requires b in blocks && Extends(s0, s1) && Extends(s1, s2) && Extends(s2, s3)
    requires forall t :: t in LoopMerge(blocks[b]) ==> Tried(s1, b, t)
    requires forall t :: t in BranchTargets(blocks[b]) ==> Tried(s2, b, t)
    requires forall t :: t in SelectionMerge(blocks[b]) ==> t in s3.order
    requires forall t :: t in SelectionMerge(blocks[b]) && Done(s3, t) ==>
               Joined(ShapeOf(blocks, entry), s3.pred, s3.succ, b, t)
    requires EdgesNeeded(ShapeOf(blocks, entry), s3.pred, s3.succ, b)
    ensures Extends(s0, s3) && Tended(ShapeOf(blocks, entry), s3, b)
  {
    hide Extends, LoopMerge, BranchTargets, SelectionMerge, Joined, EdgesNeeded, Done, Tried;
    ExtendsTransitive(s0, s1, s2);
    ExtendsTransitive(s0, s2, s3);
    ExtendsTransitive(s1, s2, s3);
    ExtendsKeeps(s1, s3, b);
    ExtendsKeeps(s2, s3, b);
    forall t | Tried(s3, b, t) ensures t in s3.order {
      TriedIsSeen(s3, b, t);
    }
  }

  lemma TriedIsSeen(s: State, a: nat, t: nat)
    requires Tried(s, a, t)
    ensures t in s.order
  {}

  class Cfg {
    const blocks: Program
    const entry: nat
    var precedingEdges: Graph
    var succeedingEdges: Graph
    var immediateDominators: Idoms
    var visitOrder: map<nat, int>
    var postOrder: seq<nat>
    var visitCount: nat

    ghost function GraphShape(): Shape {
      ShapeOf(blocks, entry)
    }

    ghost function SearchState(): State
      reads this
    {
      State.State(visitOrder, postOrder, precedingEdges, succeedingEdges)
    }

    ghost predicate Searching()
      reads this
    {
      && WellFormed(blocks, entry)
      && Invariant(GraphShape(), SearchState())
      && visitCount == |postOrder|
    }

    ghost predicate Valid()
      reads this
    {
      && WellFormed(blocks, entry)
      && Completed(GraphShape(), entry, SearchState())
      && Exact(entry, SearchState(), immediateDominators)
    }

    constructor (blocks: Program, entry: nat)
      requires WellFormed(blocks, entry)
      ensures Valid() && this.blocks == blocks && this.entry == entry
      ensures visitCount == |visitOrder| <= |blocks|
    {
      hide Completed, ExactAbove, Exact, WellFormed, ShapeOf;
      this.blocks := blocks;
      this.entry := entry;
      precedingEdges, succeedingEdges := map[], map[];
      immediateDominators := map[];
      visitOrder, postOrder, visitCount := map[], [], 0;
      new;
      BuildPostOrderVisitOrder();
      BuildImmediateDominators();
      NumberedAreBlocks(blocks, entry, SearchState());
      CountIsOrders(GraphShape(), entry, SearchState());
    }

    method BuildPostOrderVisitOrder()
      requires WellFormed(blocks, entry) && precedingEdges == map[] && succeedingEdges == map[]
      modifies this
      ensures Completed(GraphShape(), entry, SearchState()) && visitCount == |postOrder|
    {
      hide Invariant, Extends, WellFormed, ShapeOf, ReachIsExact, Completed, Preceded, PrecededBut, NewFrom, MergeFirst;
      visitCount := 0;
      visitOrder := map[];
      postOrder := [];
      ghost var start := SearchState();
      StartKeeps(GraphShape(), start);
      ShapeIsOk(blocks, entry);
      assert entry in GraphShape().reach;
      var _ := PostOrderVisit(entry);
      AllAreDone(start, SearchState());
      EntryEndsSearch(entry, SearchState());
      SearchCompletes(GraphShape(), entry, SearchState());
    }

    // True unless the block is still being visited, that is, unless the branch that
    // led here is a back edge.
    method PostOrderVisit(blockId: nat) returns (forward: bool)
      requires Searching() && blockId in GraphShape().reach && Preceded(entry, SearchState())
      modifies `precedingEdges, `succeedingEdges, `visitOrder, `postOrder, `visitCount
      ensures Searching() && Extends(old(SearchState()), SearchState())
      ensures forward <==> Done(SearchState(), blockId)
      ensures blockId in visitOrder
      ensures blockId in old(visitOrder) ==> SearchState() == old(SearchState())
      ensures blockId !in old(visitOrder) ==>
                forward && blockId !in precedingEdges && |postOrder| > 0 && postOrder[|postOrder| - 1] == blockId
      ensures if blockId in old(visitOrder) then Preceded(entry, SearchState())
              else PrecededBut(entry, SearchState(), blockId)
      ensures NewFrom(GraphShape(), old(SearchState()), SearchState(), blockId)
      ensures blockId !in old(visitOrder) && blocks[blockId].merge == MergeLoop ==>
                MergeFirst(GraphShape(), old(SearchState()), SearchState(), blocks[blockId].mergeBlock)
      ensures AllMustKept(GraphShape(), old(SearchState()), SearchState())
      decreases blocks.Keys - visitOrder.Keys, 0
    {
      hide Extends, WellFormed, ShapeOf, Preceded, PrecededBut, Edge, Invariant, NewFrom, MergeFirst, Tended;
      hide OnlyMust, MustKept, AllMustKept;
      ReachedIsBlock(blocks, entry, blockId);
      ghost var start := SearchState();
      ExtendsReflexive(start);
      NothingNew(GraphShape(), start, blockId);
      MustReflexive(GraphShape(), start);
      if blockId in visitOrder && visitOrder[blockId] > 0 {
        return true;
      } else if blockId in visitOrder && visitOrder[blockId] == 0 {
        return false;
      }
      if blockId in visitOrder {
        OrdersNotNegative(GraphShape(), start, blockId);
      }
      OpenKeeps(GraphShape(), start, blockId);
      OpenPrecedes(entry, start, blockId);
      OpenMust(GraphShape(), start, blockId);
      visitOrder := visitOrder[blockId := 0];
      assert SearchState() == Opened(start, blockId);
      assert blocks.Keys - visitOrder.Keys < old(blocks.Keys - visitOrder.Keys) by {
        assert blockId in old(blocks.Keys - visitOrder.Keys);
      }
      VisitTargets(blockId);
      ghost var ended := SearchState();
      FinishKeeps(GraphShape(), ended, blockId);
      VisitExtends(GraphShape(), entry, start, blockId, ended);
      VisitIsFrom(GraphShape(), start, blockId, ended);
      VisitMust(GraphShape(), start, blockId, ended);
      if blocks[blockId].merge == MergeLoop {
        FinishKeepsMerge(GraphShape(), start, blockId, ended, blocks[blockId].mergeBlock);
      }
      visitCount := visitCount + 1;
      visitOrder := visitOrder[blockId := visitCount];
      postOrder := postOrder + [blockId];
      assert SearchState() == Finished(ended, blockId);
      return true;
    }

    // Everything the visitor walks into from a block: a loop merge first.
    method VisitTargets(blockId: nat)
      requires Searching() && Preceded(entry, SearchState()) && Open(SearchState(), blockId)
      requires blockId in GraphShape().reach && OnlyMust(GraphShape(), SearchState(), blockId)
      modifies `precedingEdges, `succeedingEdges, `visitOrder, `postOrder, `visitCount
      ensures Searching() && Extends(old(SearchState()), SearchState()) && Preceded(entry, SearchState())
      ensures Open(SearchState(), blockId) && Tended(GraphShape(), SearchState(), blockId)
      ensures NewFrom(GraphShape(), old(SearchState()), SearchState(), blockId)
      ensures blocks[blockId].merge == MergeLoop ==>
                MergeFirst(GraphShape(), old(SearchState()), SearchState(), blocks[blockId].mergeBlock)
      ensures MustKept(GraphShape(), old(SearchState()), SearchState(), blockId)
      decreases blocks.Keys - visitOrder.Keys, 4
    {
      hide Extends, WellFormed, ShapeOf, Preceded, Edge, Invariant, NewFrom, MergeFirst, Joined, Open;
      hide BranchTargets, SelectionMerge, Tended, Tried, Done, OnlyMust, MustKept, AllMustKept, EdgesNeeded;
      ReachedIsBlock(blocks, entry, blockId);
      ghost var begun := SearchState();
      VisitLoopMerge(blockId);
      ghost var merged := SearchState();
      ExtendsKeeps(begun, merged, blockId);
      OpenKeepsMust(GraphShape(), begun, merged, blockId);
      VisitBranchTargets(blockId);
      ghost var branched := SearchState();
      ExtendsKeeps(merged, branched, blockId);
      OpenKeepsMust(GraphShape(), merged, branched, blockId);
      VisitSelectionMerge(blockId);
      ghost var ended := SearchState();
      ExtendsKeeps(branched, ended, blockId);
      AllMustTransitive(GraphShape(), begun, merged, branched);
      MustTransitive(GraphShape(), begun, branched, ended, blockId);
      TargetsAreTended(blocks, entry, blockId, begun, merged, branched, ended);
      NewFromTransitive(GraphShape(), begun, merged, branched, blockId);
      NewFromTransitive(GraphShape(), begun, branched, ended, blockId);
      if blocks[blockId].merge == MergeLoop {
        var m := blocks[blockId].mergeBlock;
        assert m in LoopMerge(blocks[blockId]);
        TriedIsSeen(merged, blockId, m);
        ExtendsTransitive(merged, branched, ended);
        MergeIsFirst(GraphShape(), begun, merged, ended, m);
      }
    }

    // The implied branch of a loop header to its merge block.
    method VisitLoopMerge(blockId: nat)
      requires Searching() && Preceded(entry, SearchState()) && Open(SearchState(), blockId)
      requires blockId in GraphShape().reach
      modifies `precedingEdges, `succeedingEdges, `visitOrder, `postOrder, `visitCount
      ensures Searching() && Extends(old(SearchState()), SearchState()) && Preceded(entry, SearchState())
      ensures forall t :: t in LoopMerge(blocks[blockId]) ==> Tried(SearchState(), blockId, t)
      ensures NewFrom(GraphShape(), old(SearchState()), SearchState(), blockId)
      ensures forall t :: t in LoopMerge(blocks[blockId]) ==>
                NewFrom(GraphShape(), old(SearchState()), SearchState(), t)
      ensures AllMustKept(GraphShape(), old(SearchState()), SearchState())
      decreases blocks.Keys - visitOrder.Keys, 2
    {
      hide Invariant, Extends, WellFormed, Preceded, PrecededBut, Tried, NewFrom;
      hide AllMustKept;
      ExtendsReflexive(SearchState());
      NothingNew(GraphShape(), SearchState(), blockId);
      MustReflexive(GraphShape(), SearchState());
      var block := blocks[blockId];
      if block.merge == MergeLoop {
        assert Edge(GraphShape().must, blockId, block.mergeBlock);
        Follow(blockId, block.mergeBlock);
      }
    }

    // The targets of the terminator.
    method VisitBranchTargets(blockId: nat)
      requires Searching() && Preceded(entry, SearchState()) && Open(SearchState(), blockId)
      requires blockId in GraphShape().reach
      modifies `precedingEdges, `succeedingEdges, `visitOrder, `postOrder, `visitCount
      ensures Searching() && Extends(old(SearchState()), SearchState()) && Preceded(entry, SearchState())
      ensures forall t :: t in BranchTargets(blocks[blockId]) ==> Tried(SearchState(), blockId, t)
      ensures NewFrom(GraphShape(), old(SearchState()), SearchState(), blockId)
      ensures AllMustKept(GraphShape(), old(SearchState()), SearchState())
      decreases blocks.Keys - visitOrder.Keys, 3
    {
      hide Invariant, Extends, WellFormed, Preceded, Tried, Edge, ShapeOf, NewFrom;
      hide AllMustKept;
      ReachedIsBlock(blocks, entry, blockId);
      TargetsAreEdges(blocks, entry, blockId);
      var block := blocks[blockId];
      ghost var s0 := SearchState();
      ExtendsReflexive(s0);
      NothingNew(GraphShape(), s0, blockId);
      MustReflexive(GraphShape(), s0);
      match block.terminator {
        case Direct =>
          assert block.nextBlock in BranchTargets(block);
          Follow(blockId, block.nextBlock);
        case Select =>
          assert block.trueBlock in BranchTargets(block) && block.falseBlock in BranchTargets(block);
          Follow(blockId, block.trueBlock);
          ghost var s1 := SearchState();
          ExtendsKeeps(s0, s1, blockId);
          Follow(blockId, block.falseBlock);
          ExtendsKeeps(s1, SearchState(), blockId);
          ExtendsTransitive(s0, s1, SearchState());
          NewFromTransitive(GraphShape(), s0, s1, SearchState(), blockId);
          AllMustTransitive(GraphShape(), s0, s1, SearchState());
        case MultiSelect =>
          VisitCases(blockId);
          ghost var s1 := SearchState();
          ExtendsKeeps(s0, s1, blockId);
          if block.defaultBlock != 0 {
            assert block.defaultBlock in BranchTargets(block);
            Follow(blockId, block.defaultBlock);
            ExtendsKeeps(s1, SearchState(), blockId);
            ExtendsTransitive(s0, s1, SearchState());
            NewFromTransitive(GraphShape(), s0, s1, SearchState(), blockId);
            AllMustTransitive(GraphShape(), s0, s1, SearchState());
          }
        case _ =>
      }
    }

    method VisitCases(blockId: nat)
      requires Searching() && Preceded(entry, SearchState()) && Open(SearchState(), blockId)
      requires blockId in GraphShape().reach && blocks[blockId].terminator == MultiSelect
      modifies `precedingEdges, `succeedingEdges, `visitOrder, `postOrder, `visitCount
      ensures Searching() && Extends(old(SearchState()), SearchState()) && Preceded(entry, SearchState())
      ensures forall t :: t in blocks[blockId].cases ==> Tried(SearchState(), blockId, t)
      ensures NewFrom(GraphShape(), old(SearchState()), SearchState(), blockId)
      ensures AllMustKept(GraphShape(), old(SearchState()), SearchState())
      decreases blocks.Keys - visitOrder.Keys, 2
    {
      hide Invariant, Extends, WellFormed, Preceded, Tried, Edge, ShapeOf, Open, NewFrom;
      hide AllMustKept;
      ReachedIsBlock(blocks, entry, blockId);
      TargetsAreEdges(blocks, entry, blockId);
      var block := blocks[blockId];
      ghost var s0 := SearchState();
      ExtendsReflexive(s0);
      NothingNew(GraphShape(), s0, blockId);
      MustReflexive(GraphShape(), s0);
      for i := 0 to |block.cases|
        invariant Searching() && Extends(s0, SearchState()) && Preceded(entry, SearchState())
        invariant NewFrom(GraphShape(), s0, SearchState(), blockId)
        invariant AllMustKept(GraphShape(), s0, SearchState())
        invariant forall j :: 0 <= j < i ==> Tried(SearchState(), blockId, block.cases[j])
      {
        assert block.cases[i] in BranchTargets(block);
        ghost var s1 := SearchState();
        ExtendsKeeps(s0, s1, blockId);
        Follow(blockId, block.cases[i]);
        ExtendsKeeps(s1, SearchState(), blockId);
        ExtendsTransitive(s0, s1, SearchState());
        NewFromTransitive(GraphShape(), s0, s1, SearchState(), blockId);
        AllMustTransitive(GraphShape(), s0, s1, SearchState());
      }
    }

    // The merge target of a selection header.
    method VisitSelectionMerge(blockId: nat)
      requires Searching() && Preceded(entry, SearchState()) && Open(SearchState(), blockId)
      requires blockId in GraphShape().reach && OnlyMust(GraphShape(), SearchState(), blockId)
      modifies `precedingEdges, `succeedingEdges, `visitOrder, `postOrder, `visitCount
      ensures Searching() && Extends(old(SearchState()), SearchState()) && Preceded(entry, SearchState())
      ensures forall t :: t in SelectionMerge(blocks[blockId]) ==> t in visitOrder
      ensures forall t :: t in SelectionMerge(blocks[blockId]) && Done(SearchState(), t) ==>
                Joined(GraphShape(), precedingEdges, succeedingEdges, blockId, t)
      ensures NewFrom(GraphShape(), old(SearchState()), SearchState(), blockId)
      ensures EdgesNeeded(GraphShape(), precedingEdges, succeedingEdges, blockId)
      ensures MustKept(GraphShape(), old(SearchState()), SearchState(), blockId)
      decreases blocks.Keys - visitOrder.Keys, 2
    {
      hide Invariant, Extends, WellFormed, ShapeOf, Joined, NewFrom, Preceded, PrecededBut, Edge;
      hide OnlyMust, MustKept, AllMustKept, EdgesNeeded;
      ReachedIsBlock(blocks, entry, blockId);
      TargetsAreEdges(blocks, entry, blockId);
      ghost var s0 := SearchState();
      ExtendsReflexive(s0);
      NothingNew(GraphShape(), s0, blockId);
      MustReflexive(GraphShape(), s0);
      MustBut(GraphShape(), s0, s0, blockId);
      MustIsNeeded(GraphShape(), s0, blockId);
      var block := blocks[blockId];
      if block.merge == MergeSelection {
        assert block.nextBlock in SelectionMerge(block);
        TargetIsReached(blocks, entry, blockId, block.nextBlock);
        var seen := PostOrderVisit(block.nextBlock);
        ghost var s1 := SearchState();
        ExtendsKeeps(s0, s1, blockId);
        OpenKeepsMust(GraphShape(), s0, s1, blockId);
        MustBut(GraphShape(), s0, s1, blockId);
        MustIsNeeded(GraphShape(), s1, blockId);
        if seen {
          JoinMerge(blockId);
          MustTransitive(GraphShape(), s0, s1, SearchState(), blockId);
        }
        ExtendsTransitive(s0, s1, SearchState());
        SameIsNew(GraphShape(), s0, s1, SearchState(), block.nextBlock);
        NewFromStep(GraphShape(), s0, SearchState(), blockId, block.nextBlock);
      }
    }

    // The edge to the merge block is added exactly when its predecessors might all lie
    // inside one arm of the selection, or it has none.
    method JoinMerge(blockId: nat)
      requires Searching() && Open(SearchState(), blockId) && OnlyMust(GraphShape(), SearchState(), blockId)
      requires blockId in blocks && blocks[blockId].merge == MergeSelection
      requires Done(SearchState(), blocks[blockId].nextBlock)
      requires Edge(GraphShape().walk, blockId, blocks[blockId].nextBlock)
      requires Preceded(entry, SearchState()) || PrecededBut(entry, SearchState(), blocks[blockId].nextBlock)
      modifies `precedingEdges, `succeedingEdges
      ensures Searching() && Extends(old(SearchState()), SearchState()) && Preceded(entry, SearchState())
      ensures SearchState() ==
                if old(Joined(GraphShape(), precedingEdges, succeedingEdges, blockId, blocks[blockId].nextBlock)) then
                  old(SearchState())
                else Branched(old(SearchState()), blockId, blocks[blockId].nextBlock)
      ensures Joined(GraphShape(), precedingEdges, succeedingEdges, blockId, blocks[blockId].nextBlock)
      ensures EdgesNeeded(GraphShape(), precedingEdges, succeedingEdges, blockId)
      ensures MustKept(GraphShape(), old(SearchState()), SearchState(), blockId)
    {
      hide Extends, WellFormed, Invariant, Joined, Preceded, PrecededBut, Edge, Branched, ShapeOf;
      hide OnlyMust, MustKept, AllMustKept, EdgesNeeded;
      ghost var s0 := SearchState();
      ExtendsReflexive(s0);
      SwitchesBranch(blocks, entry, blockId);
      var block := blocks[blockId];
      JoinRule(GraphShape(), s0, blockId, block.nextBlock);
      if Joined(GraphShape(), s0.pred, s0.succ, blockId, block.nextBlock) {
        JoinedPrecedes(GraphShape(), entry, s0, blockId, block.nextBlock);
        MustReflexive(GraphShape(), s0);
        MustBut(GraphShape(), s0, s0, blockId);
        MustIsNeeded(GraphShape(), s0, blockId);
      } else {
        JoinIsNeeded(GraphShape(), s0, blockId, block.nextBlock);
      }
      InvariantIsTidy(GraphShape(), s0);
      BranchMust(GraphShape(), s0, blockId, block.nextBlock);
      if block.nextBlock in precedingEdges {
        var pred := precedingEdges[block.nextBlock];
        var succeeding := |EdgesOf(succeedingEdges, blockId)|;
        if block.terminator == MultiSelect && succeeding == 1 {
          if pred != [] {
            AddBranch(blockId, block.nextBlock);
          }
        } else {
          if |pred| == 1 && pred[0] != blockId {
            AddBranch(blockId, block.nextBlock);
          }
        }
      } else {
        AddBranch(blockId, block.nextBlock);
      }
    }

    // One `if (post_order_visit(to)) add_branch(from, to)`.
    method Follow(from: nat, to: nat)
      requires Searching() && Preceded(entry, SearchState())
      requires Open(SearchState(), from) && from in GraphShape().reach && Edge(GraphShape().must, from, to)
      modifies `precedingEdges, `succeedingEdges, `visitOrder, `postOrder, `visitCount
      ensures Searching() && Extends(old(SearchState()), SearchState()) && Preceded(entry, SearchState())
      ensures Tried(SearchState(), from, to)
      ensures NewFrom(GraphShape(), old(SearchState()), SearchState(), from)
      ensures NewFrom(GraphShape(), old(SearchState()), SearchState(), to)
      ensures AllMustKept(GraphShape(), old(SearchState()), SearchState())
      decreases blocks.Keys - visitOrder.Keys, 1
    {
      hide Invariant, Extends, WellFormed, ShapeOf, Preceded, PrecededBut, Edge, NewFrom, AllMustKept;
      MustIsWalked(blocks, entry, from, to);
      TargetIsReached(blocks, entry, from, to);
      ghost var s0 := SearchState();
      var forward := PostOrderVisit(to);
      ghost var s1 := SearchState();
      ExtendsKeeps(s0, s1, from);
      if forward {
        InvariantIsTidy(GraphShape(), s1);
        BranchMust(GraphShape(), s1, from, to);
        AddBranch(from, to);
        AllMustTransitive(GraphShape(), s0, s1, SearchState());
        ExtendsKeeps(s1, SearchState(), from);
        ExtendsTransitive(s0, s1, SearchState());
      }
      SameIsNew(GraphShape(), s0, s1, SearchState(), to);
      NewFromStep(GraphShape(), s0, SearchState(), from, to);
    }

    method AddBranch(from: nat, to: nat)
      requires Searching() && Open(SearchState(), from) && Done(SearchState(), to)
      requires Edge(GraphShape().walk, from, to)
      modifies `precedingEdges, `succeedingEdges
      ensures Searching() && Extends(old(SearchState()), SearchState())
      ensures SearchState() == Branched(old(SearchState()), from, to)
      ensures Edge(succeedingEdges, from, to)
      ensures old(Preceded(entry, SearchState()) || PrecededBut(entry, SearchState(), to)) ==>
                Preceded(entry, SearchState())
    {
      hide Invariant, Extends, WellFormed, GraphShape, Preceded, PrecededBut;
      ghost var s0 := SearchState();
      BranchKeeps(GraphShape(), s0, from, to);
      if Preceded(entry, s0) || PrecededBut(entry, s0, to) {
        BranchPrecedes(entry, s0, from, to);
      }
      precedingEdges := precedingEdges[to := AddUnique(EdgesOf(precedingEdges, to), from)];
      succeedingEdges := succeedingEdges[from := AddUnique(EdgesOf(succeedingEdges, from), to)];
    }

    function GetVisitOrder(block: nat): int
      requires block in visitOrder && visitOrder[block] > 0
      reads this
    {
      visitOrder[block]
    }

    function GetImmediateDominator(block: nat): nat
      reads this
    {
      if block in immediateDominators then immediateDominators[block] else 0
    }

    // The nearest common dominator of two blocks numbered above `low`.
    method FindCommonDominator(a: nat, b: nat, ghost low: int) returns (r: nat)
      requires Completed(GraphShape(), entry, SearchState())
      requires ExactAbove(entry, SearchState(), immediateDominators, low)
      requires a in visitOrder && visitOrder[a] > low && b in visitOrder && visitOrder[b] > low
      ensures r in visitOrder && visitOrder[r] >= visitOrder[a] && visitOrder[r] >= visitOrder[b]
      ensures IsCommonDominator(SearchState(), entry, r, a, b)
    {
      hide Completed, ExactAbove, ShapeOf, SameCommon, IsCommonDominator;
      ghost var s := SearchState();
      var x, y := a, b;
      CommonIsReflexive(s, entry, a, b);
      while x != y
        invariant x in visitOrder && visitOrder[x] >= visitOrder[a]
        invariant y in visitOrder && visitOrder[y] >= visitOrder[b]
        invariant SameCommon(s, entry, a, b, x, y)
        decreases |postOrder| - visitOrder[x] + (|postOrder| - visitOrder[y])
      {
        OrderIsInjective(GraphShape(), entry, s, x, y);
        if GetVisitOrder(x) < GetVisitOrder(y) {
          ClimbKeepsCommon(GraphShape(), entry, s, immediateDominators, low, x, y);
          CommonIsTransitive(s, entry, a, b, x, y, immediateDominators[x], y);
          x := GetImmediateDominator(x);
        } else {
          ClimbKeepsCommon(GraphShape(), entry, s, immediateDominators, low, y, x);
          CommonIsSymmetric(s, entry, y, x, immediateDominators[y], x);
          CommonIsTransitive(s, entry, a, b, x, y, x, immediateDominators[y]);
          y := GetImmediateDominator(y);
        }
        OrderIsInjective(GraphShape(), entry, s, x, y);
      }
      CommonOfEqual(s, entry, x, a, b);
      r := x;
    }

    // One pass over the blocks, highest order first.
    method BuildImmediateDominators()
      requires WellFormed(blocks, entry) && Completed(GraphShape(), entry, SearchState())
      modifies `precedingEdges, `immediateDominators
      ensures Valid() && postOrder == old(postOrder)
      ensures succeedingEdges == old(succeedingEdges) && visitOrder == old(visitOrder)
    {
      hide Completed, ExactAbove, WellFormed, ShapeOf;
      NumberedAreBlocks(blocks, entry, SearchState());
      immediateDominators := map[];
      immediateDominators := immediateDominators[entry := entry];
      EntryIsExact(GraphShape(), entry, SearchState());
      BlockAt(GraphShape(), entry, SearchState(), |postOrder| - 1);
      var i := |postOrder|;
      while i > 0
        invariant 0 <= i <= |postOrder|
        invariant Completed(GraphShape(), entry, SearchState())
        invariant ExactAbove(entry, SearchState(), immediateDominators, if i == |postOrder| then i - 1 else i)
        invariant forall b :: b in immediateDominators <==> b == entry || (b in visitOrder && visitOrder[b] > i)
      {
        BlockAt(GraphShape(), entry, SearchState(), i - 1);
        SetImmediateDominator(postOrder[i - 1]);
        i := i - 1;
      }
      FinishedPass(GraphShape(), entry, SearchState(), immediateDominators);
    }

    // The body of the loop: the entry has its immediate dominator already.
    method SetImmediateDominator(block: nat)
      requires Completed(GraphShape(), entry, SearchState()) && 0 !in visitOrder && block in visitOrder
      requires block in immediateDominators <==> block == entry
      requires ExactAbove(entry, SearchState(), immediateDominators,
                 if block == entry then visitOrder[block] - 1 else visitOrder[block])
      modifies `precedingEdges, `immediateDominators
      ensures Completed(GraphShape(), entry, SearchState())
      ensures ExactAbove(entry, SearchState(), immediateDominators, visitOrder[block] - 1)
      ensures immediateDominators.Keys == old(immediateDominators.Keys) + {block}
    {
      hide Completed, ExactAbove, ShapeOf;
      if block !in precedingEdges {
        EmptyEntryKeeps(GraphShape(), entry, SearchState(), block, immediateDominators,
          if block == entry then visitOrder[block] - 1 else visitOrder[block]);
        precedingEdges := precedingEdges[block := []];
      }
      EntryIsExact(GraphShape(), entry, SearchState());
      if block != entry {
        HasPredecessors(GraphShape(), entry, SearchState(), block);
      }
      if precedingEdges[block] != [] {
        GatherPredecessors(block);
        LowerByOne(GraphShape(), entry, SearchState(), immediateDominators, block);
      }
    }

    // The inner loop of the pass: fold the predecessors of one block.
    method GatherPredecessors(block: nat)
      requires Completed(GraphShape(), entry, SearchState())
      requires 0 !in visitOrder && block in visitOrder && block in precedingEdges
      requires block != entry && block !in immediateDominators
      requires ExactAbove(entry, SearchState(), immediateDominators, visitOrder[block])
      modifies `immediateDominators
      ensures ExactAbove(entry, SearchState(), immediateDominators, visitOrder[block])
      ensures EntryExact(entry, SearchState(), immediateDominators, block)
      ensures immediateDominators.Keys == old(immediateDominators.Keys) + {block}
    {
      hide Completed, ExactAbove, ShapeOf, Gathered, EntryExact, IsCommonDominator;
      ghost var s := SearchState();
      HasPredecessors(GraphShape(), entry, s, block);
      var pred := precedingEdges[block];
      for j := 0 to |pred|
        invariant ExactAbove(entry, s, immediateDominators, visitOrder[block])
        invariant j == 0 ==> immediateDominators == old(immediateDominators)
        invariant j > 0 ==> immediateDominators.Keys == old(immediateDominators.Keys) + {block}
        invariant j > 0 ==> Gathered(entry, s, immediateDominators[block], pred, j)
        invariant j > 0 ==> immediateDominators[block] in visitOrder
        invariant j > 0 ==> visitOrder[immediateDominators[block]] > visitOrder[block]
      {
        var edge := pred[j];
        PredecessorIsDone(entry, s, immediateDominators, block, edge);
        if block !in immediateDominators {
          UpdateKeeps(entry, s, immediateDominators, visitOrder[block], block, 0);
          immediateDominators := immediateDominators[block := 0];
        }
        if immediateDominators[block] != 0 {
          assert edge in immediateDominators && immediateDominators[edge] != 0;
          var common := FindCommonDominator(immediateDominators[block], edge, visitOrder[block]);
          GatherNext(entry, s, immediateDominators[block], pred, j, common);
          UpdateKeeps(entry, s, immediateDominators, visitOrder[block], block, common);
          immediateDominators := immediateDominators[block := common];
        } else {
          GatherFirst(entry, s, pred);
          UpdateKeeps(entry, s, immediateDominators, visitOrder[block], block, edge);
          immediateDominators := immediateDominators[block := edge];
        }
      }
      GatheredIsImmediate(GraphShape(), entry, s, block, immediateDominators[block]);
    }
  }
}
