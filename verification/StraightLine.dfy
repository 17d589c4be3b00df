// Straight-line execution between blocks, and the shape of a continue block.
module StraightLine {
  import opened Sets
  import opened Blocks

  // A block that ends in a plain branch and heads no construct.
  ghost predicate Straight(b: Block) {
    b.terminator == Direct && b.merge == MergeNone
  }

  // Every plain branch goes to a block.
  ghost predicate BranchesResolve(g: Program) {
    forall a :: a in g && Straight(g[a]) ==> g[a].nextBlock in g
  }

  // n plain branches lead from a to b.
  ghost predicate ChainTo(g: Program, a: nat, b: nat, n: nat)
    decreases n
  {
    if n == 0 then a == b else a in g && Straight(g[a]) && ChainTo(g, g[a].nextBlock, b, n - 1)
  }

  ghost predicate OnChain(g: Program, a: nat, b: nat) {
    exists n :: ChainTo(g, a, b, n)
  }

  // Walking from a meets `to`, or a block that does not branch plainly. Without this
  // the walk would not end.
  ghost predicate ChainEnds(g: Program, a: nat, to: nat) {
    exists n, last :: ChainTo(g, a, last, n) && StopsAt(g, last, to)
  }

  ghost predicate StopsAt(g: Program, last: nat, to: nat) {
    last == to || (last in g && !Straight(g[last]))
  }

  // Every cycle of branches passes a header or a conditional branch.
  ghost predicate NoBareCycle(g: Program) {
    forall a, n: nat :: n > 0 ==> !ChainTo(g, a, a, n)
  }

  lemma {:induction false} ChainJoin(g: Program, a: nat, b: nat, c: nat, m: nat, n: nat)
    requires ChainTo(g, a, b, m) && ChainTo(g, b, c, n)
    ensures ChainTo(g, a, c, m + n)
    decreases m
  {
    if m > 0 {
      ChainJoin(g, g[a].nextBlock, b, c, m - 1, n);
    }
  }

  // The chain is deterministic: a longer walk passes where a shorter one ended.
  lemma {:induction false} ChainSplit(g: Program, a: nat, b: nat, c: nat, m: nat, n: nat)
    requires ChainTo(g, a, b, m) && ChainTo(g, a, c, n) && m <= n
    ensures ChainTo(g, b, c, n - m)
    decreases m
  {
    if m > 0 {
      ChainSplit(g, g[a].nextBlock, b, c, m - 1, n - 1);
    }
  }

  // The first n blocks of the chain from a.
  ghost function Trail(g: Program, a: nat, n: nat): seq<nat>
    decreases n
  {
    if n == 0 || a !in g then [] else [a] + Trail(g, g[a].nextBlock, n - 1)
  }

  lemma {:induction false} TrailLength(g: Program, a: nat, b: nat, n: nat)
    requires ChainTo(g, a, b, n)
    ensures |Trail(g, a, n)| == n
    decreases n
  {
    if n > 0 {
      TrailLength(g, g[a].nextBlock, b, n - 1);
    }
  }

  lemma {:induction false} TrailIsOnChain(g: Program, a: nat, b: nat, n: nat, i: nat)
    requires ChainTo(g, a, b, n) && i < n && |Trail(g, a, n)| == n
    ensures ChainTo(g, a, Trail(g, a, n)[i], i) && Trail(g, a, n)[i] in g
    decreases i
  {
    if i > 0 {
      TrailIsOnChain(g, g[a].nextBlock, b, n - 1, i - 1);
    }
  }

  // Without a bare cycle no chain is longer than the number of blocks.
  lemma ChainIsShort(g: Program, a: nat, b: nat, n: nat)
    requires NoBareCycle(g) && ChainTo(g, a, b, n)
    ensures n <= |g|
  {
    var t := Trail(g, a, n);
    TrailLength(g, a, b, n);
    forall i, j | 0 <= i < j < n ensures t[i] != t[j] {
      TrailIsOnChain(g, a, b, n, i);
      TrailIsOnChain(g, a, b, n, j);
      ChainSplit(g, a, t[i], t[j], i, j);
    }
    forall x | x in t ensures x in g.Keys {
      var i :| 0 <= i < n && t[i] == x;
      TrailIsOnChain(g, a, b, n, i);
    }
    DistinctFits(t, g.Keys);
  }

  lemma {:induction false} WalkOn(g: Program, a: nat, b: nat, n: nat, to: nat)
    requires BranchesResolve(g) && NoBareCycle(g) && b in g && ChainTo(g, a, b, n)
    ensures ChainEnds(g, a, to)
    decreases |g| + 1 - n
  {
    ChainIsShort(g, a, b, n);
    if !StopsAt(g, b, to) {
      assert ChainTo(g, g[b].nextBlock, g[b].nextBlock, 0);
      assert ChainTo(g, b, g[b].nextBlock, 1);
      ChainJoin(g, a, b, g[b].nextBlock, n, 1);
      WalkOn(g, a, g[b].nextBlock, n + 1, to);
    }
  }

  // So if every branch cycle contains a header, the walk always ends.
  lemma EveryChainEnds(g: Program, a: nat, to: nat)
    requires BranchesResolve(g) && NoBareCycle(g) && a in g
    ensures ChainEnds(g, a, to)
  {
    assert ChainTo(g, a, a, 0);
    WalkOn(g, a, a, 0, to);
  }

  // The walk has gone n steps to `start` without meeting `to`.
  ghost predicate Walked(g: Program, a: nat, start: nat, to: nat, n: nat) {
    && ChainTo(g, a, start, n)
    && forall k: nat :: k < n ==> !ChainTo(g, a, to, k)
  }

  lemma WalkedStep(g: Program, a: nat, start: nat, to: nat, n: nat)
    requires Walked(g, a, start, to, n) && start != to && start in g && Straight(g[start])
    ensures Walked(g, a, g[start].nextBlock, to, n + 1)
  {
    assert ChainTo(g, g[start].nextBlock, g[start].nextBlock, 0);
    assert ChainTo(g, start, g[start].nextBlock, 1);
    ChainJoin(g, a, start, g[start].nextBlock, n, 1);
    if ChainTo(g, a, to, n) {
      ChainSplit(g, a, start, to, n, n);
    }
  }

  // A walk that has not met its end point is shorter than the chain to it.
  lemma WalkedIsBefore(g: Program, a: nat, start: nat, to: nat, n: nat, last: nat, m: nat)
    requires Walked(g, a, start, to, n) && start in g && start != to && Straight(g[start])
    requires ChainTo(g, a, last, m) && StopsAt(g, last, to)
    ensures n < m
  {
    if m <= n {
      ChainSplit(g, a, last, start, m, n);
    }
  }

  lemma StoppedShort(g: Program, a: nat, start: nat, to: nat, n: nat)
    requires Walked(g, a, start, to, n) && start in g && start != to && !Straight(g[start])
    ensures !OnChain(g, a, to)
  {
    if m: nat :| ChainTo(g, a, to, m) {
      if m >= n {
        ChainSplit(g, a, start, to, n, m);
      }
    }
  }

  // True iff plain branches alone lead from `from` to `to`.
  method ExecutionIsBranchless(g: Program, from: nat, to: nat) returns (r: bool)
    requires BranchesResolve(g) && from in g && ChainEnds(g, from, to)
    ensures r <==> OnChain(g, from, to)
  {
    ghost var m, last :| ChainTo(g, from, last, m) && StopsAt(g, last, to);
    var start := from;
    ghost var n := 0;
    while true
      invariant start in g && Walked(g, from, start, to, n)
      decreases m - n
    {
      if start == to {
        return true;
      }
      if g[start].terminator == Direct && g[start].merge == MergeNone {
        WalkedIsBefore(g, from, start, to, n, last, m);
        WalkedStep(g, from, start, to, n);
        start := g[start].nextBlock;
        n := n + 1;
      } else {
        StoppedShort(g, from, start, to, n);
        return false;
      }
    }
  }

  // ---- No-op execution ----

  // Branching from block a to block b assigns to a phi of b.
  ghost predicate FlushesPhi(g: Program, a: nat, b: nat)
    requires b in g
  {
    exists i :: 0 <= i < |g[b].phis| && g[b].phis[i].parent == a
  }

  method FlushPhiRequired(g: Program, from: nat, to: nat) returns (r: bool)
    requires to in g
    ensures r <==> FlushesPhi(g, from, to)
  {
    for i := 0 to |g[to].phis|
      invariant forall j :: 0 <= j < i ==> g[to].phis[j].parent != from
    {
      if g[to].phis[i].parent == from {
        return true;
      }
    }
    return false;
  }

  // One step of the chain that runs no instruction and assigns no phi.
  ghost predicate NoopStep(g: Program, a: nat) {
    && a in g && Straight(g[a]) && g[a].nextBlock in g
    && g[a].ops == [] && !FlushesPhi(g, a, g[a].nextBlock)
  }

  ghost predicate NoopTo(g: Program, a: nat, b: nat, n: nat)
    decreases n
  {
    if n == 0 then a == b else NoopStep(g, a) && NoopTo(g, g[a].nextBlock, b, n - 1)
  }

  ghost predicate OnNoopChain(g: Program, a: nat, b: nat) {
    exists n :: NoopTo(g, a, b, n)
  }

  lemma {:induction false} NoopIsChain(g: Program, a: nat, b: nat, n: nat)
    requires NoopTo(g, a, b, n)
    ensures ChainTo(g, a, b, n)
    decreases n
  {
    if n > 0 {
      NoopIsChain(g, g[a].nextBlock, b, n - 1);
    }
  }

  lemma {:induction false} NoopJoin(g: Program, a: nat, b: nat, c: nat, m: nat, n: nat)
    requires NoopTo(g, a, b, m) && NoopTo(g, b, c, n)
    ensures NoopTo(g, a, c, m + n)
    decreases m
  {
    if m > 0 {
      NoopJoin(g, g[a].nextBlock, b, c, m - 1, n);
    }
  }

  lemma {:induction false} NoopSplit(g: Program, a: nat, b: nat, c: nat, m: nat, n: nat)
    requires ChainTo(g, a, b, m) && NoopTo(g, a, c, n) && m <= n
    ensures NoopTo(g, b, c, n - m)
    decreases m
  {
    if m > 0 {
      NoopSplit(g, g[a].nextBlock, b, c, m - 1, n - 1);
    }
  }

  lemma NoopStepOn(g: Program, a: nat, start: nat, to: nat, n: nat)
    requires NoopTo(g, a, start, n) && NoopStep(g, start)
    ensures NoopTo(g, a, g[start].nextBlock, n + 1)
  {
    assert NoopTo(g, g[start].nextBlock, g[start].nextBlock, 0);
    assert NoopTo(g, start, g[start].nextBlock, 1);
    NoopJoin(g, a, start, g[start].nextBlock, n, 1);
  }

  lemma NotNoop(g: Program, a: nat, start: nat, to: nat, n: nat)
    requires Walked(g, a, start, to, n) && start != to && !NoopStep(g, start)
    ensures !OnNoopChain(g, a, to)
  {
    if m: nat :| NoopTo(g, a, to, m) {
      NoopIsChain(g, a, to, m);
      assert m >= n;
      NoopSplit(g, a, start, to, n, m);
    }
  }

  lemma {:induction false} NextOnChain(g: Program, a: nat, start: nat, to: nat, n: nat)
    requires Walked(g, a, start, to, n) && start != to && OnChain(g, a, to)
    ensures start in g && Straight(g[start])
  {
    var m: nat :| ChainTo(g, a, to, m);
    assert m >= n;
    ChainSplit(g, a, start, to, n, m);
  }

  // True iff moreover no instruction runs and no phi is assigned on the way.
  method ExecutionIsNoop(g: Program, from: nat, to: nat) returns (r: bool)
    requires BranchesResolve(g) && from in g && ChainEnds(g, from, to)
    ensures r <==> OnNoopChain(g, from, to)
  {
    var branchless := ExecutionIsBranchless(g, from, to);
    if !branchless {
      if n: nat :| NoopTo(g, from, to, n) {
        NoopIsChain(g, from, to, n);
      }
      return false;
    }
    ghost var m: nat :| ChainTo(g, from, to, m);
    var start := from;
    ghost var n := 0;
    while true
      invariant start in g && Walked(g, from, start, to, n) && NoopTo(g, from, start, n)
      decreases m - n
    {
      if start == to {
        return true;
      }
      NextOnChain(g, from, start, to, n);
      if g[start].ops != [] {
        NotNoop(g, from, start, to, n);
        return false;
      }
      var next := g[start].nextBlock;
      var flush := FlushPhiRequired(g, start, next);
      if flush {
        NotNoop(g, from, start, to, n);
        return false;
      }
      WalkedIsBefore(g, from, start, to, n, to, m);
      WalkedStep(g, from, start, to, n);
      NoopStepOn(g, from, start, to, n);
      start := next;
      n := n + 1;
    }
  }

  // ---- What running a chain does to the values of variables ----

  type Store = map<nat, int>

  ghost function RunOps(exec: (nat, Store) -> Store, ops: seq<nat>, store: Store): Store {
    if ops == [] then store else RunOps(exec, ops[1..], exec(ops[0], store))
  }

  ghost function Flush(phis: seq<Phi>, parent: nat, store: Store): Store {
    if phis == [] then store
    else if phis[0].parent == parent && phis[0].localVariable in store then
      Flush(phis[1..], parent, store[phis[0].functionVariable := store[phis[0].localVariable]])
    else Flush(phis[1..], parent, store)
  }

  // The store after n steps from block a.
  ghost function RunChain(g: Program, exec: (nat, Store) -> Store, a: nat, n: nat, store: Store): Store
    decreases n
  {
    if n == 0 || a !in g || g[a].nextBlock !in g then store
    else
      var next := g[a].nextBlock;
      RunChain(g, exec, next, n - 1, Flush(g[next].phis, a, RunOps(exec, g[a].ops, store)))
  }

  lemma {:induction false} FlushNothing(phis: seq<Phi>, parent: nat, store: Store)
    requires forall i :: 0 <= i < |phis| ==> phis[i].parent != parent
    ensures Flush(phis, parent, store) == store
  {
    if phis != [] {
      FlushNothing(phis[1..], parent, store);
    }
  }

  // Whatever the instructions mean, running a no-op chain leaves every variable alone.
  lemma {:induction false} NoopPreservesStore(g: Program, exec: (nat, Store) -> Store, a: nat, b: nat, n: nat,
      store: Store)
    requires NoopTo(g, a, b, n)
    ensures RunChain(g, exec, a, n, store) == store
    decreases n
  {
    if n > 0 {
      FlushNothing(g[g[a].nextBlock].phis, a, store);
      NoopPreservesStore(g, exec, g[a].nextBlock, b, n - 1, store);
    }
  }

  // A continue block on a no-op chain gets back to its header with every variable as
  // it was.
  lemma NoopReturnsUnchanged(g: Program, exec: (nat, Store) -> Store, a: nat, b: nat, store: Store)
    requires OnNoopChain(g, a, b)
    ensures exists n: nat :: ChainTo(g, a, b, n) && RunChain(g, exec, a, n, store) == store
  {
    var n: nat :| NoopTo(g, a, b, n);
    NoopIsChain(g, a, b, n);
    NoopPreservesStore(g, exec, a, b, n, store);
  }

  // ---- Continue blocks ----

  datatype ContinueBlockType = ForLoop | WhileLoop | DoWhileLoop | ComplexLoop

  // One branch of the continue block returns to the header `d`, the other leaves the
  // loop: it is the merge block or a block that does nothing before reaching it.
  ghost predicate LeavesLoop(g: Program, exit: nat, d: nat)
    requires d in g
  {
    exit == g[d].mergeBlock || (exit in g && g[d].mergeBlock in g && OnNoopChain(g, exit, g[d].mergeBlock))
  }

  ghost predicate IsDoWhile(g: Program, b: nat, d: nat)
    requires b in g && d in g
  {
    && g[b].terminator == Select && g[b].merge == MergeNone
    && (g[b].trueBlock in g ==> !FlushesPhi(g, b, g[b].trueBlock))
    && (g[b].falseBlock in g ==> !FlushesPhi(g, b, g[b].falseBlock))
    && ((g[b].trueBlock == d && LeavesLoop(g, g[b].falseBlock, d))
        || (g[b].falseBlock == d && LeavesLoop(g, g[b].trueBlock, d)))
  }

  // Taking the arm from block b, with these values after b's instructions, assigns no phi,
  // and goes to `to` or does nothing before it gets there.
  ghost predicate ArmKeeps(g: Program, exec: (nat, Store) -> Store, b: nat, arm: nat, to: nat, store: Store) {
    && (arm in g ==> Flush(g[arm].phis, b, store) == store)
    && exists n: nat :: ChainTo(g, arm, to, n) && RunChain(g, exec, arm, n, store) == store
  }

  // After the instructions of a do-while block one arm is the header and the other gets to
  // the merge block, and on either way no variable changes: the instructions and the
  // condition are all there is to the loop test.
  lemma DoWhileArms(g: Program, exec: (nat, Store) -> Store, b: nat, d: nat, store: Store)
    requires b in g && d in g && IsDoWhile(g, b, d)
    ensures var after := RunOps(exec, g[b].ops, store);
            var back, exit := g[b].trueBlock, g[b].falseBlock;
            || (back == d && ArmKeeps(g, exec, b, back, d, after) && ArmKeeps(g, exec, b, exit, g[d].mergeBlock, after))
            || (exit == d && ArmKeeps(g, exec, b, exit, d, after) && ArmKeeps(g, exec, b, back, g[d].mergeBlock, after))
  {
    hide ArmKeeps, RunOps, RunChain, OnNoopChain, FlushesPhi;
    var after := RunOps(exec, g[b].ops, store);
    if g[b].trueBlock == d && LeavesLoop(g, g[b].falseBlock, d) {
      ArmToItself(g, exec, b, d, after);
      ArmOutOfLoop(g, exec, b, g[b].falseBlock, d, after);
    } else {
      ArmToItself(g, exec, b, d, after);
      ArmOutOfLoop(g, exec, b, g[b].trueBlock, d, after);
    }
  }

  lemma ArmToItself(g: Program, exec: (nat, Store) -> Store, b: nat, arm: nat, store: Store)
    requires arm in g ==> !FlushesPhi(g, b, arm)
    ensures ArmKeeps(g, exec, b, arm, arm, store)
  {
    if arm in g {
      FlushNothing(g[arm].phis, b, store);
    }
    assert ChainTo(g, arm, arm, 0) && RunChain(g, exec, arm, 0, store) == store;
  }

  lemma ArmOutOfLoop(g: Program, exec: (nat, Store) -> Store, b: nat, arm: nat, d: nat, store: Store)
    requires d in g && LeavesLoop(g, arm, d) && (arm in g ==> !FlushesPhi(g, b, arm))
    ensures ArmKeeps(g, exec, b, arm, g[d].mergeBlock, store)
  {
    ArmToItself(g, exec, b, arm, store);
    if arm != g[d].mergeBlock {
      NoopReturnsUnchanged(g, exec, arm, g[d].mergeBlock, store);
    }
  }

  // Nothing is emitted for a continue block that is too complex, or that no loop reaches.
  ghost predicate Hopeless(b: Block) {
    b.complexContinue || (b.merge != MergeLoop && b.loopDominator == NO_DOMINATOR)
  }

  method ClassifyContinueBlock(g: Program, b: nat) returns (r: ContinueBlockType)
    requires BranchesResolve(g) && NoBareCycle(g) && b in g
    requires g[b].loopDominator != NO_DOMINATOR ==> g[b].loopDominator in g
    ensures r.WhileLoop? <==>
              !Hopeless(g[b]) && (g[b].merge == MergeLoop || OnNoopChain(g, b, g[b].loopDominator))
    ensures r.ForLoop? <==>
              !Hopeless(g[b]) && g[b].merge != MergeLoop
              && OnChain(g, b, g[b].loopDominator) && !OnNoopChain(g, b, g[b].loopDominator)
    ensures r.DoWhileLoop? <==>
              !Hopeless(g[b]) && g[b].merge != MergeLoop
              && !OnChain(g, b, g[b].loopDominator) && IsDoWhile(g, b, g[b].loopDominator)
  {
    var block := g[b];
    if block.complexContinue {
      return ComplexLoop;
    }
    if block.merge == MergeLoop {
      return WhileLoop;
    }
    if block.loopDominator == NO_DOMINATOR {
      return ComplexLoop;
    }
    var d := block.loopDominator;
    EveryChainEnds(g, b, d);
    NoopIsOnChain(g, b, d);
    var noop := ExecutionIsNoop(g, b, d);
    if noop {
      return WhileLoop;
    }
    var branchless := ExecutionIsBranchless(g, b, d);
    if branchless {
      return ForLoop;
    }
    var flushToFalse, flushToTrue := false, false;
    if block.falseBlock in g {
      flushToFalse := FlushPhiRequired(g, b, block.falseBlock);
    }
    if block.trueBlock in g {
      flushToTrue := FlushPhiRequired(g, b, block.trueBlock);
    }
    if flushToFalse || flushToTrue {
      return ComplexLoop;
    }
    var falseLeaves := ReachesMerge(g, block.falseBlock, d);
    var positive := block.trueBlock == d && falseLeaves;
    var trueLeaves := ReachesMerge(g, block.trueBlock, d);
    var negative := block.falseBlock == d && trueLeaves;
    if block.merge == MergeNone && block.terminator == Select && (positive || negative) {
      return DoWhileLoop;
    }
    return ComplexLoop;
  }

  method ReachesMerge(g: Program, exit: nat, d: nat) returns (r: bool)
    requires BranchesResolve(g) && NoBareCycle(g) && d in g
    ensures r <==> LeavesLoop(g, exit, d)
  {
    if exit == g[d].mergeBlock {
      return true;
    }
    if exit in g && g[d].mergeBlock in g {
      EveryChainEnds(g, exit, g[d].mergeBlock);
      r := ExecutionIsNoop(g, exit, g[d].mergeBlock);
      return;
    }
    return false;
  }

  lemma NoopIsOnChain(g: Program, a: nat, b: nat)
    ensures OnNoopChain(g, a, b) ==> OnChain(g, a, b)
  {
    if n: nat :| NoopTo(g, a, b, n) {
      NoopIsChain(g, a, b, n);
    }
  }
}
