// The basic blocks of one function, as the parser hands them to the CFG.
module Blocks {

  datatype Terminator = Unknown | Direct | Select | MultiSelect | Return | Unreachable | Kill

  datatype Merge = MergeNone | MergeLoop | MergeSelection

  // A phi of a block: a branch from `parent` stores `localVariable` in `functionVariable`.
  datatype Phi = Phi(localVariable: nat, parent: nat, functionVariable: nat)

  datatype Block = Block(
    terminator: Terminator,
    merge: Merge,
    nextBlock: nat,
    mergeBlock: nat,
    continueBlock: nat,
    trueBlock: nat,
    falseBlock: nat,
    defaultBlock: nat,
    cases: seq<nat>,
    ops: seq<nat>,
    phis: seq<Phi>,
    complexContinue: bool,
    loopDominator: nat)

  type Program = map<nat, Block>

  // The identifier that stands for "no loop dominator".
  const NO_DOMINATOR: nat := 0xffff_ffff

  // The blocks the terminator can branch to, in the order the visitor tries them.
  ghost function BranchTargets(b: Block): seq<nat> {
    match b.terminator
    case Direct => [b.nextBlock]
    case Select => [b.trueBlock, b.falseBlock]
    case MultiSelect => b.cases + (if b.defaultBlock != 0 then [b.defaultBlock] else [])
    case _ => []
  }

  // The merge target of a loop header, which the graph treats as a branch.
  ghost function LoopMerge(b: Block): seq<nat> {
    if b.merge == MergeLoop then [b.mergeBlock] else []
  }

  // The merge target of a selection header.
  ghost function SelectionMerge(b: Block): seq<nat> {
    if b.merge == MergeSelection then [b.nextBlock] else []
  }

  // Everything the visitor walks into from a block.
  ghost function Targets(b: Block): seq<nat> {
    LoopMerge(b) + BranchTargets(b) + SelectionMerge(b)
  }

  // 0 is "no block", and every target of a block is a block.
  ghost predicate WellFormed(g: Program, entry: nat) {
    && 0 !in g
    && entry in g
    && forall b, t :: b in g && t in Targets(g[b]) ==> t in g
  }
}
