// A walk over recorded edges that calls back on every block it sees for the first time.
module Walks {
  import opened Sets
  import opened Paths
  import opened Search

  // A path over blocks not seen before the walk, whose blocks but the last all ask for
  // the walk to go on.
  ghost predicate FreshPath(g: Graph, op: nat -> bool, seen: set<nat>, a: nat, b: nat, p: seq<nat>) {
    && PathBetween(g, a, b, p)
    && (forall x :: x in p ==> x !in seen)
    && (forall i :: 0 <= i < |p| - 1 ==> op(p[i]))
  }

  ghost predicate FreshReaches(g: Graph, op: nat -> bool, seen: set<nat>, a: nat, b: nat) {
    exists p :: FreshPath(g, op, seen, a, b, p)
  }

  // The new blocks are followed wherever the callback asks for it.
  ghost predicate Followed(g: Graph, op: nat -> bool, before: set<nat>, after: set<nat>) {
    forall x, y :: x in after && x !in before && op(x) && Edge(g, x, y) ==> y in after
  }

  lemma {:induction false} FollowedHoldsPath(g: Graph, op: nat -> bool, before: set<nat>, after: set<nat>, p: seq<nat>)
    requires IsPath(g, p) && p[0] in after && Followed(g, op, before, after)
    requires forall x :: x in p ==> x !in before
    requires forall i :: 0 <= i < |p| - 1 ==> op(p[i])
    ensures p[|p| - 1] in after
    decreases |p|
  {
    if |p| > 1 {
      var q := p[..|p| - 1];
      FollowedHoldsPath(g, op, before, after, q);
      assert p[|p| - 2] in p;
    }
  }

  lemma FreshStep(g: Graph, op: nat -> bool, before: set<nat>, later: set<nat>, a: nat, b: nat, x: nat)
    requires Edge(g, a, b) && op(a) && a !in before && a in later && before <= later
    requires FreshReaches(g, op, later, b, x)
    ensures FreshReaches(g, op, before, a, x)
  {
    var p :| FreshPath(g, op, later, b, x, p);
    SingletonPath(g, a);
    ExtendPath(g, a, a, b, [a]);
    JoinPaths(g, a, b, x, [a] + [b], p);
    assert [a] + [b] + p[1..] == [a] + p;
    assert FreshPath(g, op, before, a, x, [a] + p);
  }

  class Walker {
    const g: Graph
    const op: nat -> bool
    var seenBlocks: set<nat>
    // The blocks `op` was called on, in order.
    var calls: seq<nat>

    constructor (g: Graph, op: nat -> bool, seenBlocks: set<nat>)
      ensures this.g == g && this.op == op && this.seenBlocks == seenBlocks && calls == []
    {
      this.g, this.op, this.seenBlocks, this.calls := g, op, seenBlocks, [];
    }

    // Afterwards exactly the blocks with a fresh path from here were added, and the
    // callback was called once on each of them.
    method WalkFrom(block: nat, ghost universe: set<nat>)
      requires block in universe && forall a, b :: Edge(g, a, b) ==> b in universe
      modifies this
      ensures block in seenBlocks && old(seenBlocks) <= seenBlocks
      ensures forall x :: x in seenBlocks <==>
                x in old(seenBlocks) || FreshReaches(g, op, old(seenBlocks), block, x)
      ensures Followed(g, op, old(seenBlocks), seenBlocks)
      ensures old(calls) <= calls && Distinct(calls[|old(calls)|..])
      ensures Elements(calls[|old(calls)|..]) == seenBlocks - old(seenBlocks)
      decreases universe - seenBlocks
    {
      hide FreshReaches, Followed, Distinct, Elements;
      ghost var before, called := seenBlocks, calls;
      if block in seenBlocks {
        AlreadySeen(g, op, before, block);
        NothingCalled(calls, seenBlocks);
        return;
      }
      seenBlocks := seenBlocks + {block};
      calls := calls + [block];
      CalledOnce(called, block, before);
      StartOfWalk(g, op, before, block);
      if op(block) {
        var succ := EdgesOf(g, block);
        for i := 0 to |succ|
          invariant block in seenBlocks && before <= seenBlocks
          invariant forall j :: 0 <= j < i ==> succ[j] in seenBlocks
          invariant forall x :: x in seenBlocks ==> x in before || FreshReaches(g, op, before, block, x)
          invariant Followed(g, op, before + {block}, seenBlocks)
          invariant called <= calls && Distinct(calls[|called|..])
          invariant Elements(calls[|called|..]) == seenBlocks - before
        {
          assert Edge(g, block, succ[i]);
          ghost var seen, made := seenBlocks, calls;
          assert universe - seen < universe - before by {
            assert block in universe - before;
          }
          WalkFrom(succ[i], universe);
          forall x | x in seenBlocks ensures x in before || FreshReaches(g, op, before, block, x) {
            if x !in seen {
              FreshStep(g, op, before, seen, block, succ[i], x);
            }
          }
          FollowedJoin(g, op, before + {block}, seen, seenBlocks);
          CallsJoin(called, made, calls, before, seen, seenBlocks);
        }
        EndOfWalk(g, op, before, block, seenBlocks);
      } else {
        NotFollowed(g, op, before, block);
      }
      WalkIsComplete(g, op, before, block, seenBlocks);
    }
  }

  lemma AlreadySeen(g: Graph, op: nat -> bool, seen: set<nat>, a: nat)
    requires a in seen
    ensures Followed(g, op, seen, seen)
    ensures forall x :: !FreshReaches(g, op, seen, a, x)
  {}

  lemma NothingCalled(calls: seq<nat>, seen: set<nat>)
    ensures Distinct(calls[|calls|..]) && Elements(calls[|calls|..]) == seen - seen
  {}

  lemma CalledOnce(called: seq<nat>, b: nat, before: set<nat>)
    requires b !in before
    ensures Distinct((called + [b])[|called|..]) && Elements((called + [b])[|called|..]) == before + {b} - before
  {}

  lemma StartOfWalk(g: Graph, op: nat -> bool, before: set<nat>, a: nat)
    requires a !in before
    ensures FreshReaches(g, op, before, a, a)
    ensures Followed(g, op, before + {a}, before + {a})
  {
    SingletonPath(g, a);
    assert FreshPath(g, op, before, a, a, [a]);
  }

  lemma FollowedJoin(g: Graph, op: nat -> bool, a: set<nat>, b: set<nat>, c: set<nat>)
    requires b <= c && Followed(g, op, a, b) && Followed(g, op, b, c)
    ensures Followed(g, op, a, c)
  {}

  lemma CallsJoin(first: seq<nat>, second: seq<nat>, third: seq<nat>, a: set<nat>, b: set<nat>, c: set<nat>)
    requires first <= second <= third && a <= b <= c
    requires Distinct(second[|first|..]) && Elements(second[|first|..]) == b - a
    requires Distinct(third[|second|..]) && Elements(third[|second|..]) == c - b
    ensures first <= third && Distinct(third[|first|..]) && Elements(third[|first|..]) == c - a
  {
    var x, y := second[|first|..], third[|second|..];
    assert third[|first|..] == x + y;
    assert forall i :: 0 <= i < |x| ==> x[i] in Elements(x);
    assert forall i :: 0 <= i < |y| ==> y[i] in Elements(y);
    assert Elements(x + y) == Elements(x) + Elements(y);
  }

  lemma EndOfWalk(g: Graph, op: nat -> bool, before: set<nat>, a: nat, after: set<nat>)
    requires forall j :: 0 <= j < |EdgesOf(g, a)| ==> EdgesOf(g, a)[j] in after
    requires Followed(g, op, before + {a}, after)
    ensures Followed(g, op, before, after)
  {
    forall y | Edge(g, a, y) ensures y in after {
      var j :| 0 <= j < |EdgesOf(g, a)| && EdgesOf(g, a)[j] == y;
    }
  }

  lemma NotFollowed(g: Graph, op: nat -> bool, before: set<nat>, a: nat)
    requires !op(a)
    ensures Followed(g, op, before, before + {a})
  {}

  lemma WalkIsComplete(g: Graph, op: nat -> bool, before: set<nat>, a: nat, after: set<nat>)
    requires a in after && Followed(g, op, before, after)
    ensures forall x :: FreshReaches(g, op, before, a, x) ==> x in after
  {
    forall x | FreshReaches(g, op, before, a, x) ensures x in after {
      var p :| FreshPath(g, op, before, a, x, p);
      FollowedHoldsPath(g, op, before, after, p);
    }
  }

  // A walk that starts with nothing seen and always goes on visits the reachable blocks.
  lemma UnrestrictedIsReachability(g: Graph, op: nat -> bool, a: nat, b: nat)
    requires forall x :: op(x)
    ensures FreshReaches(g, op, {}, a, b) <==> Reaches(g, a, b)
  {
    if p :| PathBetween(g, a, b, p) {
      assert FreshPath(g, op, {}, a, b, p);
    }
  }
}
