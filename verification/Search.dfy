// The state of the depth-first search that numbers the blocks, its invariant, and
// what each elementary step keeps of it.
module Search {
  import opened Sets
  import opened Paths

  // visit_order, post_order, preceding_edges and succeeding_edges. A block that is
  // still on the recursion stack has order 0.
  datatype State = State(order: map<nat, int>, post: seq<nat>, pred: Graph, succ: Graph)

  function EdgesOf(m: Graph, k: nat): seq<nat> {
    if k in m then m[k] else []
  }

  function AddUnique(l: seq<nat>, v: nat): seq<nat> {
    if v in l then l else l + [v]
  }

  ghost predicate Done(s: State, b: nat) {
    b in s.order && s.order[b] > 0
  }

  ghost predicate Open(s: State, b: nat) {
    b in s.order && s.order[b] == 0
  }

  // What the search explores: it walks along every edge of `walk`, must record every
  // edge of `must` whose end it finished first, and stays inside the set `reach`. An edge
  // of `joins` leads from a selection header to its merge block; `switches` are the
  // headers that branch more than two ways.
  datatype Shape = Shape(walk: Graph, must: Graph, reach: set<nat>, joins: Graph, switches: set<nat>)

  ghost predicate ShapeOk(g: Shape, entry: nat) {
    && entry in g.reach
    && (forall a, b :: Edge(g.must, a, b) ==> Edge(g.walk, a, b))
    && (forall a, b :: a in g.reach && Edge(g.walk, a, b) ==> b in g.reach)
  }

  ghost predicate ReachIsExact(g: Shape, entry: nat) {
    forall b :: b in g.reach ==> Reaches(g.walk, entry, b)
  }

  // Finished blocks are numbered from one in the order they were finished.
  ghost predicate Numbered(order: map<nat, int>, post: seq<nat>) {
    && (forall i :: 0 <= i < |post| ==> post[i] in order && order[post[i]] == i + 1)
    && (forall b :: b in order ==>
          order[b] == 0 || (1 <= order[b] <= |post| && post[order[b] - 1] == b))
  }

  // An edge map has no empty entries and lists no edge twice.
  ghost predicate Tidy(m: Graph) {
    forall b :: b in m ==> m[b] != [] && Distinct(m[b])
  }

  // The two edge maps describe the same edges.
  ghost predicate Mirrored(pred: Graph, succ: Graph) {
    forall a, b :: Edge(succ, a, b) <==> Edge(pred, b, a)
  }

  // A recorded edge follows a target, ends in a finished block, and starts in a block
  // that is unfinished or was finished later.
  ghost predicate EdgesLower(g: Shape, order: map<nat, int>, succ: Graph) {
    forall a, b :: Edge(succ, a, b) ==>
      Edge(g.walk, a, b) && a in order && b in order && order[b] > 0
      && (order[a] == 0 || order[b] < order[a])
  }

  // Every target of a finished block was seen, and its edge was recorded when it was
  // finished first.
  ghost predicate Handled(g: Shape, order: map<nat, int>, succ: Graph, a: nat)
    requires a in order
  {
    && (forall t :: Edge(g.walk, a, t) ==> t in order)
    && (forall t :: Edge(g.must, a, t) && t in order && 0 < order[t] < order[a] ==> Edge(succ, a, t))
  }

  ghost predicate AllHandled(g: Shape, order: map<nat, int>, succ: Graph) {
    forall b :: b in order && order[b] > 0 ==> Handled(g, order, succ, b)
  }

  // The predecessors of the merge block t do not all lie inside one arm of the selection
  // that a heads: the header is one of them, or there are two, and no switch whose only
  // recorded arm they may both break out of.
  ghost predicate Joined(g: Shape, pred: Graph, succ: Graph, a: nat, t: nat) {
    Edge(succ, a, t) || (|EdgesOf(pred, t)| >= 2 && !(a in g.switches && |EdgesOf(succ, a)| == 1))
  }

  ghost predicate AllJoined(g: Shape, order: map<nat, int>, pred: Graph, succ: Graph) {
    forall a, t :: Edge(g.joins, a, t) && a in order && t in order && 0 < order[t] < order[a] ==>
        Joined(g, pred, succ, a, t)
  }

  // There was reason to record the edge from a to its merge block t although a does not
  // branch to it: it gave t its first or second predecessor, or a, a switch, its second
  // and last successor.
  ghost predicate Needed(g: Shape, pred: Graph, succ: Graph, a: nat, t: nat) {
    || (exists i :: 0 <= i < |EdgesOf(pred, t)| && i < 2 && EdgesOf(pred, t)[i] == a)
    || (a in g.switches && |EdgesOf(succ, a)| == 2)
  }

  ghost predicate EdgesNeeded(g: Shape, pred: Graph, succ: Graph, a: nat) {
    forall t :: Edge(succ, a, t) && Edge(g.joins, a, t) && !Edge(g.must, a, t) ==> Needed(g, pred, succ, a, t)
  }

  ghost predicate AllNeeded(g: Shape, order: map<nat, int>, pred: Graph, succ: Graph) {
    forall a :: a in order && order[a] > 0 ==> EdgesNeeded(g, pred, succ, a)
  }

  ghost predicate Invariant(g: Shape, s: State) {
    && Numbered(s.order, s.post)
    && Tidy(s.pred) && Tidy(s.succ) && Mirrored(s.pred, s.succ)
    && EdgesLower(g, s.order, s.succ)
    && AllHandled(g, s.order, s.succ)
    && AllJoined(g, s.order, s.pred, s.succ)
    && AllNeeded(g, s.order, s.pred, s.succ)
    && s.order.Keys <= g.reach
  }

  // All finished blocks other than the entry have a predecessor.
  ghost predicate Preceded(entry: nat, s: State) {
    forall b :: Done(s, b) && b != entry ==> b in s.pred
  }

  ghost predicate PrecededBut(entry: nat, s: State, except: nat) {
    forall b :: Done(s, b) && b != entry && b != except ==> b in s.pred
  }

  // The search has gone on from s to t: nothing is forgotten, and blocks first seen
  // in between are finished.
  ghost predicate Extends(s: State, t: State) {
    && (forall b :: b in s.order ==> b in t.order && t.order[b] == s.order[b])
    && (forall b :: b in t.order && b !in s.order ==> Done(t, b))
    && s.post <= t.post
    && (forall a, b :: Edge(s.succ, a, b) ==> Edge(t.succ, a, b))
    && s.pred.Keys <= t.pred.Keys
  }

  // The target t of the open block a has been dealt with.
  ghost predicate Tried(s: State, a: nat, t: nat) {
    t in s.order && (Done(s, t) ==> Edge(s.succ, a, t))
  }

  lemma ExtendsReflexive(s: State)
    ensures Extends(s, s)
  {}

  lemma ExtendsTransitive(s: State, t: State, u: State)
    requires Extends(s, t) && Extends(t, u)
    ensures Extends(s, u)
  {}

  // What was dealt with, or was still open, stays so.
  lemma ExtendsKeeps(s: State, t: State, a: nat)
    requires Extends(s, t)
    ensures s.order.Keys <= t.order.Keys
    ensures Open(s, a) ==> Open(t, a)
    ensures forall b :: Tried(s, a, b) ==> Tried(t, a, b)
  {}

  // ---- The three elementary steps ----

  ghost function Opened(s: State, b: nat): State {
    s.(order := s.order[b := 0])
  }

  lemma OrdersNotNegative(g: Shape, s: State, b: nat)
    requires Invariant(g, s) && b in s.order
    ensures s.order[b] >= 0
  {}

  lemma StartKeeps(g: Shape, s: State)
    requires s == State(map[], [], map[], map[])
    ensures Invariant(g, s)
    ensures forall entry :: Preceded(entry, s)
  {}

  lemma OpenKeeps(g: Shape, s: State, b: nat)
    requires Invariant(g, s) && b !in s.order
    requires b in g.reach
    ensures Invariant(g, Opened(s, b))
    ensures b !in s.pred
  {
    hide Edge, Tidy, Mirrored, Handled, Joined, EdgesNeeded;
    PrecededAreDone(g, s);
    var order := s.order[b := 0];
    assert Numbered(order, s.post);
    OpenLowers(g, s.order, s.succ, b);
    OpenHandles(g, s.order, s.succ, b);
  }

  lemma OpenLowers(g: Shape, order: map<nat, int>, succ: Graph, b: nat)
    requires EdgesLower(g, order, succ) && b !in order
    ensures EdgesLower(g, order[b := 0], succ)
  {}

  lemma OpenHandles(g: Shape, order: map<nat, int>, succ: Graph, b: nat)
    requires AllHandled(g, order, succ) && b !in order
    ensures AllHandled(g, order[b := 0], succ)
  {
    var after := order[b := 0];
    forall x | x in after && after[x] > 0 ensures Handled(g, after, succ, x) {
      assert Handled(g, order, succ, x);
    }
  }

  ghost function AddEdge(m: Graph, k: nat, v: nat): Graph {
    m[k := AddUnique(EdgesOf(m, k), v)]
  }

  lemma AddEdgeAdds(m: Graph, k: nat, v: nat)
    requires Tidy(m)
    ensures Tidy(AddEdge(m, k, v))
    ensures forall x, y :: Edge(AddEdge(m, k, v), x, y) <==> Edge(m, x, y) || (x == k && y == v)
  {}

  ghost function Branched(s: State, a: nat, b: nat): State {
    s.(pred := AddEdge(s.pred, b, a), succ := AddEdge(s.succ, a, b))
  }

  lemma BranchJoins(g: Shape, s: State, a: nat, b: nat)
    requires AllJoined(g, s.order, s.pred, s.succ) && Open(s, a)
    ensures AllJoined(g, s.order, AddEdge(s.pred, b, a), AddEdge(s.succ, a, b))
  {}

  lemma BranchNeeds(g: Shape, s: State, a: nat, b: nat)
    requires AllNeeded(g, s.order, s.pred, s.succ) && Open(s, a)
    ensures AllNeeded(g, s.order, AddEdge(s.pred, b, a), AddEdge(s.succ, a, b))
  {
    var pred, succ := AddEdge(s.pred, b, a), AddEdge(s.succ, a, b);
    forall x, t | x in s.order && s.order[x] > 0 && Edge(succ, x, t) && Edge(g.joins, x, t) && !Edge(g.must, x, t)
      ensures Needed(g, pred, succ, x, t)
    {
      assert EdgesNeeded(g, s.pred, s.succ, x);
      assert Edge(s.succ, x, t);
      NeededStays(g, s, a, b, x, t);
    }
  }

  lemma NeededStays(g: Shape, s: State, a: nat, b: nat, x: nat, t: nat)
    requires Needed(g, s.pred, s.succ, x, t) && x != a
    ensures Needed(g, AddEdge(s.pred, b, a), AddEdge(s.succ, a, b), x, t)
  {
    var before, after := EdgesOf(s.pred, t), EdgesOf(AddEdge(s.pred, b, a), t);
    assert |before| <= |after| && forall i :: 0 <= i < |before| ==> after[i] == before[i];
  }

  lemma BranchKeeps(g: Shape, s: State, a: nat, b: nat)
    requires Invariant(g, s) && Open(s, a) && Edge(g.walk, a, b) && Done(s, b)
    ensures Invariant(g, Branched(s, a, b))
    ensures Extends(s, Branched(s, a, b))
    ensures Edge(Branched(s, a, b).succ, a, b) && b in Branched(s, a, b).pred
  {
    hide Joined, AllJoined, AllNeeded;
    var pred, succ := AddEdge(s.pred, b, a), AddEdge(s.succ, a, b);
    BranchJoins(g, s, a, b);
    BranchNeeds(g, s, a, b);
    AddEdgeAdds(s.pred, b, a);
    AddEdgeAdds(s.succ, a, b);
    assert Mirrored(pred, succ);
    assert EdgesLower(g, s.order, succ);
    forall x | x in s.order && s.order[x] > 0 ensures Handled(g, s.order, succ, x) {
      assert Handled(g, s.order, s.succ, x);
    }
  }

  ghost function Finished(s: State, b: nat): State {
    s.(order := s.order[b := |s.post| + 1], post := s.post + [b])
  }

  lemma FinishNumbers(order: map<nat, int>, post: seq<nat>, b: nat)
    requires Numbered(order, post) && b in order && order[b] == 0
    ensures Numbered(order[b := |post| + 1], post + [b])
    ensures forall x :: x in order ==> order[x] < |post| + 1
  {}

  lemma FinishLowers(g: Shape, order: map<nat, int>, succ: Graph, b: nat, n: int)
    requires EdgesLower(g, order, succ) && b in order && order[b] == 0
    requires forall x :: x in order ==> order[x] < n
    ensures EdgesLower(g, order[b := n], succ)
  {}

  lemma FinishJoins(g: Shape, s: State, b: nat, n: int)
    requires AllJoined(g, s.order, s.pred, s.succ) && Open(s, b)
    requires forall x :: x in s.order ==> s.order[x] < n
    requires forall t :: Edge(g.joins, b, t) && Done(s, t) ==> Joined(g, s.pred, s.succ, b, t)
    ensures AllJoined(g, s.order[b := n], s.pred, s.succ)
  {
    hide Joined;
  }

  lemma FinishHandles(g: Shape, order: map<nat, int>, succ: Graph, b: nat, n: int)
    requires AllHandled(g, order, succ) && b in order && order[b] == 0
    requires forall x :: x in order ==> order[x] < n
    requires forall t :: Edge(g.must, b, t) && t in order && order[t] > 0 ==> Edge(succ, b, t)
    requires forall t :: Edge(g.walk, b, t) ==> t in order
    ensures AllHandled(g, order[b := n], succ)
  {}

  // All targets of the open block b have been dealt with.
  ghost predicate Tended(g: Shape, s: State, b: nat) {
    && (forall t :: Edge(g.must, b, t) ==> Tried(s, b, t))
    && (forall t :: Edge(g.walk, b, t) ==> t in s.order)
    && (forall t :: Edge(g.joins, b, t) && Done(s, t) ==> Joined(g, s.pred, s.succ, b, t))
    && EdgesNeeded(g, s.pred, s.succ, b)
  }

  lemma FinishKeeps(g: Shape, s: State, b: nat)
    requires Invariant(g, s) && Open(s, b) && Tended(g, s, b)
    ensures Invariant(g, Finished(s, b))
  {
    hide Numbered, EdgesLower, AllHandled, Handled, AllJoined, Joined, Tidy, Mirrored, Edge, EdgesNeeded;
    FinishNumbers(s.order, s.post, b);
    FinishLowers(g, s.order, s.succ, b, |s.post| + 1);
    FinishHandles(g, s.order, s.succ, b, |s.post| + 1);
    FinishJoins(g, s, b, |s.post| + 1);
  }

  // ---- Only the merge edge of a selection is recorded without being a must ----

  ghost predicate OnlyMust(g: Shape, s: State, b: nat) {
    forall t :: Edge(s.succ, b, t) ==> Edge(g.must, b, t)
  }

  // From s to t no seen block, except perhaps b, was given an edge it need not have.
  ghost predicate MustKept(g: Shape, s: State, t: State, b: nat) {
    forall a :: a in s.order && a != b && OnlyMust(g, s, a) ==> OnlyMust(g, t, a)
  }

  // The same without exception.
  ghost predicate AllMustKept(g: Shape, s: State, t: State) {
    forall a :: a in s.order && OnlyMust(g, s, a) ==> OnlyMust(g, t, a)
  }

  lemma MustReflexive(g: Shape, s: State)
    ensures AllMustKept(g, s, s)
  {}

  lemma AllMustTransitive(g: Shape, s: State, t: State, u: State)
    requires s.order.Keys <= t.order.Keys && AllMustKept(g, s, t) && AllMustKept(g, t, u)
    ensures AllMustKept(g, s, u)
  {}

  lemma MustTransitive(g: Shape, s: State, t: State, u: State, b: nat)
    requires s.order.Keys <= t.order.Keys && AllMustKept(g, s, t) && MustKept(g, t, u, b)
    ensures MustKept(g, s, u, b)
  {}

  lemma MustBut(g: Shape, s: State, t: State, b: nat)
    requires AllMustKept(g, s, t)
    ensures MustKept(g, s, t, b)
  {}

  lemma InvariantIsTidy(g: Shape, s: State)
    requires Invariant(g, s)
    ensures Tidy(s.succ)
  {}

  lemma BranchMust(g: Shape, s: State, a: nat, b: nat)
    requires Tidy(s.succ)
    ensures MustKept(g, s, Branched(s, a, b), a)
    ensures Edge(g.must, a, b) ==> AllMustKept(g, s, Branched(s, a, b))
  {
    AddEdgeAdds(s.succ, a, b);
  }

  // A block first seen has no edges.
  lemma OpenMust(g: Shape, s: State, b: nat)
    requires Invariant(g, s) && b !in s.order
    ensures OnlyMust(g, Opened(s, b), b)
  {
    hide Numbered, AllHandled, AllJoined, AllNeeded;
  }

  // Visiting b from its opening to its end gives edges to b only.
  lemma VisitMust(g: Shape, s: State, b: nat, u: State)
    requires b !in s.order && MustKept(g, Opened(s, b), u, b)
    ensures AllMustKept(g, s, Finished(u, b))
  {
    forall a | a in s.order && OnlyMust(g, s, a) ensures OnlyMust(g, Finished(u, b), a) {
      assert a in Opened(s, b).order && OnlyMust(g, Opened(s, b), a);
      assert OnlyMust(g, u, a);
    }
  }

  lemma MustIsNeeded(g: Shape, s: State, b: nat)
    requires OnlyMust(g, s, b)
    ensures EdgesNeeded(g, s.pred, s.succ, b)
  {}

  // A merge edge recorded because the blocks were not joined was needed.
  lemma JoinIsNeeded(g: Shape, s: State, a: nat, t: nat)
    requires Invariant(g, s) && OnlyMust(g, s, a) && !Joined(g, s.pred, s.succ, a, t)
    ensures var u := Branched(s, a, t); EdgesNeeded(g, u.pred, u.succ, a)
  {
    hide Numbered, AllHandled, AllJoined, AllNeeded, EdgesLower;
    var u := Branched(s, a, t);
    AddEdgeAdds(s.succ, a, t);
    assert Edge(s.succ, a, t) <==> Edge(s.pred, t, a);
    assert Needed(g, u.pred, u.succ, a, t) by {
      var n := |EdgesOf(s.pred, t)|;
      assert EdgesOf(u.pred, t) == EdgesOf(s.pred, t) + [a];
      assert EdgesOf(u.pred, t)[n] == a;
    }
    forall x | Edge(u.succ, a, x) && !Edge(g.must, a, x) ensures x == t {
      assert !Edge(s.succ, a, x);
    }
  }

  // What the predecessors of a merge block tell about its being joined to the header.
  lemma JoinRule(g: Shape, s: State, a: nat, t: nat)
    requires Invariant(g, s)
    ensures t !in s.pred ==> !Joined(g, s.pred, s.succ, a, t)
    ensures t in s.pred ==> s.pred[t] != []
    ensures t in s.pred && a in g.switches && |EdgesOf(s.succ, a)| == 1 && Joined(g, s.pred, s.succ, a, t) ==>
              Branched(s, a, t) == s
    ensures t in s.pred && !(a in g.switches && |EdgesOf(s.succ, a)| == 1) ==>
              (Joined(g, s.pred, s.succ, a, t) <==> !(|s.pred[t]| == 1 && s.pred[t][0] != a))
    ensures Edge(Branched(s, a, t).succ, a, t) && Joined(g, Branched(s, a, t).pred, Branched(s, a, t).succ, a, t)
  {
    assert Edge(s.succ, a, t) <==> Edge(s.pred, t, a);
    assert t !in s.pred ==> EdgesOf(s.pred, t) == [];
  }

  lemma JoinedPrecedes(g: Shape, entry: nat, s: State, a: nat, t: nat)
    requires Preceded(entry, s) || PrecededBut(entry, s, t)
    requires Invariant(g, s) && Joined(g, s.pred, s.succ, a, t)
    ensures Preceded(entry, s)
  {
    assert Edge(s.succ, a, t) <==> Edge(s.pred, t, a);
  }

  // A new edge makes up for the missing predecessor of the block it enters.
  lemma BranchPrecedes(entry: nat, s: State, a: nat, b: nat)
    requires Preceded(entry, s) || PrecededBut(entry, s, b)
    ensures Preceded(entry, Branched(s, a, b))
  {}

  lemma OpenPrecedes(entry: nat, s: State, b: nat)
    requires Preceded(entry, s)
    ensures Preceded(entry, Opened(s, b))
  {}

  // Opening a block, searching on, and finishing it is one extension, and leaves the
  // block without a predecessor.
  lemma VisitExtends(g: Shape, entry: nat, s: State, b: nat, u: State)
    requires Invariant(g, s) && b !in s.order && Invariant(g, u) && Preceded(entry, u)
    requires Extends(Opened(s, b), u)
    ensures Extends(s, Finished(u, b)) && Done(Finished(u, b), b)
    ensures b !in u.pred && PrecededBut(entry, Finished(u, b), b)
  {
    hide Invariant, Edge;
    assert Open(u, b) by {
      assert Open(Opened(s, b), b);
    }
    assert forall x :: x in s.order ==> x in Opened(s, b).order;
    PrecededAreDone(g, u);
  }

  lemma PrecededAreDone(g: Shape, s: State)
    requires Invariant(g, s)
    ensures forall b :: b in s.pred ==> Done(s, b)
  {
    hide Numbered, AllHandled, AllJoined, AllNeeded;
    forall b | b in s.pred ensures Done(s, b) {
      assert Edge(s.pred, b, s.pred[b][0]);
    }
  }

  // A search that began with nothing seen leaves nothing unfinished.
  lemma AllAreDone(s: State, t: State)
    requires Extends(s, t) && s.order == map[]
    ensures forall b :: b in t.order ==> Done(t, b)
  {}

  // The entry needs no predecessor.
  lemma EntryEndsSearch(entry: nat, s: State)
    requires PrecededBut(entry, s, entry)
    ensures Preceded(entry, s)
  {}

  // ---- Where a visit goes, and in which order ----

  // Blocks first seen between s and t can be reached from b.
  ghost predicate NewFrom(g: Shape, s: State, t: State, b: nat) {
    forall x :: x in t.order && x !in s.order ==> Reaches(g.walk, b, x)
  }

  // If the loop merge block m was first seen between s and t, then it is numbered before
  // the blocks first seen with it, except some that can be reached from it.
  ghost predicate MergeFirst(g: Shape, s: State, t: State, m: nat) {
    m in t.order && m !in s.order ==>
      forall x :: x in t.order && x !in s.order && t.order[x] < t.order[m] ==> Reaches(g.walk, m, x)
  }

  lemma NothingNew(g: Shape, s: State, b: nat)
    ensures NewFrom(g, s, s, b)
  {}

  lemma SameIsNew(g: Shape, s: State, t: State, u: State, b: nat)
    requires NewFrom(g, s, t, b) && u.order == t.order
    ensures NewFrom(g, s, u, b)
  {}

  lemma NewFromStep(g: Shape, s: State, t: State, a: nat, b: nat)
    requires Edge(g.walk, a, b) && NewFrom(g, s, t, b)
    ensures NewFrom(g, s, t, a)
  {
    SingletonPath(g.walk, a);
    ExtendPath(g.walk, a, a, b, [a]);
    forall x | x in t.order && x !in s.order ensures Reaches(g.walk, a, x) {
      var p :| PathBetween(g.walk, b, x, p);
      JoinPaths(g.walk, a, b, x, [a] + [b], p);
    }
  }

  lemma NewFromTransitive(g: Shape, s: State, t: State, u: State, b: nat)
    requires NewFrom(g, s, t, b) && NewFrom(g, t, u, b)
    ensures NewFrom(g, s, u, b)
  {}

  lemma VisitIsFrom(g: Shape, s: State, b: nat, u: State)
    requires NewFrom(g, Opened(s, b), u, b)
    ensures NewFrom(g, s, Finished(u, b), b)
  {
    SingletonPath(g.walk, b);
  }

  // What is seen after t is numbered after everything finished in t.
  lemma LaterIsHigher(g: Shape, t: State, u: State)
    requires Invariant(g, t) && Invariant(g, u) && Extends(t, u)
    ensures forall x :: x in u.order && x !in t.order ==> u.order[x] > |t.post|
    ensures forall x :: x in t.order ==> t.order[x] <= |t.post|
  {
    hide AllHandled, AllJoined, AllNeeded, EdgesLower, Tidy, Mirrored, Edge;
    forall x | x in u.order && x !in t.order ensures u.order[x] > |t.post| {
      assert Done(u, x);
      assert x !in t.post;
    }
  }

  lemma MergeIsFirst(g: Shape, s: State, t: State, u: State, m: nat)
    requires Invariant(g, t) && Invariant(g, u) && Extends(s, t) && Extends(t, u) && m in t.order
    requires m !in s.order ==> NewFrom(g, s, t, m)
    ensures MergeFirst(g, s, u, m)
  {
    hide Invariant, Reaches;
    LaterIsHigher(g, t, u);
  }

  lemma FinishKeepsMerge(g: Shape, s: State, b: nat, u: State, m: nat)
    requires Invariant(g, u) && b !in s.order && NewFrom(g, Opened(s, b), u, b) && MergeFirst(g, Opened(s, b), u, m)
    ensures MergeFirst(g, s, Finished(u, b), m)
  {
    hide Invariant, Reaches;
    VisitIsFrom(g, s, b, u);
    ExtendsReflexive(u);
    LaterIsHigher(g, u, u);
  }

  // ---- The finished search ----

  // The numbered blocks are exactly the reachable ones.
  ghost predicate NumbersReachable(g: Shape, entry: nat, s: State) {
    && s.order.Keys == g.reach
    && (forall b :: b in s.order <==> Reaches(g.walk, entry, b))
  }

  // visit_order and post_order are inverse bijections, and the entry comes last.
  ghost predicate OrdersInverse(entry: nat, s: State) {
    && (forall i :: 0 <= i < |s.post| ==> s.post[i] in s.order && s.order[s.post[i]] == i + 1)
    && (forall b :: b in s.order ==> 1 <= s.order[b] <= |s.post| && s.post[s.order[b] - 1] == b)
    && entry in s.order && s.order[entry] == |s.post|
  }

  // Recorded edges are targets and lower the order, and a target that must be
  // recorded is recorded if and only if it lowers the order.
  ghost predicate EdgesExact(g: Shape, s: State) {
    && Descends(s.succ, s.order)
    && (forall a, b :: Edge(s.succ, a, b) <==> Edge(s.pred, b, a))
    && (forall a, b :: Edge(s.succ, a, b) ==> Edge(g.walk, a, b))
    && (forall a, t :: a in s.order && Edge(g.must, a, t) ==>
          t in s.order && (Edge(s.succ, a, t) <==> s.order[t] < s.order[a]))
  }

  // A merge block finished before the header of its selection is joined to it, and an edge
  // was recorded for that only if there was reason to.
  ghost predicate MergesJoined(g: Shape, s: State) {
    AllJoined(g, s.order, s.pred, s.succ) && AllNeeded(g, s.order, s.pred, s.succ)
  }

  // The entry, and no other numbered block, is without a predecessor.
  ghost predicate OnlyEntryUnpreceded(entry: nat, s: State) {
    && (forall b :: b in s.order && b != entry ==> exists a :: Edge(s.succ, a, b))
    && (forall a :: !Edge(s.succ, a, entry))
  }

  ghost predicate Completed(g: Shape, entry: nat, s: State) {
    && NumbersReachable(g, entry, s) && OrdersInverse(entry, s) && EdgesExact(g, s)
    && OnlyEntryUnpreceded(entry, s) && MergesJoined(g, s)
  }

  lemma SearchCompletes(g: Shape, entry: nat, s: State)
    requires ShapeOk(g, entry) && ReachIsExact(g, entry) && Invariant(g, s) && Preceded(entry, s)
    requires forall b :: b in s.order ==> Done(s, b)
    requires entry !in s.pred
    requires |s.post| > 0 && s.post[|s.post| - 1] == entry
    ensures Completed(g, entry, s)
  {
    hide Edge, Reaches, NumbersReachable, EdgesExact, OnlyEntryUnpreceded, AllHandled, EdgesLower, Tidy, Mirrored,
        AllJoined, AllNeeded;
    NumbersAreReachable(g, entry, s);
    EdgesAreExact(g, s);
    OthersArePreceded(g, entry, s);
  }

  lemma OthersArePreceded(g: Shape, entry: nat, s: State)
    requires Invariant(g, s) && Preceded(entry, s) && entry !in s.pred
    requires forall b :: b in s.order ==> Done(s, b)
    ensures OnlyEntryUnpreceded(entry, s)
  {
    hide Numbered, EdgesLower, AllHandled, AllJoined, AllNeeded;
    forall b | b in s.order && b != entry ensures exists a :: Edge(s.succ, a, b) {
      assert Done(s, b) && b in s.pred;
      assert Edge(s.pred, b, s.pred[b][0]);
    }
    forall a ensures !Edge(s.succ, a, entry) {
      assert !Edge(s.pred, entry, a);
    }
  }

  lemma NumbersAreReachable(g: Shape, entry: nat, s: State)
    requires ReachIsExact(g, entry) && Invariant(g, s)
    requires forall b :: b in s.order ==> Done(s, b)
    requires entry in s.order
    ensures NumbersReachable(g, entry, s)
  {
    forall x, y | x in s.order.Keys && Edge(g.walk, x, y) ensures y in s.order.Keys {
      assert Handled(g, s.order, s.succ, x);
    }
    forall b ensures b in s.order ==> Reaches(g.walk, entry, b) {
      assert b in s.order ==> b in g.reach;
    }
    forall b | Reaches(g.walk, entry, b) ensures b in s.order {
      var p :| PathBetween(g.walk, entry, b, p);
      ClosedSetHoldsPath(g.walk, s.order.Keys, p);
    }
    assert forall b :: b in g.reach ==> Reaches(g.walk, entry, b);
  }

  lemma EdgesAreExact(g: Shape, s: State)
    requires forall a, b :: Edge(g.must, a, b) ==> Edge(g.walk, a, b)
    requires Invariant(g, s)
    requires forall b :: b in s.order ==> Done(s, b)
    ensures EdgesExact(g, s)
  {}

  // Every numbered block is reachable along recorded edges.
  lemma {:induction false} ReachedByEdges(g: Shape, entry: nat, s: State, b: nat)
    requires Completed(g, entry, s) && b in s.order
    ensures Reaches(s.succ, entry, b)
    decreases |s.post| - s.order[b]
  {
    if b == entry {
      SingletonPath(s.succ, entry);
    } else {
      var a :| Edge(s.succ, a, b);
      ReachedByEdges(g, entry, s, a);
      ExtendReach(s.succ, entry, a, b);
    }
  }
}
