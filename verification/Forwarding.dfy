// Which forwarded loads are stale: the tracker of reads, writes and flushes.
module Forwarding {
  import opened Sets

  datatype Variable = Variable(aliased: bool, immutable: bool, dataIsPointer: bool, isParameter: bool)

  // The type of the expression that is stored to.
  datatype Access = Access(pointer: bool, pointerDepth: nat, physicalStorage: bool)

  datatype Context = Context(
    variables: map<nat, Variable>,
    aliasedVariables: seq<nat>,
    globalVariables: seq<nat>,
    localVariables: seq<nat>,
    arguments: seq<nat>)

  // The listed variables exist, and the aliased ones are all listed.
  ghost predicate ContextOk(c: Context) {
    && 0 !in c.variables
    && (forall v :: v in c.aliasedVariables <==> v in c.variables && c.variables[v].aliased)
    && (forall v :: v in c.globalVariables || v in c.localVariables || v in c.arguments ==> v in c.variables)
  }

  // What was registered, in order. `source` and `target` are the variables the chains
  // resolve to, 0 if there is none.
  datatype Event =
    | Read(expr: nat, chain: nat, source: nat, forwarded: bool)
    | Write(chain: nat, target: nat, access: Access)
    | FlushActive
    | FlushAliased
    | FlushAtomic
    | FlushControlDependent(exprs: set<nat>)

  ghost predicate Active(c: Context, v: nat) {
    v in c.localVariables || v in c.arguments || v in c.globalVariables || v in c.aliasedVariables
  }

  // The event makes loads of v stale.
  ghost predicate Flushes(c: Context, e: Event, v: nat) {
    match e
    case Read(_, _, _, _) => false
    case Write(_, target, access) =>
      if target in c.variables then
        || (c.variables[target].dataIsPointer && Active(c, v))
        || (if access.physicalStorage || c.variables[target].aliased then v in c.aliasedVariables else v == target)
      else access.pointer && Active(c, v)
    case FlushActive => Active(c, v)
    case FlushAliased => v in c.aliasedVariables
    case FlushAtomic => v in c.globalVariables || v in c.aliasedVariables
    case FlushControlDependent(_) => false
  }

  // The event is a forwarded load of the mutable variable v.
  ghost predicate Loads(c: Context, e: Event, x: nat, v: nat) {
    e.Read? && e.expr == x && e.source == v && e.forwarded && v in c.variables && !c.variables[v].immutable
  }

  // The variable an id goes back to: itself, or what the chain of its last resolved read
  // went back to at that time. 0 if there is none.
  ghost function Root(c: Context, h: seq<Event>, x: nat): nat
    decreases |h|
  {
    if x in c.variables then x
    else if h == [] then 0
    else
      var before, e := h[..|h| - 1], h[|h| - 1];
      if e.Read? && e.expr == x && Root(c, before, e.chain) != 0 then Root(c, before, e.chain) else Root(c, before, x)
  }

  // The event names the variable its chain goes back to.
  ghost predicate EventResolved(c: Context, h: seq<Event>, e: Event) {
    match e
    case Read(_, chain, source, _) => source == Root(c, h, chain)
    case Write(chain, target, _) => target == Root(c, h, chain)
    case _ => true
  }

  ghost predicate Resolved(c: Context, h: seq<Event>) {
    forall i :: 0 <= i < |h| ==> EventResolved(c, h[..i], h[i])
  }

  lemma RootAfter(c: Context, h: seq<Event>, e: Event, x: nat)
    ensures Root(c, h + [e], x) ==
            if x !in c.variables && e.Read? && e.expr == x && Root(c, h, e.chain) != 0 then Root(c, h, e.chain)
            else Root(c, h, x)
  {
    assert (h + [e])[..|h|] == h;
  }

  lemma ResolvedAfter(c: Context, h: seq<Event>, e: Event)
    requires Resolved(c, h) && EventResolved(c, h, e)
    ensures Resolved(c, h + [e])
  {
    var g := h + [e];
    forall i | 0 <= i < |g| ensures EventResolved(c, g[..i], g[i]) {
      assert g[..i] == h[..i];
      assert h[..|h|] == h;
    }
  }

  // An expression read through a chain goes back to the variable of the chain, so a load
  // through an access chain goes stale with a write to the variable itself.
  lemma LoadThroughChain(c: Context, v: nat, a: nat, x: nat, access: Access)
    requires ContextOk(c) && v in c.variables && !c.variables[v].immutable
    requires a !in c.variables && x !in c.variables && CountsAsWrite(c, v, access)
    ensures var h := [Read(a, v, v, true), Read(x, a, v, true), Write(v, v, access)];
            Resolved(c, h) && Root(c, h, x) == v && Stale(c, h, x)
  {
    hide Root, Resolved, FreshLoad;
    var e1, e2, e3 := Read(a, v, v, true), Read(x, a, v, true), Write(v, v, access);
    var h1, h2, h := [e1], [e1, e2], [e1, e2, e3];
    assert h1 == [] + [e1] && h2 == h1 + [e2] && h == h2 + [e3];
    RootOfVariable(c, [], v);
    RootOfVariable(c, h2, v);
    NothingResolved(c);
    RootAfter(c, [], e1, a);
    assert Root(c, h1, a) == v;
    RootAfter(c, h1, e2, x);
    RootAfter(c, h2, e3, x);
    ResolvedAfter(c, [], e1);
    ResolvedAfter(c, h1, e2);
    ResolvedAfter(c, h2, e3);
    WriteFlushesTarget(c, v, access);
    assert Loads(c, h[1], x, v) && Flushes(c, h[2], v);
  }

  lemma RootOfVariable(c: Context, h: seq<Event>, v: nat)
    requires v in c.variables
    ensures Root(c, h, v) == v
  {}

  lemma NothingResolved(c: Context)
    ensures Resolved(c, [])
  {}

  // x was loaded from v, and v has not been flushed since.
  ghost predicate FreshLoad(c: Context, h: seq<Event>, x: nat, v: nat) {
    exists i :: 0 <= i < |h| && Loads(c, h[i], x, v) && forall j :: i < j < |h| ==> !Flushes(c, h[j], v)
  }

  // x was loaded from a variable that was flushed afterwards, or it was invalidated by name.
  ghost predicate Stale(c: Context, h: seq<Event>, x: nat) {
    || (exists i, j, v :: 0 <= i < j < |h| && Loads(c, h[i], x, v) && Flushes(c, h[j], v))
    || (exists j :: 0 <= j < |h| && h[j].FlushControlDependent? && x in h[j].exprs)
  }

  // ---- What each event adds ----

  lemma FreshAfter(c: Context, h: seq<Event>, e: Event, x: nat, v: nat)
    ensures FreshLoad(c, h + [e], x, v) <==> Loads(c, e, x, v) || (FreshLoad(c, h, x, v) && !Flushes(c, e, v))
  {
    var g := h + [e];
    if FreshLoad(c, g, x, v) {
      var i :| 0 <= i < |g| && Loads(c, g[i], x, v) && forall j :: i < j < |g| ==> !Flushes(c, g[j], v);
      if i < |h| {
        assert g[|h|] == e;
        assert forall j :: i < j < |h| ==> g[j] == h[j];
        assert FreshLoad(c, h, x, v);
      }
    }
    if Loads(c, e, x, v) {
      assert g[|h|] == e;
    }
    if FreshLoad(c, h, x, v) && !Flushes(c, e, v) {
      var i :| 0 <= i < |h| && Loads(c, h[i], x, v) && forall j :: i < j < |h| ==> !Flushes(c, h[j], v);
      assert g[i] == h[i];
      assert forall j :: i < j < |g| ==> g[j] == if j < |h| then h[j] else e;
    }
  }

  lemma StaleAfter(c: Context, h: seq<Event>, e: Event, x: nat)
    ensures Stale(c, h + [e], x) <==>
              Stale(c, h, x) || (exists v :: FreshLoad(c, h, x, v) && Flushes(c, e, v))
              || (e.FlushControlDependent? && x in e.exprs)
  {
    var g := h + [e];
    assert g[|h|] == e && forall i :: 0 <= i < |h| ==> g[i] == h[i];
    if Stale(c, h, x) {
      StaleStays(c, h, e, x);
    }
    if v :| FreshLoad(c, h, x, v) && Flushes(c, e, v) {
      var i :| 0 <= i < |h| && Loads(c, h[i], x, v) && forall j :: i < j < |h| ==> !Flushes(c, h[j], v);
      assert Loads(c, g[i], x, v) && Flushes(c, g[|h|], v);
    }
    if i, j, v :| 0 <= i < j < |g| && Loads(c, g[i], x, v) && Flushes(c, g[j], v) {
      if j == |h| && !Stale(c, h, x) {
        assert Loads(c, h[i], x, v);
        assert FreshLoad(c, h, x, v);
      }
    }
  }

  lemma StaleStays(c: Context, h: seq<Event>, e: Event, x: nat)
    requires Stale(c, h, x)
    ensures Stale(c, h + [e], x)
  {
    var g := h + [e];
    assert forall i :: 0 <= i < |h| ==> g[i] == h[i];
    if i, j, v :| 0 <= i < j < |h| && Loads(c, h[i], x, v) && Flushes(c, h[j], v) {
      assert Loads(c, g[i], x, v) && Flushes(c, g[j], v);
    } else {
      var j :| 0 <= j < |h| && h[j].FlushControlDependent? && x in h[j].exprs;
      assert g[j] == h[j];
    }
  }

  // ---- What a write invalidates ----

  // A write that resolves to v counts as a write to v, except one through a physical
  // pointer. That counts as a write to the aliased variables only (and, when v itself is a
  // variable pointer, to the active ones).
  ghost predicate CountsAsWrite(c: Context, v: nat, access: Access)
    requires v in c.variables
  {
    !access.physicalStorage || c.variables[v].aliased || (c.variables[v].dataIsPointer && Active(c, v))
  }

  lemma WriteFlushesTarget(c: Context, v: nat, access: Access)
    requires ContextOk(c) && v in c.variables
    ensures forall chain :: Flushes(c, Write(chain, v, access), v) <==> CountsAsWrite(c, v, access)
  {}

  // A write that resolves to any aliased variable makes loads of every aliased variable
  // stale.
  lemma AliasedWriteFlushesAliased(c: Context, target: nat, v: nat, access: Access)
    requires ContextOk(c) && target in c.variables && v in c.variables
    requires c.variables[target].aliased && c.variables[v].aliased
    ensures forall chain :: Flushes(c, Write(chain, target, access), v)
  {}

  // The expression x was loaded from v and from nowhere else.
  ghost predicate OnlyLoad(c: Context, h: seq<Event>, x: nat, v: nat, i: nat) {
    i < |h| && Loads(c, h[i], x, v) && forall j, w :: 0 <= j < |h| && Loads(c, h[j], x, w) ==> j == i && w == v
  }

  // Such a load is stale exactly if its variable was flushed since, or it was named.
  lemma OnlyLoadIsStaleIff(c: Context, h: seq<Event>, x: nat, v: nat, i: nat)
    requires OnlyLoad(c, h, x, v, i)
    ensures Stale(c, h, x) <==>
              || (exists j :: i < j < |h| && Flushes(c, h[j], v))
              || (exists j :: 0 <= j < |h| && h[j].FlushControlDependent? && x in h[j].exprs)
  {
    hide Loads, Flushes;
    if k, j, w :| 0 <= k < j < |h| && Loads(c, h[k], x, w) && Flushes(c, h[j], w) {
      assert k == i && w == v;
    }
  }

  // A write that resolves to the variable of such a load, still valid, invalidates it
  // exactly if it counts as one.
  lemma WriteStalesIff(c: Context, h: seq<Event>, x: nat, chain: nat, v: nat, i: nat, access: Access)
    requires ContextOk(c) && OnlyLoad(c, h, x, v, i) && !Stale(c, h, x)
    ensures v in c.variables && (Stale(c, h + [Write(chain, v, access)], x) <==> CountsAsWrite(c, v, access))
  {
    hide Flushes, CountsAsWrite;
    OnlyLoadOfVariable(c, h, x, v, i);
    StaleAfter(c, h, Write(chain, v, access), x);
    WriteFlushesTarget(c, v, access);
    assert FreshLoad(c, h, x, v);
    assert forall w :: FreshLoad(c, h, x, w) ==> w == v;
  }

  lemma OnlyLoadOfVariable(c: Context, h: seq<Event>, x: nat, v: nat, i: nat)
    requires OnlyLoad(c, h, x, v, i)
    ensures v in c.variables
  {}

  // The exception is real: let a local structure hold a physical pointer. A store through
  // that pointer, whose address was loaded from the structure, leaves a load of the
  // structure alone.
  lemma PhysicalWriteKeepsLoad()
    ensures var c := Context(map[1 := Variable(false, false, false, false)], [], [], [1], []);
            var h := [Read(2, 1, 1, true), Write(2, 1, Access(true, 1, true))];
            ContextOk(c) && Resolved(c, h) && FreshLoad(c, h, 2, 1) && !Stale(c, h, 2)
  {
    var c := Context(map[1 := Variable(false, false, false, false)], [], [], [1], []);
    var r, w := Read(2, 1, 1, true), Write(2, 1, Access(true, 1, true));
    var h := [r, w];
    assert [r] == [] + [r] && h == [r] + [w];
    RootAfter(c, [], r, 2);
    ResolvedAfter(c, [], r);
    ResolvedAfter(c, [r], w);
    assert Loads(c, h[0], 2, 1);
    assert forall v :: !Flushes(c, h[1], v);
    assert forall v :: !Flushes(c, h[0], v);
  }

  // ---- The tracker ----

  // What a write adds to the invalid expressions.
  lemma WriteInvalidates(c: Context, h: seq<Event>, before: set<nat>, after: set<nat>, chain: nat, v: nat,
      access: Access)
    requires ContextOk(c) && HoldsStale(c, h, before) && HoldsStale(c, h + [Write(chain, v, access)], after)
    ensures forall x :: x in after <==>
              x in before || exists w :: FreshLoad(c, h, x, w) && Flushes(c, Write(chain, v, access), w)
    ensures forall x, i :: OnlyLoad(c, h, x, v, i) && x !in before ==>
              v in c.variables && (x in after <==> CountsAsWrite(c, v, access))
  {
    hide FreshLoad, Stale, Flushes, OnlyLoad, ContextOk;
    forall x
      ensures x in after <==> x in before || exists w :: FreshLoad(c, h, x, w) && Flushes(c, Write(chain, v, access), w)
    {
      StaleAfter(c, h, Write(chain, v, access), x);
    }
    forall x, i | OnlyLoad(c, h, x, v, i) && x !in before
      ensures v in c.variables && (x in after <==> CountsAsWrite(c, v, access))
    {
      OnlyLoadOfVariable(c, h, x, v, i);
      WriteStalesIff(c, h, x, chain, v, i, access);
    }
  }

  ghost predicate ListsFresh(c: Context, h: seq<Event>, dependees: map<nat, seq<nat>>) {
    forall x, v :: v in dependees ==> (x in dependees[v] <==> FreshLoad(c, h, x, v))
  }

  ghost predicate HoldsStale(c: Context, h: seq<Event>, invalid: set<nat>) {
    forall x :: x in invalid <==> Stale(c, h, x)
  }

  // The variable an id stands for or was loaded from, 0 if none.
  function BackingVariable(c: Context, loadedFrom: map<nat, nat>, x: nat): nat {
    if x in c.variables then x
    else if x in loadedFrom && loadedFrom[x] in c.variables then loadedFrom[x]
    else 0
  }

  // The log is resolved, and every id goes back to the variable recorded for it.
  ghost predicate RootsKnown(c: Context, h: seq<Event>, loadedFrom: map<nat, nat>) {
    Resolved(c, h) && forall x :: BackingVariable(c, loadedFrom, x) == Root(c, h, x)
  }

  lemma RootIsKnown(c: Context, h: seq<Event>, loadedFrom: map<nat, nat>, x: nat)
    requires RootsKnown(c, h, loadedFrom)
    ensures BackingVariable(c, loadedFrom, x) == Root(c, h, x)
    ensures Root(c, h, x) != 0 ==> Root(c, h, x) in c.variables
  {}

  // A resolved read is all that changes where an id goes back to.
  lemma ReadIsKnown(c: Context, h: seq<Event>, loadedFrom: map<nat, nat>, expr: nat, chain: nat, forwarded: bool)
    requires RootsKnown(c, h, loadedFrom)
    ensures var v := Root(c, h, chain);
            RootsKnown(c, h + [Read(expr, chain, v, forwarded)], if v != 0 then loadedFrom[expr := v] else loadedFrom)
  {
    hide Resolved, Root;
    RootIsKnown(c, h, loadedFrom, chain);
    var v := Root(c, h, chain);
    var e := Read(expr, chain, v, forwarded);
    ResolvedAfter(c, h, e);
    forall x ensures Root(c, h + [e], x) == if x == expr && x !in c.variables && v != 0 then v else Root(c, h, x) {
      RootAfter(c, h, e, x);
    }
  }

  lemma OthersAreKnown(c: Context, h: seq<Event>, loadedFrom: map<nat, nat>, e: Event)
    requires RootsKnown(c, h, loadedFrom) && !e.Read? && EventResolved(c, h, e)
    ensures RootsKnown(c, h + [e], loadedFrom)
  {
    hide Resolved, Root;
    ResolvedAfter(c, h, e);
    forall x ensures Root(c, h + [e], x) == Root(c, h, x) {
      RootAfter(c, h, e, x);
    }
  }

  // A read makes nothing stale, and a forwarded read of a mutable variable is a fresh load.
  lemma ReadKeeps(c: Context, h: seq<Event>, dependees: map<nat, seq<nat>>, invalid: set<nat>, expr: nat,
      chain: nat, v: nat, forwarded: bool)
    requires ListsFresh(c, h, dependees) && HoldsStale(c, h, invalid)
    requires v in dependees <==> v in c.variables
    ensures var e := Read(expr, chain, v, forwarded);
            && HoldsStale(c, h + [e], invalid)
            && ListsFresh(c, h + [e],
                 if v in c.variables && forwarded && !c.variables[v].immutable then
                   dependees[v := dependees[v] + [expr]]
                 else dependees)
  {
    hide FreshLoad, Stale;
    var e := Read(expr, chain, v, forwarded);
    forall x ensures Stale(c, h + [e], x) <==> Stale(c, h, x) {
      StaleAfter(c, h, e, x);
    }
    forall x, w ensures FreshLoad(c, h + [e], x, w) <==> Loads(c, e, x, w) || FreshLoad(c, h, x, w) {
      FreshAfter(c, h, e, x, w);
    }
  }

  class Tracker {
    const c: Context
    var loadedFrom: map<nat, nat>
    var dependees: map<nat, seq<nat>>
    var invalidExpressions: set<nat>
    // SPIRBlock::invalidate_expressions of each block.
    var invalidateExpressions: map<nat, seq<nat>>
    var readCount: map<nat, nat>
    var writeCount: map<nat, nat>
    var forceRecompile: bool
    ghost var history: seq<Event>

    // The lists of dependees hold the fresh loads, and exactly the stale ones are invalid.
    ghost predicate Valid()
      reads this
    {
      && ContextOk(c) && dependees.Keys == c.variables.Keys
      && readCount.Keys == c.variables.Keys && writeCount.Keys == c.variables.Keys
      && ListsFresh(c, history, dependees) && HoldsStale(c, history, invalidExpressions)
      && RootsKnown(c, history, loadedFrom)
    }

    constructor (c: Context, invalidateExpressions: map<nat, seq<nat>>)
      requires ContextOk(c)
      ensures Valid() && this.c == c && history == [] && this.invalidateExpressions == invalidateExpressions
    {
      this.c := c;
      this.invalidateExpressions := invalidateExpressions;
      loadedFrom, invalidExpressions, forceRecompile, history := map[], {}, false, [];
      dependees := map v | v in c.variables :: [];
      readCount := map v | v in c.variables :: 0;
      writeCount := map v | v in c.variables :: 0;
    }

    method RegisterRead(expr: nat, chain: nat, forwarded: bool)
      requires Valid()
      modifies `loadedFrom, `dependees, `readCount, `history
      ensures Valid() && history == old(history) + [Read(expr, chain, Root(c, old(history), chain), forwarded)]
      ensures var v := Root(c, old(history), chain);
              && loadedFrom == (if v != 0 then old(loadedFrom)[expr := v] else old(loadedFrom))
              && readCount ==
                 (if v != 0 && c.variables[v].isParameter then old(readCount)[v := old(readCount)[v] + 1]
                  else old(readCount))
    {
      hide ContextOk, ListsFresh, HoldsStale, RootsKnown, Root, BackingVariable;
      RootIsKnown(c, history, loadedFrom, chain);
      var v := BackingVariable(c, loadedFrom, chain);
      ReadKeeps(c, history, dependees, invalidExpressions, expr, chain, v, forwarded);
      ReadIsKnown(c, history, loadedFrom, expr, chain, forwarded);
      ZeroIsNoVariable(c);
      if v != 0 {
        loadedFrom := loadedFrom[expr := v];
        if forwarded && !c.variables[v].immutable {
          dependees := dependees[v := dependees[v] + [expr]];
        }
        if c.variables[v].isParameter {
          readCount := readCount[v := readCount[v] + 1];
        }
      }
      history := history + [Read(expr, chain, v, forwarded)];
    }

    // Halfway through a flush: the variables of `done` have been flushed.
    ghost predicate Flushing(done: set<nat>)
      reads `dependees, `invalidExpressions, `history
    {
      && dependees.Keys == c.variables.Keys
      && (forall x, v :: v in dependees ==> (x in dependees[v] <==> FreshLoad(c, history, x, v) && v !in done))
      && (forall x :: x in invalidExpressions <==>
            Stale(c, history, x) || exists v :: v in done && v in c.variables && FreshLoad(c, history, x, v))
    }

    method FlushDependees(v: nat, ghost done: set<nat>)
      requires Flushing(done) && v in c.variables
      modifies `dependees, `invalidExpressions
      ensures Flushing(done + {v})
    {
      hide FreshLoad, Stale;
      ghost var before := invalidExpressions;
      var exprs := dependees[v];
      for i := 0 to |exprs|
        invariant dependees == old(dependees)
        invariant forall x :: x in invalidExpressions <==> x in before || x in exprs[..i]
      {
        assert exprs[..i + 1] == exprs[..i] + [exprs[i]];
        invalidExpressions := invalidExpressions + {exprs[i]};
      }
      assert exprs[..|exprs|] == exprs;
      dependees := dependees[v := []];
      FlushOne(c, history, before, invalidExpressions, exprs, done, v);
    }

    method FlushList(vars: seq<nat>, ghost done: set<nat>)
      requires Flushing(done) && forall v :: v in vars ==> v in c.variables
      modifies `dependees, `invalidExpressions
      ensures Flushing(done + Elements(vars))
    {
      hide Flushing;
      assert done + Elements(vars[..0]) == done;
      for i := 0 to |vars|
        invariant Flushing(done + Elements(vars[..i]))
      {
        FlushDependees(vars[i], done + Elements(vars[..i]));
        assert vars[..i + 1] == vars[..i] + [vars[i]];
        assert done + Elements(vars[..i]) + {vars[i]} == done + Elements(vars[..i + 1]);
      }
      assert vars[..|vars|] == vars;
    }

    // Everything the functions in scope can see.
    method FlushActiveLists(ghost done: set<nat>)
      requires Flushing(done) && ContextOk(c)
      modifies `dependees, `invalidExpressions
      ensures Flushing(done + ActiveSet(c))
    {
      hide Flushing;
      FlushList(c.localVariables, done);
      ghost var d1 := done + Elements(c.localVariables);
      FlushList(c.arguments, d1);
      ghost var d2 := d1 + Elements(c.arguments);
      FlushList(c.globalVariables, d2);
      ghost var d3 := d2 + Elements(c.globalVariables);
      FlushList(c.aliasedVariables, d3);
      assert d3 + Elements(c.aliasedVariables) == done + ActiveSet(c);
    }

    // The flush is over: log the event it stands for.
    ghost method Record(e: Event, done: set<nat>)
      requires Flushing(done) && ContextOk(c) && RootsKnown(c, history, loadedFrom) && EventResolved(c, history, e)
      requires readCount.Keys == c.variables.Keys && writeCount.Keys == c.variables.Keys
      requires !e.Read? && !e.FlushControlDependent?
      requires forall v :: v in c.variables ==> (v in done <==> Flushes(c, e, v))
      modifies `history
      ensures Valid() && history == old(history) + [e]
    {
      hide FreshLoad, Stale, Flushes, ContextOk, Root, RootsKnown, EventResolved;
      ghost var h := history;
      OthersAreKnown(c, h, loadedFrom, e);
      forall x, v ensures FreshLoad(c, h + [e], x, v) <==> FreshLoad(c, h, x, v) && !Flushes(c, e, v) {
        FreshAfter(c, h, e, x, v);
      }
      forall x
        ensures Stale(c, h + [e], x) <==> Stale(c, h, x) || exists v :: FreshLoad(c, h, x, v) && Flushes(c, e, v)
      {
        StaleAfter(c, h, e, x);
      }
      forall x, v | FreshLoad(c, h, x, v) ensures v in c.variables {
        FreshIsVariable(c, h, x, v);
      }
      history := h + [e];
    }

    method RegisterWrite(chain: nat, access: Access)
      requires Valid()
      modifies `dependees, `invalidExpressions, `writeCount, `forceRecompile, `history
      ensures Valid() && history == old(history) + [Write(chain, Root(c, old(history), chain), access)]
      ensures var v := Root(c, old(history), chain);
              var firstWrite := v != 0 && c.variables[v].isParameter && old(writeCount)[v] == 0
                                && !(c.variables[v].dataIsPointer && access.pointerDepth == 1);
              && writeCount == (if firstWrite then old(writeCount)[v := 1] else old(writeCount))
              && forceRecompile == (old(forceRecompile) || firstWrite)
      ensures forall x :: x in invalidExpressions <==>
                x in old(invalidExpressions)
                || exists v :: old(FreshLoad(c, history, x, v))
                    && Flushes(c, Write(chain, Root(c, old(history), chain), access), v)
      ensures var v := Root(c, old(history), chain);
              forall x, i :: old(OnlyLoad(c, history, x, v, i)) && x !in old(invalidExpressions) ==>
                v in c.variables && (x in invalidExpressions <==> CountsAsWrite(c, v, access))
    {
      hide FreshLoad, Stale, Flushing, Flushes, RootsKnown, Root, BackingVariable, OnlyLoad;
      StartFlushing();
      ZeroIsNoVariable(c);
      RootIsKnown(c, history, loadedFrom, chain);
      var v := BackingVariable(c, loadedFrom, chain);
      ghost var done := FlushForWrite(chain, v, access);
      var checkQualifier := v != 0 && !(c.variables[v].dataIsPointer && access.pointerDepth == 1);
      if checkQualifier && c.variables[v].isParameter && writeCount[v] == 0 {
        writeCount := writeCount[v := writeCount[v] + 1];
        forceRecompile := true;
      }
      Record(Write(chain, v, access), done);
      WriteInvalidates(c, old(history), old(invalidExpressions), invalidExpressions, chain, v, access);
    }

    method FlushForWrite(ghost chain: nat, v: nat, access: Access) returns (ghost done: set<nat>)
      requires Flushing({}) && ContextOk(c) && (v != 0 ==> v in c.variables)
      modifies `dependees, `invalidExpressions
      ensures Flushing(done)
      ensures forall w :: w in c.variables ==> (w in done <==> Flushes(c, Write(chain, v, access), w))
    {
      hide FreshLoad, Stale, Flushing;
      done := {};
      if v != 0 {
        if c.variables[v].dataIsPointer {
          FlushActiveLists(done);
          done := done + ActiveSet(c);
        }
        if access.physicalStorage || c.variables[v].aliased {
          FlushList(c.aliasedVariables, done);
          done := done + Elements(c.aliasedVariables);
        } else {
          FlushDependees(v, done);
          done := done + {v};
        }
      } else if access.pointer {
        FlushActiveLists(done);
        done := done + ActiveSet(c);
      }
    }

    ghost method StartFlushing()
      requires Valid()
      ensures Flushing({})
    {}

    method FlushAllActiveVariables()
      requires Valid()
      modifies `dependees, `invalidExpressions, `history
      ensures Valid() && history == old(history) + [FlushActive]
    {
      hide FreshLoad, Stale, Flushing;
      StartFlushing();
      FlushActiveLists({});
      Record(FlushActive, {} + ActiveSet(c));
    }

    method FlushAllAliasedVariables()
      requires Valid()
      modifies `dependees, `invalidExpressions, `history
      ensures Valid() && history == old(history) + [FlushAliased]
    {
      hide FreshLoad, Stale, Flushing;
      StartFlushing();
      FlushList(c.aliasedVariables, {});
      Record(FlushAliased, {} + Elements(c.aliasedVariables));
    }

    method FlushAllAtomicCapableVariables()
      requires Valid()
      modifies `dependees, `invalidExpressions, `history
      ensures Valid() && history == old(history) + [FlushAtomic]
    {
      hide FreshLoad, Stale, Flushing;
      StartFlushing();
      FlushList(c.globalVariables, {});
      FlushList(c.aliasedVariables, {} + Elements(c.globalVariables));
      Record(FlushAtomic, {} + Elements(c.globalVariables) + Elements(c.aliasedVariables));
    }

    // The expressions a block asks to be invalidated when control leaves it.
    method FlushControlDependentExpressions(blockId: nat)
      requires Valid() && blockId in invalidateExpressions
      modifies `invalidExpressions, `invalidateExpressions, `history
      ensures Valid()
      ensures history == old(history) + [FlushControlDependent(Elements(old(invalidateExpressions)[blockId]))]
      ensures invalidateExpressions == old(invalidateExpressions)[blockId := []]
      ensures invalidExpressions == old(invalidExpressions) + Elements(old(invalidateExpressions)[blockId])
    {
      hide FreshLoad, Stale, Root, RootsKnown;
      ghost var before := invalidExpressions;
      var exprs := invalidateExpressions[blockId];
      for i := 0 to |exprs|
        invariant history == old(history) && invalidateExpressions == old(invalidateExpressions)
        invariant forall x :: x in invalidExpressions <==> x in before || x in exprs[..i]
      {
        assert exprs[..i + 1] == exprs[..i] + [exprs[i]];
        invalidExpressions := invalidExpressions + {exprs[i]};
      }
      assert exprs[..|exprs|] == exprs;
      invalidateExpressions := invalidateExpressions[blockId := []];
      ghost var h, e := history, FlushControlDependent(Elements(exprs));
      OthersAreKnown(c, h, loadedFrom, e);
      forall x, v ensures FreshLoad(c, h + [e], x, v) <==> FreshLoad(c, h, x, v) {
        FreshAfter(c, h, e, x, v);
      }
      forall x ensures Stale(c, h + [e], x) <==> Stale(c, h, x) || x in exprs {
        StaleAfter(c, h, e, x);
      }
      history := h + [e];
    }

    // A load that is not invalid has seen no write since that resolves to its variable
    // (but for the exception above), nor, when that is aliased, to an aliased variable.
    lemma ForwardedLoadIsCurrent(x: nat, v: nat, i: nat, j: nat)
      requires Valid() && x !in invalidExpressions
      requires i < j < |history| && Loads(c, history[i], x, v) && history[j].Write?
      ensures history[j].target == v ==>
                !CountsAsWrite(c, v, history[j].access)
      ensures !(c.variables[v].aliased && history[j].target in c.variables && c.variables[history[j].target].aliased)
    {}

    // An expression loaded once, from v, is valid exactly as long as nothing since has
    // flushed v and nothing has named it.
    lemma OnlyLoadIsValidIff(x: nat, v: nat, i: nat)
      requires Valid() && OnlyLoad(c, history, x, v, i)
      ensures x !in invalidExpressions <==>
                && (forall j :: i < j < |history| ==> !Flushes(c, history[j], v))
                && (forall j :: 0 <= j < |history| && history[j].FlushControlDependent? ==> x !in history[j].exprs)
    {
      OnlyLoadIsStaleIff(c, history, x, v, i);
    }

    // An expression may be used as long as it is not invalid: every load behind it is
    // still fresh.
    method IsForwardable(x: nat, ghost v: nat) returns (r: bool)
      requires Valid() && exists i :: 0 <= i < |history| && Loads(c, history[i], x, v)
      ensures r ==> forall i, j :: 0 <= i < j < |history| && Loads(c, history[i], x, v) ==> !Flushes(c, history[j], v)
      ensures r <==> !Stale(c, history, x)
    {
      r := x !in invalidExpressions;
    }
  }

  ghost function ActiveSet(c: Context): set<nat> {
    Elements(c.localVariables) + Elements(c.arguments) + Elements(c.globalVariables) + Elements(c.aliasedVariables)
  }

  lemma FreshIsVariable(c: Context, h: seq<Event>, x: nat, v: nat)
    requires FreshLoad(c, h, x, v)
    ensures v in c.variables
  {}

  lemma FlushOne(c: Context, h: seq<Event>, before: set<nat>, after: set<nat>, exprs: seq<nat>, done: set<nat>, v: nat)
    requires v in c.variables
    requires forall x :: x in before <==>
               Stale(c, h, x) || exists w :: w in done && w in c.variables && FreshLoad(c, h, x, w)
    requires forall x :: x in exprs <==> FreshLoad(c, h, x, v) && v !in done
    requires forall x :: x in after <==> x in before || x in exprs
    ensures forall x :: x in after <==>
              Stale(c, h, x) || exists w :: w in done + {v} && w in c.variables && FreshLoad(c, h, x, w)
  {}

  lemma ZeroIsNoVariable(c: Context)
    requires ContextOk(c)
    ensures 0 !in c.variables
  {}
}
