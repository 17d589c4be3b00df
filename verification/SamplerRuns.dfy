// What the recorded loads of a shader mean, and how a function's run on its own
// parameters relates to its run in a call.
module SamplerRuns {
  import opened Sets
  import opened Inlining
  import opened SamplerParameters

  // The variable an id was loaded from, 0 if none is known.
  function BackingVariable(p: Shader, expressions: Binding, x: nat): nat {
    if x in p.variables then x
    else if x in expressions && expressions[x] in p.variables then expressions[x]
    else 0
  }

  function BackingOrSelf(p: Shader, expressions: Binding, x: nat): nat {
    var v := BackingVariable(p, expressions, x);
    if v != 0 then v else x
  }

  ghost function Backed(p: Shader, expressions: Binding, xs: seq<nat>): (r: seq<nat>)
    ensures |r| == |xs| && forall i :: 0 <= i < |xs| ==> r[i] == BackingOrSelf(p, expressions, xs[i])
  {
    seq(|xs|, i requires 0 <= i < |xs| => BackingOrSelf(p, expressions, xs[i]))
  }

  // The global halves of a summary entry are their own backing variables.
  ghost predicate GlobalsStand(p: Shader, expressions: Binding, e: Parameter) {
    && (e.globalImage ==> BackingOrSelf(p, expressions, e.image) == e.image)
    && (e.globalSampler ==> BackingOrSelf(p, expressions, e.sampler) == e.sampler)
  }

  // ---- What the recorded loads mean inside one function ----

  // Each parameter standing for itself.
  ghost function Identity(p: Shader, f: nat): Binding
    requires f in p.functions
  {
    map a | a in p.functions[f].arguments :: a
  }

  // The run of f's first n instructions, in terms of f's own parameters.
  ghost function Symbolic(p: Shader, rank: map<nat, nat>, f: nat, n: nat): Outcome
    requires CallsDescend(p, rank) && f in p.functions && n <= |p.functions[f].ops|
  {
    RunOps(p, rank, f, n, Identity(p, f))
  }

  ghost function Summary(p: Shader, rank: map<nat, nat>, f: nat): seq<Pair>
    requires CallsDescend(p, rank) && f in p.functions
  {
    RunFunction(p, rank, f, Identity(p, f)).pairs
  }

  // Only results are recorded, with the variable the defining function's run gives them.
  ghost predicate Recorded(p: Shader, rank: map<nat, nat>, expressions: Binding)
    requires CallsDescend(p, rank)
  {
    && (forall x :: x in expressions ==> exists g :: DefinedBy(p, g, x))
    && (forall g, x :: x in expressions && DefinedBy(p, g, x) ==>
          BackingVariable(p, expressions, x) == FinalVariable(p, rank, g, x))
  }

  // The variable behind a result x of g, 0 if there is none.
  ghost function FinalVariable(p: Shader, rank: map<nat, nat>, g: nat, x: nat): nat
    requires CallsDescend(p, rank) && g in p.functions
  {
    var env := Symbolic(p, rank, g, |p.functions[g].ops|).env;
    if x in env then env[x] else 0
  }

  // The recorded loads agree with a run of the first n instructions.
  ghost predicate Agrees(p: Shader, f: nat, n: nat, env: Binding, expressions: Binding)
    requires f in p.functions && n <= |p.functions[f].ops|
  {
    && (forall a :: a in p.functions[f].arguments ==> a in env && env[a] == a)
    && (forall x :: x in env ==> x in p.functions[f].arguments || DefinedIn(p, f, n, x))
    && (forall x :: DefinedIn(p, f, n, x) ==> (x in env <==> BackingVariable(p, expressions, x) != 0))
    && (forall x :: DefinedIn(p, f, n, x) && x in env ==> env[x] == BackingVariable(p, expressions, x))
  }

  lemma OperandAgrees(p: Shader, rank: map<nat, nat>, f: nat, i: nat, env: Binding, expressions: Binding, x: nat)
    requires Valid(p, rank) && Recorded(p, rank, expressions)
    requires f in p.functions && i < |p.functions[f].ops| && Uses(p.functions[f].ops[i], x)
    requires Agrees(p, f, i, env, expressions)
    ensures BackingOrSelf(p, expressions, x) == Resolve(env, x)
    ensures BackingVariable(p, expressions, x) != 0 <==> Rooted(p, env, x)
  {}

  lemma TraceAgrees(p: Shader, f: nat, i: nat, env: Binding, expressions: Binding, id: nat, v: nat, after: Binding)
    requires f in p.functions && i < |p.functions[f].ops| && Agrees(p, f, i, env, expressions)
    requires id !in p.functions[f].arguments
    requires forall x :: DefinedIn(p, f, i + 1, x) <==> DefinedIn(p, f, i, x) || x == id
    requires forall x :: x != id ==> BackingVariable(p, after, x) == BackingVariable(p, expressions, x)
    requires BackingVariable(p, after, id) == v
    ensures Agrees(p, f, i + 1, if v != 0 then env[id := v] else env - {id}, after)
  {}

  // A recorded load keeps the agreement.
  lemma LoadAgrees(p: Shader, rank: map<nat, nat>, f: nat, i: nat, env: Binding, expressions: Binding, id: nat,
      ptr: nat)
    requires Valid(p, rank) && Recorded(p, rank, expressions)
    requires f in p.functions && i < |p.functions[f].ops| && Agrees(p, f, i, env, expressions)
    requires Uses(p.functions[f].ops[i], ptr) && forall x :: Defines(p.functions[f].ops[i], x) <==> x == id
    ensures Agrees(p, f, i + 1, Trace(p, env, id, ptr), expressions[id := BackingVariable(p, expressions, ptr)])
  {
    hide Agrees, Recorded, CallsDescend, Uses;
    var v := BackingVariable(p, expressions, ptr);
    var after := expressions[id := v];
    OperandAgrees(p, rank, f, i, env, expressions, ptr);
    DefinesIsDefined(p, rank, f, i, id);
    TraceAgrees(p, f, i, env, expressions, id, v, after);
  }

  lemma DefinesIsDefined(p: Shader, rank: map<nat, nat>, f: nat, i: nat, id: nat)
    requires Valid(p, rank) && f in p.functions && i < |p.functions[f].ops|
    requires forall x :: Defines(p.functions[f].ops[i], x) <==> x == id
    ensures id !in p.variables && id !in p.functions[f].arguments && DefinedBy(p, f, id)
    ensures forall x :: DefinedIn(p, f, i + 1, x) <==> DefinedIn(p, f, i, x) || x == id
  {
    hide CallsDescend;
    assert DefinedBy(p, f, id) by {
      assert Defines(p.functions[f].ops[i], id);
    }
    forall x ensures DefinedIn(p, f, i + 1, x) <==> DefinedIn(p, f, i, x) || x == id {}
  }

  lemma LoadRecorded(p: Shader, rank: map<nat, nat>, expressions: Binding, f: nat, id: nat, v: nat)
    requires Valid(p, rank) && Recorded(p, rank, expressions)
    requires DefinedBy(p, f, id) && v == FinalVariable(p, rank, f, id) && (v == 0 || v in p.variables)
    ensures Recorded(p, rank, expressions[id := v])
  {
    hide FinalVariable;
    var after := expressions[id := v];
    forall x | x != id ensures BackingVariable(p, after, x) == BackingVariable(p, expressions, x) {}
    assert BackingVariable(p, after, id) == v;
  }

  // An instruction that defines nothing keeps it too.
  lemma NothingDefinedAgrees(p: Shader, f: nat, i: nat, env: Binding, expressions: Binding, after: Binding)
    requires f in p.functions && i < |p.functions[f].ops| && Agrees(p, f, i, env, expressions)
    requires forall x :: !Defines(p.functions[f].ops[i], x)
    requires forall x :: DefinedBy(p, f, x) ==> BackingVariable(p, after, x) == BackingVariable(p, expressions, x)
    ensures Agrees(p, f, i + 1, env, after)
  {}

  // An instruction changes what is known of the result it defines only.
  lemma OtherResultsStay(p: Shader, rank: map<nat, nat>, f: nat, op: Instruction, env: Binding, x: nat)
    requires CallsDescend(p, rank) && f in p.functions && (op.FunctionCall? ==> CallOk(p, rank, f, op))
    requires !Defines(op, x)
    ensures var after := RunOp(p, rank, f, op, env).env;
            (x in env <==> x in after) && (x in env ==> env[x] == after[x])
  {
    hide CallsDescend, CallOk, RunFunction, Resolve, Rooted;
  }

  lemma DefinedOnce(p: Shader, rank: map<nat, nat>, f: nat, i: nat, n: nat, x: nat)
    requires Valid(p, rank) && f in p.functions && i <= n < |p.functions[f].ops| && DefinedIn(p, f, i, x)
    ensures !Defines(p.functions[f].ops[n], x)
  {
    hide CallsDescend, ParametersScoped, Defines;
  }

  // After its definition nothing changes what a run knows of a result.
  lemma {:induction false} ResultsStay(p: Shader, rank: map<nat, nat>, f: nat, i: nat, n: nat, x: nat, s: Binding)
    requires Valid(p, rank) && f in p.functions && i <= n <= |p.functions[f].ops| && DefinedIn(p, f, i, x)
    ensures var a, b := RunOps(p, rank, f, i, s).env, RunOps(p, rank, f, n, s).env;
            (x in a <==> x in b) && (x in a ==> a[x] == b[x])
    decreases n
  {
    hide CallsDescend, SingleAssignment, ParametersScoped, DefinedIn, Defines, RunOp;
    if i < n {
      ResultsStay(p, rank, f, i, n - 1, x, s);
      CallIsOk(p, rank, f, n - 1);
      DefinedOnce(p, rank, f, i, n - 1, x);
      OtherResultsStay(p, rank, f, p.functions[f].ops[n - 1], RunOps(p, rank, f, n - 1, s).env, x);
    }
  }

  // What a load records is what the whole run will know.
  lemma LoadIsFinal(p: Shader, rank: map<nat, nat>, f: nat, i: nat, id: nat, ptr: nat)
    requires Valid(p, rank) && f in p.functions && i < |p.functions[f].ops| && !Symbolic(p, rank, f, i).failed
    requires match p.functions[f].ops[i]
             case Load(x, q, separate) => separate && x == id && q == ptr
             case AccessChain(x, q, kind) => kind.ImageChain? && x == id && q == ptr
             case _ => false
    ensures var env := Symbolic(p, rank, f, i).env;
            FinalVariable(p, rank, f, id) == if Rooted(p, env, ptr) then Resolve(env, ptr) else 0
  {
    assert DefinedIn(p, f, i + 1, id) by {
      assert Defines(p.functions[f].ops[i], id);
    }
    ResultsStay(p, rank, f, i + 1, |p.functions[f].ops|, id, Identity(p, f));
  }

  lemma StartAgrees(p: Shader, f: nat, expressions: Binding)
    requires f in p.functions
    ensures Agrees(p, f, 0, Identity(p, f), expressions)
  {}

  // ---- From the symbolic run to the actual one ----

  lemma ArgumentBindingFixes(p: Shader, rank: map<nat, nat>, f: nat, s: Binding)
    requires Valid(p, rank) && f in p.functions && s.Keys == Elements(p.functions[f].arguments)
    ensures FixesFree(p, s)
  {}

  lemma IdentitySubst(p: Shader, f: nat, s: Binding)
    requires f in p.functions && s.Keys == Elements(p.functions[f].arguments)
    ensures SubstBinding(s, Identity(p, f)) == s
    ensures BindsArguments(p, f, Identity(p, f))
  {}

  // The actual run of f is its symbolic run with the arguments substituted.
  lemma ActualIsSubstituted(p: Shader, rank: map<nat, nat>, f: nat, n: nat, s: Binding)
    requires Valid(p, rank) && f in p.functions && n <= |p.functions[f].ops|
    requires s.Keys == Elements(p.functions[f].arguments)
    ensures Substituted(s, Symbolic(p, rank, f, n), RunOps(p, rank, f, n, s))
    ensures BindsArguments(p, f, Symbolic(p, rank, f, n).env)
  {
    ArgumentBindingFixes(p, rank, f, s);
    IdentitySubst(p, f, s);
    SubstRun(p, rank, f, n, s, Identity(p, f));
  }

  // A function's summary names no parameter of another function.
  lemma SummaryAvoids(p: Shader, rank: map<nat, nat>, f: nat, g: nat)
    requires Valid(p, rank) && f in p.functions && g in p.functions && f != g
    ensures Avoids(Summary(p, rank, g), p.functions[f].arguments)
  {
    var ga, fa := p.functions[g].arguments, p.functions[f].arguments;
    var s: Binding := map a | a in fa :: a + 1;
    assert s.Keys == Elements(fa);
    ArgumentBindingFixes(p, rank, f, s);
    var id := Identity(p, g);
    assert SubstBinding(s, id) == id;
    SubstRun(p, rank, g, |p.functions[g].ops|, s, id);
    var qs := Summary(p, rank, g);
    forall i | 0 <= i < |qs| ensures qs[i].image !in fa && qs[i].sampler !in fa {
      assert qs[i] == SubstPair(s, qs[i]);
    }
  }

  // ---- Ids that stand for themselves ----

  ghost predicate Settled(p: Shader, rank: map<nat, nat>, v: nat)
    requires CallsDescend(p, rank)
  {
    v in p.variables || forall g :: DefinedBy(p, g, v) ==> FinalVariable(p, rank, g, v) == 0
  }

  ghost predicate PairSettled(p: Shader, rank: map<nat, nat>, q: Pair)
    requires CallsDescend(p, rank)
  {
    Settled(p, rank, q.image) && Settled(p, rank, q.sampler)
  }

  ghost predicate BindingSettled(p: Shader, rank: map<nat, nat>, s: Binding)
    requires CallsDescend(p, rank)
  {
    forall x :: x in s ==> Settled(p, rank, s[x])
  }

  lemma SettledStands(p: Shader, rank: map<nat, nat>, expressions: Binding, v: nat)
    requires Valid(p, rank) && Recorded(p, rank, expressions) && Settled(p, rank, v)
    ensures BackingOrSelf(p, expressions, v) == v
  {}

  lemma OperandSettled(p: Shader, rank: map<nat, nat>, f: nat, i: nat, s: Binding, x: nat)
    requires Valid(p, rank) && f in p.functions && i < |p.functions[f].ops| && Uses(p.functions[f].ops[i], x)
    requires s.Keys == Elements(p.functions[f].arguments) && BindingSettled(p, rank, RunOps(p, rank, f, i, s).env)
    ensures Settled(p, rank, Resolve(RunOps(p, rank, f, i, s).env, x))
  {
    var env := RunOps(p, rank, f, i, s).env;
    if x !in env && x !in p.variables {
      forall g | DefinedBy(p, g, x) ensures FinalVariable(p, rank, g, x) == 0 {
        assert DefinedIn(p, f, i, x);
        assert DefinedBy(p, f, x);
        ActualIsSubstituted(p, rank, f, i, s);
        ResultsStay(p, rank, f, i, |p.functions[f].ops|, x, Identity(p, f));
      }
    }
  }

  lemma {:induction false} RunSettled(p: Shader, rank: map<nat, nat>, f: nat, n: nat, s: Binding)
    requires Valid(p, rank) && f in p.functions && n <= |p.functions[f].ops|
    requires s.Keys == Elements(p.functions[f].arguments) && BindingSettled(p, rank, s)
    ensures BindingSettled(p, rank, RunOps(p, rank, f, n, s).env)
    ensures forall q :: q in RunOps(p, rank, f, n, s).pairs ==> PairSettled(p, rank, q)
    decreases rank[f], n
  {
    hide CallsDescend, SingleAssignment, ParametersScoped, Settled, Resolve;
    if n > 0 {
      RunSettled(p, rank, f, n - 1, s);
      var before := RunOps(p, rank, f, n - 1, s);
      if !before.failed {
        CallIsOk(p, rank, f, n - 1);
        OpSettled(p, rank, f, n - 1, s);
      }
    }
  }

  lemma {:induction false} OpSettled(p: Shader, rank: map<nat, nat>, f: nat, i: nat, s: Binding)
    requires Valid(p, rank) && f in p.functions && i < |p.functions[f].ops|
    requires s.Keys == Elements(p.functions[f].arguments) && BindingSettled(p, rank, RunOps(p, rank, f, i, s).env)
    requires p.functions[f].ops[i].FunctionCall? ==> CallOk(p, rank, f, p.functions[f].ops[i])
    ensures var r := RunOp(p, rank, f, p.functions[f].ops[i], RunOps(p, rank, f, i, s).env);
            BindingSettled(p, rank, r.env) && forall q :: q in r.pairs ==> PairSettled(p, rank, q)
    decreases rank[f], i, 0
  {
    hide CallsDescend, ParametersScoped, SingleAssignment, Settled, RunOps;
    var env := RunOps(p, rank, f, i, s).env;
    match p.functions[f].ops[i]
    case Load(id, ptr, separate) =>
      if separate {
        OperandSettled(p, rank, f, i, s, ptr);
      }
    case AccessChain(id, ptr, kind) =>
      if kind.ImageChain? {
        OperandSettled(p, rank, f, i, s, ptr);
      }
    case SampledImage(image, sampler) =>
      OperandSettled(p, rank, f, i, s, image);
      OperandSettled(p, rank, f, i, s, sampler);
    case ImageFetch(image, sampled) =>
      OperandSettled(p, rank, f, i, s, image);
      DummySettled(p, rank);
    case FunctionCall(callee, args) =>
      CallBindingSettled(p, rank, f, i, s);
      CallBindsArguments(p, f, i, env);
      RunSettled(p, rank, callee, |p.functions[callee].ops|, CallBinding(p, f, i, env));
    case Other =>
  }

  lemma DummySettled(p: Shader, rank: map<nat, nat>)
    requires Valid(p, rank)
    ensures Settled(p, rank, p.dummySampler)
  {}

  lemma CallBindingSettled(p: Shader, rank: map<nat, nat>, f: nat, i: nat, s: Binding)
    requires Valid(p, rank) && f in p.functions && i < |p.functions[f].ops|
    requires s.Keys == Elements(p.functions[f].arguments) && BindingSettled(p, rank, RunOps(p, rank, f, i, s).env)
    requires p.functions[f].ops[i].FunctionCall? && CallOk(p, rank, f, p.functions[f].ops[i])
    ensures BindingSettled(p, rank, CallBinding(p, f, i, RunOps(p, rank, f, i, s).env))
  {
    hide Settled, RunOps, SingleAssignment, CallsDescend;
    var env := RunOps(p, rank, f, i, s).env;
    var op := p.functions[f].ops[i];
    var formals := p.functions[op.callee].arguments;
    var values := ResolveAll(env, op.args);
    CallBindsArguments(p, f, i, env);
    forall a | a in CallBinding(p, f, i, env) ensures Settled(p, rank, CallBinding(p, f, i, env)[a]) {
      assert a in Elements(formals);
      var j :| 0 <= j < |formals| && formals[j] == a;
      BindAt(formals, values, j);
      OperandSettled(p, rank, f, i, s, op.args[j]);
    }
  }

  lemma SummarySettled(p: Shader, rank: map<nat, nat>, f: nat)
    requires Valid(p, rank) && f in p.functions
    ensures forall q :: q in Summary(p, rank, f) ==> PairSettled(p, rank, q)
  {
    RunSettled(p, rank, f, |p.functions[f].ops|, Identity(p, f));
  }
}
