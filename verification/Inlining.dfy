// Which image and sampler a shader combines, found by running it call by call with the
// actual arguments: the meaning of the program after inlining everything.
module Inlining {
  import opened Sets

  datatype ChainKind = ImageChain | SamplerChain | OtherChain

  // The instructions that matter here. `separate` marks a load of a separate image or
  // sampler; `sampled` an operand that is a sampled, non-buffer image.
  datatype Instruction =
    | Load(id: nat, ptr: nat, separate: bool)
    | AccessChain(id: nat, ptr: nat, kind: ChainKind)
    | SampledImage(image: nat, sampler: nat)
    | ImageFetch(image: nat, sampled: bool)
    | FunctionCall(callee: nat, args: seq<nat>)
    | Other

  datatype Function = Function(arguments: seq<nat>, ops: seq<Instruction>)

  // `variables` are the ids of variables, parameters included; `dummySampler` is 0 when
  // none was built.
  datatype Shader = Shader(functions: map<nat, Function>, variables: set<nat>, dummySampler: nat)

  datatype Pair = Pair(image: nat, sampler: nat)

  type Binding = map<nat, nat>

  ghost predicate Defines(op: Instruction, x: nat) {
    match op
    case Load(id, _, separate) => separate && id == x
    case AccessChain(id, _, kind) => kind.ImageChain? && id == x
    case _ => false
  }

  ghost predicate Uses(op: Instruction, x: nat) {
    match op
    case Load(_, ptr, separate) => separate && ptr == x
    case AccessChain(_, ptr, kind) => kind.ImageChain? && ptr == x
    case SampledImage(image, sampler) => image == x || sampler == x
    case ImageFetch(image, _) => image == x
    case FunctionCall(_, args) => x in args
    case Other => false
  }

  // ---- Hypotheses: valid SPIR-V with an acyclic call graph ----

  ghost predicate CallsDescend(p: Shader, rank: map<nat, nat>) {
    && rank.Keys == p.functions.Keys
    && forall f, i :: f in p.functions && 0 <= i < |p.functions[f].ops| && p.functions[f].ops[i].FunctionCall? ==>
         CallOk(p, rank, f, p.functions[f].ops[i])
  }

  ghost predicate CallOk(p: Shader, rank: map<nat, nat>, f: nat, op: Instruction)
    requires f in rank && op.FunctionCall?
  {
    && op.callee in p.functions && op.callee in rank && rank[op.callee] < rank[f]
    && |op.args| == |p.functions[op.callee].arguments|
  }

  ghost predicate DefinedIn(p: Shader, f: nat, n: nat, x: nat)
    requires f in p.functions && n <= |p.functions[f].ops|
  {
    exists i :: 0 <= i < n && Defines(p.functions[f].ops[i], x)
  }

  ghost predicate DefinedBy(p: Shader, f: nat, x: nat) {
    f in p.functions && DefinedIn(p, f, |p.functions[f].ops|, x)
  }

  // Results are not variables, have one definition, and are computed before use.
  ghost predicate SingleAssignment(p: Shader) {
    && (forall f, x :: DefinedBy(p, f, x) ==> x !in p.variables && x != p.dummySampler)
    && (forall f, g, x :: DefinedBy(p, f, x) && DefinedBy(p, g, x) ==> f == g)
    && (forall f, i, j, x ::
          f in p.functions && 0 <= i < j < |p.functions[f].ops| && Defines(p.functions[f].ops[i], x) ==>
          !Defines(p.functions[f].ops[j], x))
    && (forall f, i, x, g ::
          f in p.functions && 0 <= i < |p.functions[f].ops| && Uses(p.functions[f].ops[i], x) && DefinedBy(p, g, x) ==>
          DefinedIn(p, f, i, x))
  }

  // Parameters are variables, distinct, and named only in their own function.
  ghost predicate ParametersScoped(p: Shader) {
    && 0 !in p.variables
    && (forall f :: f in p.functions ==> Distinct(p.functions[f].arguments))
    && (forall f, a :: f in p.functions && a in p.functions[f].arguments ==> a in p.variables)
    && (forall f :: f in p.functions ==> p.dummySampler !in p.functions[f].arguments)
    && (forall f, g, a ::
          f in p.functions && g in p.functions && a in p.functions[f].arguments && a in p.functions[g].arguments ==>
          f == g)
    && (forall f, g, i, a ::
          f in p.functions && g in p.functions && 0 <= i < |p.functions[g].ops| &&
          a in p.functions[f].arguments && Uses(p.functions[g].ops[i], a) ==>
          f == g)
  }

  ghost predicate Valid(p: Shader, rank: map<nat, nat>) {
    CallsDescend(p, rank) && SingleAssignment(p) && ParametersScoped(p)
  }

  // ---- The run ----

  function Resolve(env: Binding, x: nat): nat {
    if x in env then env[x] else x
  }

  ghost function ResolveAll(env: Binding, xs: seq<nat>): (r: seq<nat>)
    ensures |r| == |xs|
    ensures forall i :: 0 <= i < |xs| ==> r[i] == Resolve(env, xs[i])
  {
    seq(|xs|, i requires 0 <= i < |xs| => Resolve(env, xs[i]))
  }

  // The parameters of a function bound to the values of the arguments of a call.
  ghost function Bind(parameters: seq<nat>, values: seq<nat>): Binding
    requires |values| <= |parameters|
  {
    if values == [] then map[]
    else
      var last := |values| - 1;
      Bind(parameters, values[..last])[parameters[last] := values[last]]
  }

  // A value that can be traced to a variable.
  ghost predicate Rooted(p: Shader, env: Binding, x: nat) {
    x in p.variables || x in env
  }

  datatype Outcome = Outcome(env: Binding, pairs: seq<Pair>, failed: bool)

  ghost function RunOp(p: Shader, rank: map<nat, nat>, f: nat, op: Instruction, env: Binding): Outcome
    requires CallsDescend(p, rank) && f in p.functions
    requires op.FunctionCall? ==> CallOk(p, rank, f, op)
    decreases rank[f], 1, 0
  {
    match op
    case Load(id, ptr, separate) => Outcome(if separate then Trace(p, env, id, ptr) else env, [], false)
    case AccessChain(id, ptr, kind) =>
      Outcome(if kind.ImageChain? then Trace(p, env, id, ptr) else env, [], kind.SamplerChain?)
    case SampledImage(image, sampler) => Outcome(env, [Pair(Resolve(env, image), Resolve(env, sampler))], false)
    case ImageFetch(image, sampled) =>
      if !sampled || !Rooted(p, env, image) then Outcome(env, [], false)
      else if p.dummySampler == 0 then Outcome(env, [], true)
      else Outcome(env, [Pair(Resolve(env, image), p.dummySampler)], false)
    case FunctionCall(callee, args) =>
      var inner := RunFunction(p, rank, callee, Bind(p.functions[callee].arguments, ResolveAll(env, args)));
      Outcome(env, inner.pairs, inner.failed)
    case Other => Outcome(env, [], false)
  }

  // What a load or an image access chain makes of its result.
  ghost function Trace(p: Shader, env: Binding, id: nat, ptr: nat): Binding {
    if Rooted(p, env, ptr) then env[id := Resolve(env, ptr)] else env - {id}
  }

  // The first n instructions of function f.
  ghost function RunOps(p: Shader, rank: map<nat, nat>, f: nat, n: nat, env: Binding): Outcome
    requires CallsDescend(p, rank) && f in p.functions && n <= |p.functions[f].ops|
    decreases rank[f], 2, n
  {
    if n == 0 then Outcome(env, [], false)
    else
      var before := RunOps(p, rank, f, n - 1, env);
      if before.failed then before
      else
        var op := p.functions[f].ops[n - 1];
        assert op.FunctionCall? ==> CallOk(p, rank, f, op);
        var last := RunOp(p, rank, f, op, before.env);
        Outcome(last.env, before.pairs + last.pairs, last.failed)
  }

  ghost function RunFunction(p: Shader, rank: map<nat, nat>, f: nat, env: Binding): Outcome
    requires CallsDescend(p, rank) && f in p.functions
    decreases rank[f], 3, 0
  {
    RunOps(p, rank, f, |p.functions[f].ops|, env)
  }

  // ---- Substitution: running with substituted arguments substitutes the result ----

  ghost function SubstPair(s: Binding, q: Pair): Pair {
    Pair(Resolve(s, q.image), Resolve(s, q.sampler))
  }

  ghost function SubstPairs(s: Binding, qs: seq<Pair>): (r: seq<Pair>)
    ensures |r| == |qs| && forall i :: 0 <= i < |qs| ==> r[i] == SubstPair(s, qs[i])
  {
    seq(|qs|, i requires 0 <= i < |qs| => SubstPair(s, qs[i]))
  }

  ghost function SubstBinding(s: Binding, env: Binding): Binding {
    map x | x in env :: Resolve(s, env[x])
  }

  // s leaves alone what a function names besides its own parameters.
  ghost predicate FixesFree(p: Shader, s: Binding) {
    && p.dummySampler !in s
    && forall f, i, x ::
         f in p.functions && 0 <= i < |p.functions[f].ops| && Uses(p.functions[f].ops[i], x) &&
         x !in p.functions[f].arguments ==>
         x !in s
  }

  ghost predicate BindsArguments(p: Shader, f: nat, env: Binding)
    requires f in p.functions
  {
    forall a :: a in p.functions[f].arguments ==> a in env
  }

  lemma {:induction false} BindKeys(parameters: seq<nat>, values: seq<nat>)
    requires |values| <= |parameters|
    ensures forall x :: x in Bind(parameters, values) <==> x in parameters[..|values|]
    decreases |values|
  {
    if values != [] {
      var last := |values| - 1;
      BindKeys(parameters, values[..last]);
      assert parameters[..|values|] == parameters[..last] + [parameters[last]];
    }
  }

  lemma {:induction false} BindAt(parameters: seq<nat>, values: seq<nat>, i: nat)
    requires |values| <= |parameters| && i < |values| && Distinct(parameters)
    ensures parameters[i] in Bind(parameters, values) && Bind(parameters, values)[parameters[i]] == values[i]
    decreases |values|
  {
    var last := |values| - 1;
    if i < last {
      BindAt(parameters, values[..last], i);
    }
  }

  lemma {:induction false} BindSubst(s: Binding, parameters: seq<nat>, values: seq<nat>)
    requires |values| <= |parameters|
    ensures Bind(parameters, ResolveAll(s, values)) == SubstBinding(s, Bind(parameters, values))
    decreases |values|
  {
    if values != [] {
      var last := |values| - 1;
      BindSubst(s, parameters, values[..last]);
      assert ResolveAll(s, values)[..last] == ResolveAll(s, values[..last]);
    }
  }

  lemma SubstResolve(p: Shader, f: nat, i: nat, s: Binding, env: Binding, x: nat)
    requires FixesFree(p, s) && f in p.functions && i < |p.functions[f].ops| && Uses(p.functions[f].ops[i], x)
    requires BindsArguments(p, f, env)
    ensures Resolve(SubstBinding(s, env), x) == Resolve(s, Resolve(env, x))
    ensures Rooted(p, SubstBinding(s, env), x) <==> Rooted(p, env, x)
  {}

  ghost predicate Substituted(s: Binding, r: Outcome, t: Outcome) {
    t.env == SubstBinding(s, r.env) && t.pairs == SubstPairs(s, r.pairs) && t.failed == r.failed
  }

  lemma SubstTrace(p: Shader, s: Binding, env: Binding, id: nat, ptr: nat)
    requires Resolve(SubstBinding(s, env), ptr) == Resolve(s, Resolve(env, ptr))
    requires Rooted(p, SubstBinding(s, env), ptr) <==> Rooted(p, env, ptr)
    ensures Trace(p, SubstBinding(s, env), id, ptr) == SubstBinding(s, Trace(p, env, id, ptr))
  {}

  lemma {:induction false} SubstOp(p: Shader, rank: map<nat, nat>, f: nat, i: nat, s: Binding, env: Binding)
    requires Valid(p, rank) && FixesFree(p, s) && f in p.functions && i < |p.functions[f].ops|
    requires BindsArguments(p, f, env)
    requires p.functions[f].ops[i].FunctionCall? ==> CallOk(p, rank, f, p.functions[f].ops[i])
    ensures Substituted(s, RunOp(p, rank, f, p.functions[f].ops[i], env),
                        RunOp(p, rank, f, p.functions[f].ops[i], SubstBinding(s, env)))
    decreases rank[f], 1, 0
  {
    hide CallsDescend, SingleAssignment, ParametersScoped, CallOk, BindsArguments, SubstBinding, Trace, Rooted;
    var op := p.functions[f].ops[i];
    match op
    case Load(id, ptr, separate) =>
      if separate {
        SubstResolve(p, f, i, s, env, ptr);
        SubstTrace(p, s, env, id, ptr);
      }
    case AccessChain(id, ptr, kind) =>
      if kind.ImageChain? {
        SubstResolve(p, f, i, s, env, ptr);
        SubstTrace(p, s, env, id, ptr);
      }
    case SampledImage(image, sampler) =>
      SubstResolve(p, f, i, s, env, image);
      SubstResolve(p, f, i, s, env, sampler);
    case ImageFetch(image, sampled) =>
      SubstResolve(p, f, i, s, env, image);
    case FunctionCall(callee, args) =>
      SubstCall(p, rank, f, i, s, env);
    case Other =>
  }

  // The values a call in position i of f binds to the callee's parameters.
  ghost function CallBinding(p: Shader, f: nat, i: nat, env: Binding): Binding
    requires f in p.functions && i < |p.functions[f].ops| && p.functions[f].ops[i].FunctionCall?
    requires var op := p.functions[f].ops[i];
             op.callee in p.functions && |op.args| <= |p.functions[op.callee].arguments|
  {
    var op := p.functions[f].ops[i];
    Bind(p.functions[op.callee].arguments, ResolveAll(env, op.args))
  }

  lemma SubstCallBinding(p: Shader, rank: map<nat, nat>, f: nat, i: nat, s: Binding, env: Binding)
    requires FixesFree(p, s) && f in p.functions && f in rank && i < |p.functions[f].ops|
    requires BindsArguments(p, f, env)
    requires p.functions[f].ops[i].FunctionCall? && CallOk(p, rank, f, p.functions[f].ops[i])
    ensures CallBinding(p, f, i, SubstBinding(s, env)) == SubstBinding(s, CallBinding(p, f, i, env))
    ensures BindsArguments(p, p.functions[f].ops[i].callee, CallBinding(p, f, i, env))
  {
    hide FixesFree, BindsArguments, SubstBinding;
    var op := p.functions[f].ops[i];
    var formals := p.functions[op.callee].arguments;
    var values := ResolveAll(env, op.args);
    forall j | 0 <= j < |op.args| ensures Resolve(SubstBinding(s, env), op.args[j]) == Resolve(s, values[j]) {
      SubstResolve(p, f, i, s, env, op.args[j]);
    }
    assert ResolveAll(SubstBinding(s, env), op.args) == ResolveAll(s, values);
    BindSubst(s, formals, values);
    CallBindsArguments(p, f, i, env);
  }

  lemma CallBindsArguments(p: Shader, f: nat, i: nat, env: Binding)
    requires f in p.functions && i < |p.functions[f].ops| && p.functions[f].ops[i].FunctionCall?
    requires var op := p.functions[f].ops[i];
             op.callee in p.functions && |op.args| == |p.functions[op.callee].arguments|
    ensures BindsArguments(p, p.functions[f].ops[i].callee, CallBinding(p, f, i, env))
    ensures CallBinding(p, f, i, env).Keys == Elements(p.functions[p.functions[f].ops[i].callee].arguments)
  {
    var op := p.functions[f].ops[i];
    var formals := p.functions[op.callee].arguments;
    BindKeys(formals, ResolveAll(env, op.args));
    assert formals[..|op.args|] == formals;
  }

  lemma {:induction false} SubstCall(p: Shader, rank: map<nat, nat>, f: nat, i: nat, s: Binding, env: Binding)
    requires Valid(p, rank) && FixesFree(p, s) && f in p.functions && i < |p.functions[f].ops|
    requires BindsArguments(p, f, env)
    requires p.functions[f].ops[i].FunctionCall? && CallOk(p, rank, f, p.functions[f].ops[i])
    ensures Substituted(s, RunOp(p, rank, f, p.functions[f].ops[i], env),
                        RunOp(p, rank, f, p.functions[f].ops[i], SubstBinding(s, env)))
    decreases rank[f], 0, 0
  {
    hide CallsDescend, SingleAssignment, ParametersScoped, BindsArguments, SubstBinding, FixesFree, RunOps;
    CallIsOk(p, rank, f, i);
    SubstCallBinding(p, rank, f, i, s, env);
    var callee := p.functions[f].ops[i].callee;
    SubstRun(p, rank, callee, |p.functions[callee].ops|, s, CallBinding(p, f, i, env));
  }

  lemma CallIsOk(p: Shader, rank: map<nat, nat>, f: nat, i: nat)
    requires CallsDescend(p, rank) && f in p.functions && i < |p.functions[f].ops|
    ensures f in rank && (p.functions[f].ops[i].FunctionCall? ==> CallOk(p, rank, f, p.functions[f].ops[i]))
  {}

  lemma SubstAppend(s: Binding, a: seq<Pair>, b: seq<Pair>)
    ensures SubstPairs(s, a + b) == SubstPairs(s, a) + SubstPairs(s, b)
  {}

  lemma {:induction false} SubstRun(p: Shader, rank: map<nat, nat>, f: nat, n: nat, s: Binding, env: Binding)
    requires Valid(p, rank) && FixesFree(p, s) && f in p.functions && n <= |p.functions[f].ops|
    requires BindsArguments(p, f, env)
    ensures Substituted(s, RunOps(p, rank, f, n, env), RunOps(p, rank, f, n, SubstBinding(s, env)))
    ensures BindsArguments(p, f, RunOps(p, rank, f, n, env).env)
    decreases rank[f], 2, n
  {
    hide CallsDescend, SingleAssignment, ParametersScoped, FixesFree, CallOk, RunOp, BindsArguments, SubstBinding,
        SubstPairs;
    if n == 0 {
      assert SubstPairs(s, []) == [];
    } else {
      SubstRun(p, rank, f, n - 1, s, env);
      var before := RunOps(p, rank, f, n - 1, env);
      if !before.failed {
        CallIsOk(p, rank, f, n - 1);
        SubstOp(p, rank, f, n - 1, s, before.env);
        ArgumentsStayBound(p, rank, f, n - 1, before.env);
        SubstAppend(s, before.pairs, RunOp(p, rank, f, p.functions[f].ops[n - 1], before.env).pairs);
      }
    }
  }

  lemma ArgumentsStayBound(p: Shader, rank: map<nat, nat>, f: nat, i: nat, env: Binding)
    requires Valid(p, rank) && f in p.functions && i < |p.functions[f].ops| && BindsArguments(p, f, env)
    requires p.functions[f].ops[i].FunctionCall? ==> CallOk(p, rank, f, p.functions[f].ops[i])
    ensures BindsArguments(p, f, RunOp(p, rank, f, p.functions[f].ops[i], env).env)
  {
    forall x | Defines(p.functions[f].ops[i], x) ensures x !in p.functions[f].arguments {
      assert DefinedBy(p, f, x);
    }
  }
}
