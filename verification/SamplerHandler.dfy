// The handler that discovers combined image samplers while it walks the program.
module SamplerHandler {
  import opened Sets
  import opened Inlining
  import opened SamplerParameters
  import opened SamplerRuns

  // The tables the handler fills for all functions together.
  datatype Tables = Tables(expressions: Binding, parameters: map<nat, seq<Parameter>>, todo: map<nat, bool>)

  ghost predicate Shaped(p: Shader, t: Tables) {
    t.parameters.Keys == p.functions.Keys && t.todo.Keys == p.functions.Keys
  }

  // The list of a function that was never called is empty, that of any other complete.
  ghost predicate Summarised(p: Shader, rank: map<nat, nat>, t: Tables, h: nat)
    requires CallsDescend(p, rank) && Shaped(p, t) && h in p.functions
  {
    if t.todo[h] then t.parameters[h] == []
    else t.parameters[h] == AddParameters(p.functions[h].arguments, [], Summary(p, rank, h))
  }

  ghost predicate SummarisedBelow(p: Shader, rank: map<nat, nat>, t: Tables, r: nat)
    requires CallsDescend(p, rank) && Shaped(p, t)
  {
    forall h :: h in p.functions && rank[h] < r ==> Summarised(p, rank, t, h)
  }

  // The functions called by the first n instructions of f are summarised.
  ghost predicate CallsDone(p: Shader, f: nat, n: nat, t: Tables)
    requires f in p.functions && n <= |p.functions[f].ops|
  {
    forall i :: 0 <= i < n && p.functions[f].ops[i].FunctionCall? ==>
      p.functions[f].ops[i].callee in t.todo && !t.todo[p.functions[f].ops[i].callee]
  }

  // Whatever a summarised function calls is summarised.
  ghost predicate CallsClosed(p: Shader, t: Tables)
    requires Shaped(p, t)
  {
    forall h :: h in p.functions && !t.todo[h] ==> CallsDone(p, h, |p.functions[h].ops|, t)
  }

  // h is called by f, directly or through other functions.
  ghost predicate CalledFrom(p: Shader, rank: map<nat, nat>, f: nat, h: nat)
    requires CallsDescend(p, rank) && f in p.functions
    decreases rank[f]
  {
    exists i :: 0 <= i < |p.functions[f].ops| && p.functions[f].ops[i].FunctionCall? &&
      (CallIsOk(p, rank, f, i);
       p.functions[f].ops[i].callee == h || CalledFrom(p, rank, p.functions[f].ops[i].callee, h))
  }

  // While f runs, nothing is touched that belongs to its callers, and only functions called
  // from f become summarised.
  ghost predicate Kept(p: Shader, rank: map<nat, nat>, f: nat, t: Tables, u: Tables)
    requires CallsDescend(p, rank) && Shaped(p, t) && f in p.functions
  {
    && Shaped(p, u)
    && TodoKept(p, rank, f, t.todo, u.todo)
    && LoadsKept(p, rank, f, t.expressions, u.expressions)
    && ListsKept(p, rank, f, t, u)
  }

  ghost predicate TodoKept(p: Shader, rank: map<nat, nat>, f: nat, before: map<nat, bool>, after: map<nat, bool>)
    requires CallsDescend(p, rank) && f in p.functions
    requires before.Keys == p.functions.Keys && after.Keys == p.functions.Keys
  {
    && after[f] == before[f]
    && (forall h :: h in p.functions && !before[h] ==> !after[h])
    && (forall h :: h in p.functions && before[h] && !after[h] ==> CalledFrom(p, rank, f, h))
  }

  ghost predicate LoadsKept(p: Shader, rank: map<nat, nat>, f: nat, before: Binding, after: Binding)
    requires CallsDescend(p, rank) && f in p.functions
  {
    forall g, x :: DefinedBy(p, g, x) && g != f && rank[g] >= rank[f] ==>
      BackingVariable(p, after, x) == BackingVariable(p, before, x)
  }

  ghost predicate ListsKept(p: Shader, rank: map<nat, nat>, f: nat, t: Tables, u: Tables)
    requires CallsDescend(p, rank) && Shaped(p, t) && Shaped(p, u) && f in p.functions
  {
    forall h :: h in p.functions && h != f && rank[h] >= rank[f] ==>
      u.parameters[h] == t.parameters[h] && u.todo[h] == t.todo[h]
  }

  ghost predicate TablesReady(p: Shader, rank: map<nat, nat>, f: nat, t: Tables)
    requires CallsDescend(p, rank) && f in p.functions
  {
    && Shaped(p, t) && Recorded(p, rank, t.expressions) && SummarisedBelow(p, rank, t, rank[f])
    && CallsClosed(p, t)
  }

  // How far a traversal of f has come after n instructions.
  ghost predicate Progress(p: Shader, rank: map<nat, nat>, f: nat, n: nat, frame: Binding, active: bool,
      list0: seq<Pair>, t0: Tables, list: seq<Pair>, t: Tables)
    requires Valid(p, rank) && Shaped(p, t0) && f in p.functions && n <= |p.functions[f].ops|
  {
    var r := Symbolic(p, rank, f, n);
    && TablesReady(p, rank, f, t) && Kept(p, rank, f, t0, t) && CallsDone(p, f, n, t)
    && !r.failed && Agrees(p, f, n, r.env, t.expressions)
    && list == AddPairs(list0, SubstPairs(frame, r.pairs))
    && t.parameters[f] ==
       (if active && t0.todo[f] then AddParameters(p.functions[f].arguments, [], r.pairs) else t0.parameters[f])
  }

  // What instruction i of f does to the list of pairs and to the tables. `active` says
  // that f was called, rather than being the entry function.
  ghost predicate Stepped(p: Shader, rank: map<nat, nat>, f: nat, i: nat, frame: Binding, active: bool,
      list: seq<Pair>, t: Tables, list': seq<Pair>, u: Tables)
    requires Valid(p, rank) && Shaped(p, t) && f in p.functions && i < |p.functions[f].ops|
  {
    CallIsOk(p, rank, f, i);
    var r := RunOp(p, rank, f, p.functions[f].ops[i], Symbolic(p, rank, f, i).env);
    && Kept(p, rank, f, t, u) && SummarisedBelow(p, rank, u, rank[f]) && CallsClosed(p, u)
    && (p.functions[f].ops[i].FunctionCall? ==> !u.todo[p.functions[f].ops[i].callee])
    && Agrees(p, f, i + 1, r.env, u.expressions) && Recorded(p, rank, u.expressions)
    && list' == AddPairs(list, SubstPairs(frame, r.pairs))
    && u.parameters[f] ==
       (if active && t.todo[f] then AddParameters(p.functions[f].arguments, t.parameters[f], r.pairs)
        else t.parameters[f])
  }

  class CombinedImageSamplerHandler {
    const p: Shader
    ghost const rank: map<nat, nat>
    // SPIRExpression::loaded_from of the loads seen so far.
    var expressions: Binding
    var parameterRemapping: seq<Binding>
    var functions: seq<nat>
    var combinedImageSamplers: seq<Pair>
    var combinedParameters: map<nat, seq<Parameter>>
    var doCombinedParameters: map<nat, bool>

    ghost function AllTables(): Tables
      reads this
    {
      Tables(expressions, combinedParameters, doCombinedParameters)
    }

    // The bindings of the current frame: none in the entry function.
    ghost function Frame(): Binding
      reads this
    {
      if parameterRemapping == [] then map[] else parameterRemapping[|parameterRemapping| - 1]
    }

    // The stacks are those of a run that is inside f.
    ghost predicate Inside(f: nat)
      reads this
    {
      && f in p.functions
      && Frame().Keys == Elements(p.functions[f].arguments)
      && |functions| == |parameterRemapping|
      && (functions != [] ==> functions[|functions| - 1] == f)
      && (forall h :: h in functions ==> h in p.functions)
    }

    constructor (p: Shader, ghost rank: map<nat, nat>)
      requires Valid(p, rank)
      ensures this.p == p && this.rank == rank
      ensures expressions == map[] && parameterRemapping == [] && functions == [] && combinedImageSamplers == []
      ensures Shaped(p, AllTables()) && Recorded(p, rank, expressions)
      ensures forall h :: h in p.functions ==> doCombinedParameters[h] && Summarised(p, rank, AllTables(), h)
    {
      this.p := p;
      this.rank := rank;
      expressions, parameterRemapping, functions, combinedImageSamplers := map[], [], [], [];
      combinedParameters := map h | h in p.functions :: [];
      doCombinedParameters := map h | h in p.functions :: true;
    }

    function RemapParameter(x: nat): nat
      reads this
    {
      var v := BackingOrSelf(p, expressions, x);
      if parameterRemapping == [] then v
      else Resolve(parameterRemapping[|parameterRemapping| - 1], v)
    }

    method RegisterCombinedImageSampler(caller: nat, image: nat, sampler: nat)
      requires caller in p.functions && caller in combinedParameters
      modifies `combinedParameters
      ensures combinedParameters == old(combinedParameters)[caller :=
                AddParameter(p.functions[caller].arguments, old(combinedParameters)[caller], Pair(image, sampler))]
    {
      var args := p.functions[caller].arguments;
      var texture, samp := IndexOf(args, image), IndexOf(args, sampler);
      var param := Parameter(image, sampler, true, true);
      if texture < |args| {
        param := param.(globalImage := false, image := texture);
      }
      if samp < |args| {
        param := param.(globalSampler := false, sampler := samp);
      }
      assert param == Encode(args, Pair(image, sampler));
      if param.globalImage && param.globalSampler {
        return;
      }
      if param !in combinedParameters[caller] {
        combinedParameters := combinedParameters[caller := combinedParameters[caller] + [param]];
      }
    }

    // One instruction other than a call. False when it cannot be handled.
    method Handle(op: Instruction, ghost f: nat, ghost i: nat) returns (ok: bool)
      requires Valid(p, rank) && Inside(f) && i < |p.functions[f].ops| && p.functions[f].ops[i] == op
      requires !op.FunctionCall? && Recorded(p, rank, expressions)
      requires !Symbolic(p, rank, f, i).failed && Agrees(p, f, i, Symbolic(p, rank, f, i).env, expressions)
      requires functions != [] ==> f in combinedParameters && f in doCombinedParameters
      modifies `expressions, `combinedImageSamplers, `combinedParameters
      ensures var r := RunOp(p, rank, f, op, Symbolic(p, rank, f, i).env);
              && (ok <==> !r.failed)
              && (ok ==>
                    && Agrees(p, f, i + 1, r.env, expressions) && Recorded(p, rank, expressions)
                    && combinedImageSamplers == AddPairs(old(combinedImageSamplers), SubstPairs(Frame(), r.pairs))
                    && combinedParameters ==
                       if functions != [] && doCombinedParameters[f] then
                         old(combinedParameters)[f :=
                           AddParameters(p.functions[f].arguments, old(combinedParameters)[f], r.pairs)]
                       else old(combinedParameters))
      ensures forall x :: !DefinedBy(p, f, x) ==>
                BackingVariable(p, expressions, x) == BackingVariable(p, old(expressions), x)
    {
      hide CallsDescend, SingleAssignment, ParametersScoped, Agrees, Recorded, Symbolic, DefinedIn, BackingVariable;
      ghost var env := Symbolic(p, rank, f, i).env;
      match op
      case Load(id, ptr, separate) =>
        if separate {
          RegisterRead(id, ptr, f, i);
        } else {
          NothingDefinedAgrees(p, f, i, env, expressions, expressions);
        }
        return true;
      case AccessChain(id, ptr, kind) =>
        if kind.SamplerChain? {
          return false;
        }
        if kind.ImageChain? {
          RegisterRead(id, ptr, f, i);
        } else {
          NothingDefinedAgrees(p, f, i, env, expressions, expressions);
        }
        return true;
      case ImageFetch(image, sampled) =>
        OperandAgrees(p, rank, f, i, env, expressions, image);
        NothingDefinedAgrees(p, f, i, env, expressions, expressions);
        if BackingVariable(p, expressions, image) == 0 {
          return true;
        }
        if !sampled {
          return true;
        }
        if p.dummySampler == 0 {
          return false;
        }
        Combine(image, p.dummySampler, true, f, i);
        return true;
      case SampledImage(image, sampler) =>
        NothingDefinedAgrees(p, f, i, env, expressions, expressions);
        Combine(image, sampler, false, f, i);
        return true;
      case Other =>
        NothingDefinedAgrees(p, f, i, env, expressions, expressions);
        return true;
    }

    // A separate image or sampler was loaded: remember where from.
    method RegisterRead(id: nat, ptr: nat, ghost f: nat, ghost i: nat)
      requires Valid(p, rank) && f in p.functions && i < |p.functions[f].ops| && Recorded(p, rank, expressions)
      requires match p.functions[f].ops[i]
               case Load(x, q, separate) => separate && x == id && q == ptr
               case AccessChain(x, q, kind) => kind.ImageChain? && x == id && q == ptr
               case _ => false
      requires !Symbolic(p, rank, f, i).failed
      requires Agrees(p, f, i, Symbolic(p, rank, f, i).env, expressions)
      modifies `expressions
      ensures Agrees(p, f, i + 1, Trace(p, Symbolic(p, rank, f, i).env, id, ptr), expressions)
      ensures Recorded(p, rank, expressions)
      ensures forall x :: !DefinedBy(p, f, x) ==>
                BackingVariable(p, expressions, x) == BackingVariable(p, old(expressions), x)
    {
      hide CallsDescend, SingleAssignment, ParametersScoped, Agrees, Recorded, Symbolic, Trace, FinalVariable;
      LoadIsFinal(p, rank, f, i, id, ptr);
      OperandAgrees(p, rank, f, i, Symbolic(p, rank, f, i).env, expressions, ptr);
      LoadAgrees(p, rank, f, i, Symbolic(p, rank, f, i).env, expressions, id, ptr);
      assert DefinedBy(p, f, id);
      LoadRecorded(p, rank, expressions, f, id, BackingVariable(p, expressions, ptr));
      expressions := expressions[id := BackingVariable(p, expressions, ptr)];
    }

    // Combine an image with a sampler, or with the dummy sampler of a fetch.
    method Combine(image: nat, sampler: nat, fetch: bool, ghost f: nat, ghost i: nat)
      requires Valid(p, rank) && Inside(f) && i < |p.functions[f].ops| && Recorded(p, rank, expressions)
      requires Agrees(p, f, i, Symbolic(p, rank, f, i).env, expressions)
      requires Uses(p.functions[f].ops[i], image)
      requires if fetch then sampler == p.dummySampler else Uses(p.functions[f].ops[i], sampler)
      requires functions != [] ==> f in combinedParameters && f in doCombinedParameters
      modifies `combinedImageSamplers, `combinedParameters
      ensures var env := Symbolic(p, rank, f, i).env;
              var q := Pair(Resolve(env, image), if fetch then sampler else Resolve(env, sampler));
              && combinedImageSamplers == AddPairs(old(combinedImageSamplers), SubstPairs(Frame(), [q]))
              && combinedParameters ==
                 if functions != [] && doCombinedParameters[f] then
                   old(combinedParameters)[f :=
                     AddParameters(p.functions[f].arguments, old(combinedParameters)[f], [q])]
                 else old(combinedParameters)
    {
      hide CallsDescend, SingleAssignment, ParametersScoped, Agrees, Recorded, Symbolic, DefinedIn, BackingVariable;
      ghost var env := Symbolic(p, rank, f, i).env;
      OperandAgrees(p, rank, f, i, env, expressions, image);
      if fetch {
        DummyStands(p, rank, expressions, f, Frame());
      } else {
        OperandAgrees(p, rank, f, i, env, expressions, sampler);
      }
      ghost var q := Pair(Resolve(env, image), if fetch then sampler else Resolve(env, sampler));
      if functions != [] {
        var callee := functions[|functions| - 1];
        if doCombinedParameters[callee] {
          assert AddParameters(p.functions[f].arguments, combinedParameters[f], [q])
              == AddParameter(p.functions[f].arguments, combinedParameters[f], q) by {
            assert [q][..0] == [];
          }
          RegisterCombinedImageSampler(callee, BackingOrSelf(p, expressions, image),
              BackingOrSelf(p, expressions, sampler));
        }
      }
      var imageId := RemapParameter(image);
      var samplerId := if fetch then p.dummySampler else RemapParameter(sampler);
      assert SubstPairs(Frame(), [q]) == [Pair(imageId, samplerId)];
      assert [Pair(imageId, samplerId)][..0] == [];
      if Pair(imageId, samplerId) !in combinedImageSamplers {
        combinedImageSamplers := combinedImageSamplers + [Pair(imageId, samplerId)];
      }
    }

    ghost function Remapped(args: seq<nat>): seq<nat>
      reads this
    {
      if parameterRemapping == [] then Backed(p, expressions, args)
      else ResolveAll(parameterRemapping[|parameterRemapping| - 1], Backed(p, expressions, args))
    }

    method PushRemapParameters(callee: nat, args: seq<nat>)
      requires callee in p.functions && |args| <= |p.functions[callee].arguments|
      modifies `parameterRemapping
      ensures parameterRemapping == old(parameterRemapping) + [Bind(p.functions[callee].arguments, old(Remapped(args)))]
    {
      var remapping: Binding := map[];
      ghost var values := Remapped(args);
      for i := 0 to |args|
        invariant parameterRemapping == old(parameterRemapping)
        invariant remapping == Bind(p.functions[callee].arguments, values[..i])
      {
        assert values[..i + 1][..i] == values[..i];
        remapping := remapping[p.functions[callee].arguments[i] := RemapParameter(args[i])];
      }
      assert values[..|args|] == values;
      parameterRemapping := parameterRemapping + [remapping];
    }

    method BeginFunctionScope(callee: nat, args: seq<nat>)
      requires callee in p.functions && |args| <= |p.functions[callee].arguments|
      modifies `parameterRemapping, `functions
      ensures parameterRemapping == old(parameterRemapping) + [Bind(p.functions[callee].arguments, old(Remapped(args)))]
      ensures functions == old(functions) + [callee]
    {
      PushRemapParameters(callee, args);
      functions := functions + [callee];
    }

    // The callee is summarised now; a caller still being summarised takes over its list,
    // seen through the arguments of the call.
    method EndFunctionScope(args: seq<nat>)
      requires functions != [] && |parameterRemapping| == |functions|
      requires forall h :: h in functions ==> h in p.functions && h in combinedParameters && h in doCombinedParameters
      requires |functions| > 1 ==> functions[|functions| - 2] != functions[|functions| - 1]
      requires forall e :: e in combinedParameters[functions[|functions| - 1]] ==>
                 InRange(e, |args|) && GlobalsStand(p, expressions, e)
      modifies `parameterRemapping, `functions, `doCombinedParameters, `combinedParameters
      ensures parameterRemapping == old(parameterRemapping)[..|old(functions)| - 1]
      ensures functions == old(functions)[..|old(functions)| - 1]
      ensures doCombinedParameters == old(doCombinedParameters)[old(functions)[|functions|] := false]
      ensures combinedParameters ==
                if functions != [] && old(doCombinedParameters)[functions[|functions| - 1]] then
                  var caller := functions[|functions| - 1];
                  old(combinedParameters)[caller :=
                    AddParameters(p.functions[caller].arguments, old(combinedParameters)[caller],
                      DecodeAll(Backed(p, expressions, args), old(combinedParameters)[old(functions)[|functions|]]))]
                else old(combinedParameters)
    {
      var callee := functions[|functions| - 1];
      parameterRemapping := parameterRemapping[..|parameterRemapping| - 1];
      doCombinedParameters := doCombinedParameters[callee := false];
      var params := combinedParameters[callee];
      functions := functions[..|functions| - 1];
      if functions == [] {
        return;
      }
      var caller := functions[|functions| - 1];
      assert caller in old(functions);
      if doCombinedParameters[caller] {
        TakeOver(caller, args, params);
      }
    }

    method TakeOver(caller: nat, args: seq<nat>, params: seq<Parameter>)
      requires caller in p.functions && caller in combinedParameters
      requires forall e :: e in params ==> InRange(e, |args|) && GlobalsStand(p, expressions, e)
      modifies `combinedParameters
      ensures combinedParameters == old(combinedParameters)[caller :=
                AddParameters(p.functions[caller].arguments, old(combinedParameters)[caller],
                              DecodeAll(Backed(p, expressions, args), params))]
    {
      hide Decode, GlobalsStand, BackingOrSelf, Backed, AddParameter;
      ghost var decoded := DecodeAll(Backed(p, expressions, args), params);
      ghost var list := combinedParameters[caller];
      for i := 0 to |params|
        invariant combinedParameters == old(combinedParameters)[caller :=
                    AddParameters(p.functions[caller].arguments, list, decoded[..i])]
      {
        var param := params[i];
        assert InRange(param, |args|) && GlobalsStand(p, expressions, param);
        var image := if param.globalImage then param.image else args[param.image];
        var sampler := if param.globalSampler then param.sampler else args[param.sampler];
        DecodedIsBacked(p, expressions, args, param);
        assert decoded[..i + 1][..i] == decoded[..i];
        RegisterCombinedImageSampler(caller, BackingOrSelf(p, expressions, image),
            BackingOrSelf(p, expressions, sampler));
      }
      assert decoded[..|params|] == decoded;
    }

    // Everything a run inside f relies on.
    ghost predicate Ready(f: nat)
      requires Valid(p, rank)
      reads this
    {
      Inside(f) && TablesReady(p, rank, f, AllTables())
    }

    method TraverseFunction(f: nat) returns (ok: bool)
      requires Valid(p, rank) && Ready(f) && Summarised(p, rank, AllTables(), f)
      modifies this
      ensures ok <==> !RunFunction(p, rank, f, old(Frame())).failed
      ensures ok ==> Ready(f) && parameterRemapping == old(parameterRemapping) && functions == old(functions)
      ensures ok ==> Kept(p, rank, f, old(AllTables()), AllTables())
      ensures ok ==>
                combinedImageSamplers ==
                AddPairs(old(combinedImageSamplers), RunFunction(p, rank, f, old(Frame())).pairs)
      ensures ok ==> CallsDone(p, f, |p.functions[f].ops|, AllTables())
      ensures ok && functions != [] ==>
                combinedParameters[f] == AddParameters(p.functions[f].arguments, [], Summary(p, rank, f))
      ensures ok && functions == [] ==> combinedParameters[f] == old(combinedParameters)[f]
      decreases rank[f], 1
    {
      hide CallsDescend, SingleAssignment, ParametersScoped, Recorded, SummarisedBelow, Progress, Agrees, Kept,
          Stepped, Summarised, Symbolic, CallsDone, CallsClosed;
      ghost var t0, frame, list0 := AllTables(), Frame(), combinedImageSamplers;
      ghost var active := functions != [];
      var ops := p.functions[f].ops;
      StartProgress(p, rank, f, frame, active, list0, t0);
      for i := 0 to |ops|
        invariant Inside(f) && parameterRemapping == old(parameterRemapping) && functions == old(functions)
        invariant Progress(p, rank, f, i, frame, active, list0, t0, combinedImageSamplers, AllTables())
      {
        ghost var t, list := AllTables(), combinedImageSamplers;
        ProgressMeans(p, rank, f, i, frame, active, list0, t0, list, t);
        CallIsOk(p, rank, f, i);
        var handled;
        if ops[i].FunctionCall? {
          handled := FollowCall(ops[i].callee, ops[i].args, f, i);
        } else {
          handled := HandleOp(ops[i], f, i);
        }
        if !handled {
          FailureStays(p, rank, f, i + 1, frame);
          return false;
        }
        StepExtends(p, rank, f, i, frame, active, list0, t0, list, t, combinedImageSamplers, AllTables());
      }
      ProgressEnds(p, rank, f, frame, active, list0, t0, combinedImageSamplers, AllTables());
      return true;
    }

    // An instruction that is not a call.
    method HandleOp(op: Instruction, ghost f: nat, ghost i: nat) returns (ok: bool)
      requires Valid(p, rank) && Ready(f) && i < |p.functions[f].ops|
      requires p.functions[f].ops[i] == op && !op.FunctionCall?
      requires !Symbolic(p, rank, f, i).failed && Agrees(p, f, i, Symbolic(p, rank, f, i).env, expressions)
      modifies this
      ensures ok <==> !Symbolic(p, rank, f, i + 1).failed
      ensures parameterRemapping == old(parameterRemapping) && functions == old(functions)
      ensures ok ==>
                Stepped(p, rank, f, i, old(Frame()), functions != [], old(combinedImageSamplers), old(AllTables()),
                        combinedImageSamplers, AllTables())
    {
      hide CallsDescend, SingleAssignment, ParametersScoped, Recorded, Agrees, SummarisedBelow, Stepped, RunOp,
          CallsClosed;
      ghost var t, list := AllTables(), combinedImageSamplers;
      ok := Handle(op, f, i);
      if ok {
        PlainSteps(p, rank, f, i, Frame(), functions != [], list, t, combinedImageSamplers, AllTables());
      }
    }

    // A call: traverse the callee with its parameters bound, then go on in the caller.
    method FollowCall(callee: nat, args: seq<nat>, ghost f: nat, ghost i: nat) returns (ok: bool)
      requires Valid(p, rank) && Ready(f) && i < |p.functions[f].ops|
      requires p.functions[f].ops[i] == FunctionCall(callee, args) && CallOk(p, rank, f, p.functions[f].ops[i])
      requires !Symbolic(p, rank, f, i).failed && Agrees(p, f, i, Symbolic(p, rank, f, i).env, expressions)
      modifies this
      ensures ok <==> !Symbolic(p, rank, f, i + 1).failed
      ensures ok ==> parameterRemapping == old(parameterRemapping) && functions == old(functions)
      ensures ok ==>
                Stepped(p, rank, f, i, old(Frame()), functions != [], old(combinedImageSamplers), old(AllTables()),
                        combinedImageSamplers, AllTables())
      decreases rank[f], 0
    {
      hide CallsDescend, SingleAssignment, ParametersScoped, Recorded, Agrees, Kept, SummarisedBelow, Summarised,
          Stepped, RunOp, CallsDone, CallsClosed;
      ghost var t0, frame, list0 := AllTables(), Frame(), combinedImageSamplers;
      ghost var actual := RunOps(p, rank, f, i, frame).env;
      CallIsKnown(p, rank, t0, f, callee);
      RemappedIsResolved(p, rank, f, i, frame, expressions);
      CalleeOutcomes(p, rank, f, i, frame);
      BeginCall(callee, args, f, i, actual);
      ok := TraverseFunction(callee);
      if ok {
        FinishCall(callee, args, f, i, frame, list0, t0);
      }
    }

    method BeginCall(callee: nat, args: seq<nat>, ghost f: nat, ghost i: nat, ghost actual: Binding)
      requires Valid(p, rank) && Inside(f) && i < |p.functions[f].ops|
      requires p.functions[f].ops[i] == FunctionCall(callee, args) && CallOk(p, rank, f, p.functions[f].ops[i])
      requires ResolveAll(Frame(), Backed(p, expressions, args)) == ResolveAll(actual, args)
      modifies `parameterRemapping, `functions
      ensures parameterRemapping == old(parameterRemapping) + [CallBinding(p, f, i, actual)]
      ensures functions == old(functions) + [callee]
      ensures Inside(callee) && Frame() == CallBinding(p, f, i, actual)
    {
      hide CallsDescend, SingleAssignment, ParametersScoped, Resolve, BackingOrSelf;
      assert Remapped(args) == ResolveAll(Frame(), Backed(p, expressions, args)) by {
        EmptyResolves(Backed(p, expressions, args));
      }
      CallBindsArguments(p, f, i, actual);
      BeginFunctionScope(callee, args);
    }

    method FinishCall(callee: nat, args: seq<nat>, ghost f: nat, ghost i: nat, ghost frame: Binding,
        ghost list0: seq<Pair>, ghost t0: Tables)
      requires Valid(p, rank) && f in p.functions && i < |p.functions[f].ops|
      requires frame.Keys == Elements(p.functions[f].arguments)
      requires p.functions[f].ops[i] == FunctionCall(callee, args) && CallOk(p, rank, f, p.functions[f].ops[i])
      requires Inside(callee) && functions != [] && (|functions| > 1 ==> functions[|functions| - 2] == f)
      requires TablesReady(p, rank, f, t0) && Agrees(p, f, i, Symbolic(p, rank, f, i).env, t0.expressions)
      requires TablesReady(p, rank, callee, AllTables()) && Kept(p, rank, callee, t0, AllTables())
      requires combinedImageSamplers ==
               AddPairs(list0,
                 RunFunction(p, rank, callee, CallBinding(p, f, i, RunOps(p, rank, f, i, frame).env)).pairs)
      requires combinedParameters[callee] == AddParameters(p.functions[callee].arguments, [], Summary(p, rank, callee))
      requires CallsDone(p, callee, |p.functions[callee].ops|, AllTables())
      modifies `parameterRemapping, `functions, `doCombinedParameters, `combinedParameters
      ensures parameterRemapping == old(parameterRemapping)[..|old(functions)| - 1]
      ensures functions == old(functions)[..|old(functions)| - 1]
      ensures Stepped(p, rank, f, i, frame, functions != [], list0, t0, combinedImageSamplers, AllTables())
    {
      hide CallsDescend, SingleAssignment, ParametersScoped, Recorded, Agrees, Kept, SummarisedBelow, Stepped, RunOps,
          CallsDone, CallsClosed, RunFunction, CallBinding, Summary, AddParameters, Decode;
      ghost var t1 := AllTables();
      SummaryEntries(p, rank, callee, t1.expressions);
      EndFunctionScope(args);
      CallSteps(p, rank, f, i, frame, functions != [], list0, t0, combinedImageSamplers, t1, AllTables());
    }
  }

  lemma DecodedIsBacked(p: Shader, expressions: Binding, args: seq<nat>, e: Parameter)
    requires InRange(e, |args|) && GlobalsStand(p, expressions, e)
    ensures Decode(Backed(p, expressions, args), e)
            == Pair(BackingOrSelf(p, expressions, if e.globalImage then e.image else args[e.image]),
                    BackingOrSelf(p, expressions, if e.globalSampler then e.sampler else args[e.sampler]))
  {}

  lemma EmptyResolves(xs: seq<nat>)
    ensures ResolveAll(map[], xs) == xs
  {}

  // ---- Steps of a traversal ----

  lemma KeptReflexive(p: Shader, rank: map<nat, nat>, f: nat, t: Tables)
    requires CallsDescend(p, rank) && Shaped(p, t) && f in p.functions
    ensures Kept(p, rank, f, t, t)
  {}

  lemma {:induction false} FailureStays(p: Shader, rank: map<nat, nat>, f: nat, n: nat, frame: Binding)
    requires Valid(p, rank) && f in p.functions && n <= |p.functions[f].ops|
    requires frame.Keys == Elements(p.functions[f].arguments) && Symbolic(p, rank, f, n).failed
    ensures RunFunction(p, rank, f, frame).failed
    decreases |p.functions[f].ops| - n
  {
    if n < |p.functions[f].ops| {
      FailureStays(p, rank, f, n + 1, frame);
    } else {
      ActualIsSubstituted(p, rank, f, n, frame);
    }
  }

  lemma StartProgress(p: Shader, rank: map<nat, nat>, f: nat, frame: Binding, active: bool, list: seq<Pair>, t: Tables)
    requires Valid(p, rank) && f in p.functions && TablesReady(p, rank, f, t) && Summarised(p, rank, t, f)
    ensures Progress(p, rank, f, 0, frame, active, list, t, list, t)
  {
    StartAgrees(p, f, t.expressions);
    KeptReflexive(p, rank, f, t);
    assert SubstPairs(frame, []) == [];
  }

  lemma ProgressMeans(p: Shader, rank: map<nat, nat>, f: nat, n: nat, frame: Binding, active: bool,
      list0: seq<Pair>, t0: Tables, list: seq<Pair>, t: Tables)
    requires Valid(p, rank) && Shaped(p, t0) && f in p.functions && n <= |p.functions[f].ops|
    requires Progress(p, rank, f, n, frame, active, list0, t0, list, t)
    ensures TablesReady(p, rank, f, t) && !Symbolic(p, rank, f, n).failed
    ensures Agrees(p, f, n, Symbolic(p, rank, f, n).env, t.expressions)
  {}

  lemma ProgressEnds(p: Shader, rank: map<nat, nat>, f: nat, frame: Binding, active: bool,
      list0: seq<Pair>, t0: Tables, list: seq<Pair>, t: Tables)
    requires Valid(p, rank) && f in p.functions && frame.Keys == Elements(p.functions[f].arguments)
    requires Shaped(p, t0) && Summarised(p, rank, t0, f)
    requires Progress(p, rank, f, |p.functions[f].ops|, frame, active, list0, t0, list, t)
    ensures !RunFunction(p, rank, f, frame).failed && TablesReady(p, rank, f, t) && Kept(p, rank, f, t0, t)
    ensures CallsDone(p, f, |p.functions[f].ops|, t)
    ensures list == AddPairs(list0, RunFunction(p, rank, f, frame).pairs)
    ensures active ==> t.parameters[f] == AddParameters(p.functions[f].arguments, [], Summary(p, rank, f))
    ensures !active ==> t.parameters[f] == t0.parameters[f]
  {
    hide CallsDescend, SingleAssignment, ParametersScoped, TablesReady, Agrees, Kept, CallsDone;
    ActualIsSubstituted(p, rank, f, |p.functions[f].ops|, frame);
  }

  lemma StepExtends(p: Shader, rank: map<nat, nat>, f: nat, i: nat, frame: Binding, active: bool,
      list0: seq<Pair>, t0: Tables, list: seq<Pair>, t: Tables, list': seq<Pair>, u: Tables)
    requires Valid(p, rank) && f in p.functions && i < |p.functions[f].ops| && Shaped(p, t0) && Shaped(p, t)
    requires Progress(p, rank, f, i, frame, active, list0, t0, list, t)
    requires Stepped(p, rank, f, i, frame, active, list, t, list', u) && !Symbolic(p, rank, f, i + 1).failed
    ensures Progress(p, rank, f, i + 1, frame, active, list0, t0, list', u)
  {
    hide CallsDescend, SingleAssignment, ParametersScoped, Agrees, Recorded, SummarisedBelow, RunOp, CallsClosed,
        CallsDone;
    CallIsOk(p, rank, f, i);
    var before := Symbolic(p, rank, f, i);
    var r := RunOp(p, rank, f, p.functions[f].ops[i], before.env);
    SubstAppend(frame, before.pairs, r.pairs);
    AddPairsAppend(list0, SubstPairs(frame, before.pairs), SubstPairs(frame, r.pairs));
    AddParametersAppend(p.functions[f].arguments, [], before.pairs, r.pairs);
    KeptTransitive(p, rank, f, t0, t, u);
    DoneExtends(p, rank, f, i, t, u);
  }

  lemma DoneExtends(p: Shader, rank: map<nat, nat>, f: nat, i: nat, t: Tables, u: Tables)
    requires Valid(p, rank) && f in p.functions && i < |p.functions[f].ops| && Shaped(p, t)
    requires Kept(p, rank, f, t, u) && CallsDone(p, f, i, t)
    requires p.functions[f].ops[i].FunctionCall? ==>
              p.functions[f].ops[i].callee in u.todo && !u.todo[p.functions[f].ops[i].callee]
    ensures CallsDone(p, f, i + 1, u)
  {}

  lemma KeptTransitive(p: Shader, rank: map<nat, nat>, f: nat, t: Tables, u: Tables, v: Tables)
    requires CallsDescend(p, rank) && Shaped(p, t) && Shaped(p, u) && f in p.functions
    requires Kept(p, rank, f, t, u) && Kept(p, rank, f, u, v)
    ensures Kept(p, rank, f, t, v)
  {}

  lemma CallIsKnown(p: Shader, rank: map<nat, nat>, t: Tables, f: nat, callee: nat)
    requires Valid(p, rank) && Shaped(p, t) && f in p.functions && callee in p.functions
    requires rank[callee] < rank[f] && SummarisedBelow(p, rank, t, rank[f])
    ensures Summarised(p, rank, t, callee) && SummarisedBelow(p, rank, t, rank[callee])
  {}

  // The remapped arguments of a call are their values in the actual run.
  lemma RemappedIsResolved(p: Shader, rank: map<nat, nat>, f: nat, i: nat, frame: Binding, expressions: Binding)
    requires Valid(p, rank) && f in p.functions && i < |p.functions[f].ops| && p.functions[f].ops[i].FunctionCall?
    requires frame.Keys == Elements(p.functions[f].arguments) && Recorded(p, rank, expressions)
    requires Agrees(p, f, i, Symbolic(p, rank, f, i).env, expressions)
    ensures ResolveAll(frame, Backed(p, expressions, p.functions[f].ops[i].args))
            == ResolveAll(RunOps(p, rank, f, i, frame).env, p.functions[f].ops[i].args)
  {
    hide CallsDescend, SingleAssignment, ParametersScoped, Agrees, Recorded, Resolve, BackingOrSelf, RunOps;
    var args, env := p.functions[f].ops[i].args, Symbolic(p, rank, f, i).env;
    ActualIsSubstituted(p, rank, f, i, frame);
    ArgumentBindingFixes(p, rank, f, frame);
    forall j | 0 <= j < |args|
      ensures Resolve(frame, BackingOrSelf(p, expressions, args[j]))
                == Resolve(RunOps(p, rank, f, i, frame).env, args[j])
    {
      OperandAgrees(p, rank, f, i, env, expressions, args[j]);
      SubstResolve(p, f, i, frame, env, args[j]);
    }
  }

  // The actual run of a callee against its run on the caller's parameters.
  lemma CalleeOutcomes(p: Shader, rank: map<nat, nat>, f: nat, i: nat, frame: Binding)
    requires Valid(p, rank) && f in p.functions && i < |p.functions[f].ops| && p.functions[f].ops[i].FunctionCall?
    requires CallOk(p, rank, f, p.functions[f].ops[i]) && frame.Keys == Elements(p.functions[f].arguments)
    ensures var r := RunOp(p, rank, f, p.functions[f].ops[i], Symbolic(p, rank, f, i).env);
            var actual := RunFunction(p, rank, p.functions[f].ops[i].callee,
                CallBinding(p, f, i, RunOps(p, rank, f, i, frame).env));
            actual.failed == r.failed && actual.pairs == SubstPairs(frame, r.pairs)
  {
    hide CallsDescend, SingleAssignment, ParametersScoped, RunOps;
    ActualIsSubstituted(p, rank, f, i, frame);
    ArgumentBindingFixes(p, rank, f, frame);
    SubstOp(p, rank, f, i, frame, Symbolic(p, rank, f, i).env);
  }

  lemma {:induction false} EntriesSettled(p: Shader, rank: map<nat, nat>, args: seq<nat>, expressions: Binding,
      qs: seq<Pair>)
    requires Valid(p, rank) && Recorded(p, rank, expressions) && forall q :: q in qs ==> PairSettled(p, rank, q)
    ensures forall e :: e in AddParameters(args, [], qs) ==> GlobalsStand(p, expressions, e)
    decreases |qs|
  {
    hide CallsDescend, SingleAssignment, ParametersScoped, Recorded, Settled, BackingOrSelf;
    if qs != [] {
      var last := |qs| - 1;
      EntriesSettled(p, rank, args, expressions, qs[..last]);
      assert PairSettled(p, rank, qs[last]);
      SettledStands(p, rank, expressions, qs[last].image);
      SettledStands(p, rank, expressions, qs[last].sampler);
      assert GlobalsStand(p, expressions, Encode(args, qs[last]));
    }
  }

  lemma SummaryEntries(p: Shader, rank: map<nat, nat>, f: nat, expressions: Binding)
    requires Valid(p, rank) && f in p.functions && Recorded(p, rank, expressions)
    ensures forall e :: e in AddParameters(p.functions[f].arguments, [], Summary(p, rank, f)) ==>
              InRange(e, |p.functions[f].arguments|) && GlobalsStand(p, expressions, e)
  {
    SummarySettled(p, rank, f);
    EntriesSettled(p, rank, p.functions[f].arguments, expressions, Summary(p, rank, f));
    ParametersInRange(p.functions[f].arguments, Summary(p, rank, f));
  }

  // A finished call is one step of its caller.
  lemma CallSteps(p: Shader, rank: map<nat, nat>, f: nat, i: nat, frame: Binding, active: bool,
      list0: seq<Pair>, t0: Tables, list1: seq<Pair>, t1: Tables, u: Tables)
    requires Valid(p, rank) && f in p.functions && i < |p.functions[f].ops| && p.functions[f].ops[i].FunctionCall?
    requires CallOk(p, rank, f, p.functions[f].ops[i]) && frame.Keys == Elements(p.functions[f].arguments)
    requires Shaped(p, t0) && Shaped(p, t1) && SummarisedBelow(p, rank, t0, rank[f]) && CallsClosed(p, t1)
    requires CallsDone(p, p.functions[f].ops[i].callee, |p.functions[p.functions[f].ops[i].callee].ops|, t1)
    requires Agrees(p, f, i, Symbolic(p, rank, f, i).env, t0.expressions)
    requires var op := p.functions[f].ops[i];
             && Kept(p, rank, op.callee, t0, t1) && SummarisedBelow(p, rank, t1, rank[op.callee])
             && Recorded(p, rank, t1.expressions)
             && list1 == AddPairs(list0,
                 RunFunction(p, rank, op.callee, CallBinding(p, f, i, RunOps(p, rank, f, i, frame).env)).pairs)
             && t1.parameters[op.callee]
                 == AddParameters(p.functions[op.callee].arguments, [], Summary(p, rank, op.callee))
    requires forall e :: e in t1.parameters[p.functions[f].ops[i].callee] ==> InRange(e, |p.functions[f].ops[i].args|)
    requires var op := p.functions[f].ops[i];
             && u.expressions == t1.expressions && u.todo == t1.todo[op.callee := false]
             && u.parameters ==
                (if active && t1.todo[f] then
                   t1.parameters[f := AddParameters(p.functions[f].arguments, t1.parameters[f],
                     DecodeAll(Backed(p, t1.expressions, op.args), t1.parameters[op.callee]))]
                 else t1.parameters)
    ensures Stepped(p, rank, f, i, frame, active, list0, t0, list1, u)
  {
    hide CallsDescend, SingleAssignment, ParametersScoped, Agrees, Recorded, Kept, SummarisedBelow, Resolve, RunOps,
        RunFunction, Summary, AddParameters, Decode, BackingVariable, CallsDone, CallsClosed;
    var callee := p.functions[f].ops[i].callee;
    CalleeOutcomes(p, rank, f, i, frame);
    CallKeeps(p, rank, f, i, callee, t0, t1, u);
    CallSummarises(p, rank, f, callee, t0, t1, u);
    CallAgrees(p, rank, f, i, t0, t1);
    CallAddsParameters(p, rank, f, i, t0, t1);
    CallCloses(p, callee, t1, u);
  }

  lemma CallCloses(p: Shader, callee: nat, t: Tables, u: Tables)
    requires Shaped(p, t) && Shaped(p, u) && CallsClosed(p, t) && callee in p.functions
    requires CallsDone(p, callee, |p.functions[callee].ops|, t) && u.todo == t.todo[callee := false]
    ensures CallsClosed(p, u)
  {}

  lemma CalledThrough(p: Shader, rank: map<nat, nat>, f: nat, i: nat, h: nat)
    requires CallsDescend(p, rank) && f in p.functions && i < |p.functions[f].ops|
    requires p.functions[f].ops[i].FunctionCall? && CallOk(p, rank, f, p.functions[f].ops[i])
    requires p.functions[f].ops[i].callee == h || CalledFrom(p, rank, p.functions[f].ops[i].callee, h)
    ensures CalledFrom(p, rank, f, h)
  {}

  lemma CallKeeps(p: Shader, rank: map<nat, nat>, f: nat, i: nat, callee: nat, t0: Tables, t1: Tables, u: Tables)
    requires Valid(p, rank) && f in p.functions && callee in p.functions && rank[callee] < rank[f]
    requires i < |p.functions[f].ops| && p.functions[f].ops[i].FunctionCall? && p.functions[f].ops[i].callee == callee
    requires CallOk(p, rank, f, p.functions[f].ops[i])
    requires Shaped(p, t0) && Kept(p, rank, callee, t0, t1)
    requires u.expressions == t1.expressions && u.todo == t1.todo[callee := false]
    requires u.parameters.Keys == t1.parameters.Keys
    requires forall h :: h in t1.parameters && h != f ==> u.parameters[h] == t1.parameters[h]
    ensures Kept(p, rank, f, t0, u) && Shaped(p, t1)
    ensures t1.parameters[f] == t0.parameters[f] && t1.todo[f] == t0.todo[f]
  {
    hide SingleAssignment, ParametersScoped, CallsDescend, LoadsKept, TodoKept, CalledFrom, CallOk;
    RanksKnown(p, rank);
    CallKeepsTodo(p, rank, f, i, t0.todo, t1.todo);
    CallKeepsLoads(p, rank, f, callee, t0.expressions, t1.expressions);
  }

  lemma CallKeepsLoads(p: Shader, rank: map<nat, nat>, f: nat, callee: nat, before: Binding, after: Binding)
    requires CallsDescend(p, rank) && f in p.functions && callee in p.functions && rank[callee] < rank[f]
    requires LoadsKept(p, rank, callee, before, after)
    ensures LoadsKept(p, rank, f, before, after)
  {
    hide DefinedBy, BackingVariable;
  }

  lemma CallKeepsTodo(p: Shader, rank: map<nat, nat>, f: nat, i: nat, before: map<nat, bool>, after: map<nat, bool>)
    requires CallsDescend(p, rank) && f in p.functions && i < |p.functions[f].ops|
    requires p.functions[f].ops[i].FunctionCall? && CallOk(p, rank, f, p.functions[f].ops[i])
    requires before.Keys == p.functions.Keys && after.Keys == p.functions.Keys && after[f] == before[f]
    requires TodoKept(p, rank, p.functions[f].ops[i].callee, before, after)
    ensures TodoKept(p, rank, f, before, after[p.functions[f].ops[i].callee := false])
  {
    hide CallsDescend, CalledFrom;
    var callee := p.functions[f].ops[i].callee;
    forall h | h in p.functions && before[h] && !after[callee := false][h] ensures CalledFrom(p, rank, f, h) {
      CalledThrough(p, rank, f, i, h);
    }
  }

  lemma PlainSteps(p: Shader, rank: map<nat, nat>, f: nat, i: nat, frame: Binding, active: bool,
      list: seq<Pair>, t: Tables, list': seq<Pair>, u: Tables)
    requires Valid(p, rank) && f in p.functions && i < |p.functions[f].ops| && !p.functions[f].ops[i].FunctionCall?
    requires Shaped(p, t) && SummarisedBelow(p, rank, t, rank[f]) && CallsClosed(p, t) && u.todo == t.todo
    requires forall x :: !DefinedBy(p, f, x) ==>
              BackingVariable(p, u.expressions, x) == BackingVariable(p, t.expressions, x)
    requires var r := RunOp(p, rank, f, p.functions[f].ops[i], Symbolic(p, rank, f, i).env);
             && Agrees(p, f, i + 1, r.env, u.expressions) && Recorded(p, rank, u.expressions)
             && list' == AddPairs(list, SubstPairs(frame, r.pairs))
             && u.parameters ==
                (if active && t.todo[f] then
                   t.parameters[f := AddParameters(p.functions[f].arguments, t.parameters[f], r.pairs)]
                 else t.parameters)
    ensures Stepped(p, rank, f, i, frame, active, list, t, list', u)
  {
    hide SingleAssignment, ParametersScoped, CallsDescend, Agrees, Recorded, RunOp, RunOps, Kept, SummarisedBelow,
        CallsClosed;
    CallIsOk(p, rank, f, i);
    DefinedOnceOnly(p);
    PlainKeeps(p, rank, f, t, u);
  }

  // What an instruction other than a call leaves alone.
  lemma PlainKeeps(p: Shader, rank: map<nat, nat>, f: nat, t: Tables, u: Tables)
    requires CallsDescend(p, rank) && f in p.functions && Shaped(p, t) && u.todo == t.todo
    requires SummarisedBelow(p, rank, t, rank[f]) && CallsClosed(p, t)
    requires u.parameters.Keys == t.parameters.Keys
    requires forall h :: h in t.parameters && h != f ==> u.parameters[h] == t.parameters[h]
    requires forall x :: !DefinedBy(p, f, x) ==>
              BackingVariable(p, u.expressions, x) == BackingVariable(p, t.expressions, x)
    requires forall g, h, x :: DefinedBy(p, g, x) && DefinedBy(p, h, x) ==> g == h
    ensures Kept(p, rank, f, t, u) && SummarisedBelow(p, rank, u, rank[f]) && CallsClosed(p, u)
  {
    hide CallsDescend, BackingVariable, DefinedBy, Summary, AddParameters;
    RanksKnown(p, rank);
    forall h | h in p.functions && rank[h] < rank[f] ensures Summarised(p, rank, u, h) {
      assert Summarised(p, rank, t, h);
    }
    forall h | h in p.functions && !u.todo[h] ensures CallsDone(p, h, |p.functions[h].ops|, u) {
      assert CallsDone(p, h, |p.functions[h].ops|, t);
    }
  }

  lemma RanksKnown(p: Shader, rank: map<nat, nat>)
    requires CallsDescend(p, rank)
    ensures rank.Keys == p.functions.Keys
  {}

  lemma DefinedOnceOnly(p: Shader)
    requires SingleAssignment(p)
    ensures forall g, h, x :: DefinedBy(p, g, x) && DefinedBy(p, h, x) ==> g == h
  {}

  lemma CallSummarises(p: Shader, rank: map<nat, nat>, f: nat, callee: nat, t0: Tables, t1: Tables, u: Tables)
    requires Valid(p, rank) && f in p.functions && callee in p.functions && rank[callee] < rank[f]
    requires Shaped(p, t0) && Shaped(p, u) && Kept(p, rank, callee, t0, t1)
    requires SummarisedBelow(p, rank, t0, rank[f]) && SummarisedBelow(p, rank, t1, rank[callee])
    requires t1.parameters[callee] == AddParameters(p.functions[callee].arguments, [], Summary(p, rank, callee))
    requires u.expressions == t1.expressions && u.todo == t1.todo[callee := false]
    requires forall h :: h in t1.parameters && h != f ==> u.parameters[h] == t1.parameters[h]
    ensures SummarisedBelow(p, rank, u, rank[f])
  {
    hide CallsDescend, SingleAssignment, ParametersScoped, DefinedBy, BackingVariable, Summary, AddParameters;
    RanksKnown(p, rank);
    forall h | h in p.functions && rank[h] < rank[f] ensures Summarised(p, rank, u, h) {
      if h != callee {
        if rank[h] < rank[callee] {
          assert Summarised(p, rank, t1, h);
        } else {
          assert Summarised(p, rank, t0, h);
        }
      }
    }
  }

  lemma CallAgrees(p: Shader, rank: map<nat, nat>, f: nat, i: nat, t0: Tables, t1: Tables)
    requires Valid(p, rank) && f in p.functions && i < |p.functions[f].ops| && p.functions[f].ops[i].FunctionCall?
    requires CallOk(p, rank, f, p.functions[f].ops[i]) && Shaped(p, t0)
    requires Agrees(p, f, i, Symbolic(p, rank, f, i).env, t0.expressions)
    requires Kept(p, rank, p.functions[f].ops[i].callee, t0, t1)
    ensures Agrees(p, f, i + 1, Symbolic(p, rank, f, i).env, t1.expressions)
    ensures Agrees(p, f, i, Symbolic(p, rank, f, i).env, t1.expressions)
  {
    hide CallsDescend, SingleAssignment, ParametersScoped, RunOps, BackingVariable, DefinedIn;
    assert forall x :: DefinedBy(p, f, x) ==>
        BackingVariable(p, t1.expressions, x) == BackingVariable(p, t0.expressions, x);
    NothingDefinedAgrees(p, f, i, Symbolic(p, rank, f, i).env, t0.expressions, t1.expressions);
    forall x | DefinedIn(p, f, i, x) ensures DefinedBy(p, f, x) {
      DefinedMonotone(p, f, i, x);
    }
  }

  lemma DefinedMonotone(p: Shader, f: nat, i: nat, x: nat)
    requires f in p.functions && i <= |p.functions[f].ops| && DefinedIn(p, f, i, x)
    ensures DefinedBy(p, f, x)
  {}

  lemma CallAddsParameters(p: Shader, rank: map<nat, nat>, f: nat, i: nat, t0: Tables, t1: Tables)
    requires Valid(p, rank) && f in p.functions && i < |p.functions[f].ops| && p.functions[f].ops[i].FunctionCall?
    requires CallOk(p, rank, f, p.functions[f].ops[i]) && Recorded(p, rank, t1.expressions)
    requires Shaped(p, t0) && Shaped(p, t1)
    requires Agrees(p, f, i, Symbolic(p, rank, f, i).env, t0.expressions)
    requires Kept(p, rank, p.functions[f].ops[i].callee, t0, t1)
    requires var op := p.functions[f].ops[i];
             t1.parameters[op.callee]
                 == AddParameters(p.functions[op.callee].arguments, [], Summary(p, rank, op.callee))
    requires forall e :: e in t1.parameters[p.functions[f].ops[i].callee] ==> InRange(e, |p.functions[f].ops[i].args|)
    ensures var op := p.functions[f].ops[i];
            AddParameters(p.functions[f].arguments, t1.parameters[f],
                DecodeAll(Backed(p, t1.expressions, op.args), t1.parameters[op.callee]))
            == AddParameters(p.functions[f].arguments, t1.parameters[f],
                RunOp(p, rank, f, op, Symbolic(p, rank, f, i).env).pairs)
  {
    hide CallsDescend, SingleAssignment, ParametersScoped, Agrees, Recorded, Kept, Resolve, RunOps, BackingVariable,
        BackingOrSelf;
    var op, env := p.functions[f].ops[i], Symbolic(p, rank, f, i).env;
    var formals, values := p.functions[op.callee].arguments, ResolveAll(env, op.args);
    CallAgrees(p, rank, f, i, t0, t1);
    BackedIsResolved(p, rank, f, i, t1.expressions);
    SummaryAvoids(p, rank, f, op.callee);
    FormalsDistinct(p, rank, op.callee);
    ListsCompose(p.functions[f].arguments, t1.parameters[f], formals, values, Summary(p, rank, op.callee));
    CallBindsArguments(p, f, i, env);
    ActualIsSubstituted(p, rank, op.callee, |p.functions[op.callee].ops|, CallBinding(p, f, i, env));
  }

  lemma FormalsDistinct(p: Shader, rank: map<nat, nat>, f: nat)
    requires Valid(p, rank) && f in p.functions
    ensures Distinct(p.functions[f].arguments)
  {}

  lemma BackedIsResolved(p: Shader, rank: map<nat, nat>, f: nat, i: nat, expressions: Binding)
    requires Valid(p, rank) && f in p.functions && i < |p.functions[f].ops| && p.functions[f].ops[i].FunctionCall?
    requires Recorded(p, rank, expressions) && Agrees(p, f, i, Symbolic(p, rank, f, i).env, expressions)
    ensures Backed(p, expressions, p.functions[f].ops[i].args)
              == ResolveAll(Symbolic(p, rank, f, i).env, p.functions[f].ops[i].args)
  {
    hide CallsDescend, SingleAssignment, ParametersScoped, Agrees, Recorded, Resolve, BackingOrSelf, RunOps;
    var args, env := p.functions[f].ops[i].args, Symbolic(p, rank, f, i).env;
    forall j | 0 <= j < |args| ensures BackingOrSelf(p, expressions, args[j]) == Resolve(env, args[j]) {
      OperandAgrees(p, rank, f, i, env, expressions, args[j]);
    }
  }

  lemma DummyStands(p: Shader, rank: map<nat, nat>, expressions: Binding, f: nat, frame: Binding)
    requires Valid(p, rank) && Recorded(p, rank, expressions) && f in p.functions
    requires frame.Keys == Elements(p.functions[f].arguments)
    ensures BackingOrSelf(p, expressions, p.dummySampler) == p.dummySampler
    ensures Resolve(frame, p.dummySampler) == p.dummySampler
  {}

  // ---- The whole program ----

  lemma {:induction false} CalledAreDone(p: Shader, rank: map<nat, nat>, f: nat, h: nat, t: Tables)
    requires Valid(p, rank) && f in p.functions && Shaped(p, t) && CallsClosed(p, t)
    requires CallsDone(p, f, |p.functions[f].ops|, t) && CalledFrom(p, rank, f, h)
    ensures h in p.functions && !t.todo[h] && rank[h] < rank[f]
    decreases rank[f]
  {
    hide SingleAssignment, ParametersScoped;
    var i :| 0 <= i < |p.functions[f].ops| && p.functions[f].ops[i].FunctionCall? &&
      (p.functions[f].ops[i].callee == h || CalledFrom(p, rank, p.functions[f].ops[i].callee, h));
    CallIsOk(p, rank, f, i);
    var callee := p.functions[f].ops[i].callee;
    assert !t.todo[callee];
    if callee != h {
      CalledAreDone(p, rank, callee, h, t);
    }
  }

  // Discovery agrees with inlining: it fails when a run of the inlined program hits
  // something it cannot handle, and otherwise lists each pair that run combines once.
  // Every function called gets the parameter list that its own inlined body asks for, and
  // the entry and functions never called get none.
  method BuildCombinedImageSamplers(p: Shader, ghost rank: map<nat, nat>, entry: nat)
    returns (ok: bool, samplers: seq<Pair>, parameters: map<nat, seq<Parameter>>)
    requires Valid(p, rank) && entry in p.functions && p.functions[entry].arguments == []
    ensures ok <==> !RunFunction(p, rank, entry, map[]).failed
    ensures ok ==> Distinct(samplers) && Elements(samplers) == Elements(RunFunction(p, rank, entry, map[]).pairs)
    ensures ok ==> parameters.Keys == p.functions.Keys
    ensures ok ==> forall h :: h in p.functions ==>
              parameters[h] ==
              if CalledFrom(p, rank, entry, h) then AddParameters(p.functions[h].arguments, [], Summary(p, rank, h))
              else []
  {
    hide CallsDescend, SingleAssignment, ParametersScoped, Recorded, SummarisedBelow, Kept, CallsDone, CallsClosed,
        CalledFrom, Summarised, AddParameters, Summary;
    var handler := new CombinedImageSamplerHandler(p, rank);
    ghost var start := handler.AllTables();
    StartReady(p, rank, entry, start);
    ok := handler.TraverseFunction(entry);
    samplers, parameters := handler.combinedImageSamplers, handler.combinedParameters;
    if ok {
      AddPairsIsExact(RunFunction(p, rank, entry, map[]).pairs);
      forall h | h in p.functions
        ensures parameters[h] ==
                if CalledFrom(p, rank, entry, h) then AddParameters(p.functions[h].arguments, [], Summary(p, rank, h))
                else []
      {
        if CalledFrom(p, rank, entry, h) {
          CalledAreDone(p, rank, entry, h, handler.AllTables());
          DoneIsComplete(p, rank, entry, h, handler.AllTables());
        } else {
          UncalledIsEmpty(p, rank, entry, h, start, handler.AllTables());
        }
      }
    }
  }

  lemma UncalledIsEmpty(p: Shader, rank: map<nat, nat>, f: nat, h: nat, t: Tables, u: Tables)
    requires Valid(p, rank) && f in p.functions && h in p.functions && !CalledFrom(p, rank, f, h)
    requires Shaped(p, t) && Kept(p, rank, f, t, u) && SummarisedBelow(p, rank, u, rank[f])
    requires t.todo[h] && t.parameters[h] == [] && u.parameters[f] == t.parameters[f]
    ensures u.parameters[h] == []
  {
    hide SingleAssignment, ParametersScoped, CalledFrom, DefinedBy, BackingVariable;
    if h != f && rank[h] < rank[f] {
      assert Summarised(p, rank, u, h);
    }
  }

  lemma StartReady(p: Shader, rank: map<nat, nat>, entry: nat, t: Tables)
    requires Valid(p, rank) && entry in p.functions && Shaped(p, t) && Recorded(p, rank, t.expressions)
    requires forall h :: h in p.functions ==> t.todo[h] && Summarised(p, rank, t, h)
    ensures TablesReady(p, rank, entry, t) && Summarised(p, rank, t, entry)
    ensures forall h :: h in p.functions ==> t.parameters[h] == []
  {}

  lemma DoneIsComplete(p: Shader, rank: map<nat, nat>, f: nat, h: nat, t: Tables)
    requires Valid(p, rank) && f in p.functions && Shaped(p, t) && SummarisedBelow(p, rank, t, rank[f])
    requires h in p.functions && rank[h] < rank[f] && !t.todo[h]
    ensures t.parameters[h] == AddParameters(p.functions[h].arguments, [], Summary(p, rank, h))
  {}
}
