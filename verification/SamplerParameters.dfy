// The lists that gather combined samplers: the global list of pairs, and for each
// function the pairs that involve its parameters.
module SamplerParameters {
  import opened Sets
  import opened Inlining

  // ---- The global list: first occurrences, in order ----

  ghost function AddPair(list: seq<Pair>, q: Pair): seq<Pair> {
    if q in list then list else list + [q]
  }

  ghost function AddPairs(list: seq<Pair>, qs: seq<Pair>): seq<Pair> {
    if qs == [] then list else AddPair(AddPairs(list, qs[..|qs| - 1]), qs[|qs| - 1])
  }

  lemma {:induction false} AddPairsAppend(list: seq<Pair>, a: seq<Pair>, b: seq<Pair>)
    ensures AddPairs(list, a + b) == AddPairs(AddPairs(list, a), b)
    decreases |b|
  {
    if b == [] {
      assert a + b == a;
    } else {
      assert (a + b)[..|a + b| - 1] == a + b[..|b| - 1];
      AddPairsAppend(list, a, b[..|b| - 1]);
    }
  }

  // One entry per distinct pair.
  lemma {:induction false} AddPairsIsExact(qs: seq<Pair>)
    ensures Distinct(AddPairs([], qs)) && Elements(AddPairs([], qs)) == Elements(qs)
    decreases |qs|
  {
    if qs != [] {
      var last := |qs| - 1;
      AddPairsIsExact(qs[..last]);
      var before := AddPairs([], qs[..last]);
      assert qs == qs[..last] + [qs[last]];
      assert Elements(qs) == Elements(qs[..last]) + {qs[last]};
      assert qs[last] in before <==> qs[last] in Elements(before);
      assert Elements(before + [qs[last]]) == Elements(before) + {qs[last]};
    }
  }

  // ---- Per-function lists ----

  // A pair seen from inside a function: each half is a parameter index or a global id.
  datatype Parameter = Parameter(image: nat, sampler: nat, globalImage: bool, globalSampler: bool)

  function IndexOf(args: seq<nat>, x: nat): (i: nat)
    ensures i <= |args| && (i < |args| <==> x in args) && (i < |args| ==> args[i] == x)
  {
    if args == [] then 0 else if args[0] == x then 0 else 1 + IndexOf(args[1..], x)
  }

  ghost function Encode(args: seq<nat>, q: Pair): Parameter {
    Parameter(
      if q.image in args then IndexOf(args, q.image) else q.image,
      if q.sampler in args then IndexOf(args, q.sampler) else q.sampler,
      q.image !in args,
      q.sampler !in args)
  }

  ghost function AddParameter(args: seq<nat>, list: seq<Parameter>, q: Pair): seq<Parameter> {
    var e := Encode(args, q);
    if (e.globalImage && e.globalSampler) || e in list then list else list + [e]
  }

  ghost function AddParameters(args: seq<nat>, list: seq<Parameter>, qs: seq<Pair>): seq<Parameter> {
    if qs == [] then list else AddParameter(args, AddParameters(args, list, qs[..|qs| - 1]), qs[|qs| - 1])
  }

  ghost predicate InRange(e: Parameter, n: nat) {
    (e.globalImage || e.image < n) && (e.globalSampler || e.sampler < n)
  }

  // The pair seen from a caller that passes `values`.
  ghost function Decode(values: seq<nat>, e: Parameter): Pair
    requires InRange(e, |values|)
  {
    Pair(if e.globalImage then e.image else values[e.image],
         if e.globalSampler then e.sampler else values[e.sampler])
  }

  ghost function DecodeAll(values: seq<nat>, es: seq<Parameter>): (r: seq<Pair>)
    requires forall e :: e in es ==> InRange(e, |values|)
    ensures |r| == |es| && forall i :: 0 <= i < |es| ==> r[i] == Decode(values, es[i])
  {
    seq(|es|, i requires 0 <= i < |es| => Decode(values, es[i]))
  }

  lemma {:induction false} AddParametersAppend(args: seq<nat>, list: seq<Parameter>, a: seq<Pair>, b: seq<Pair>)
    ensures AddParameters(args, list, a + b) == AddParameters(args, AddParameters(args, list, a), b)
    decreases |b|
  {
    if b == [] {
      assert a + b == a;
    } else {
      assert (a + b)[..|a + b| - 1] == a + b[..|b| - 1];
      AddParametersAppend(args, list, a, b[..|b| - 1]);
    }
  }

  lemma {:induction false} ParametersInRange(args: seq<nat>, qs: seq<Pair>)
    ensures forall e :: e in AddParameters(args, [], qs) ==> InRange(e, |args|)
    ensures Distinct(AddParameters(args, [], qs))
    decreases |qs|
  {
    if qs != [] {
      ParametersInRange(args, qs[..|qs| - 1]);
    }
  }

  // The list of a function: one entry for each distinct pair in which a parameter takes
  // part, and no other.
  lemma {:induction false} ParameterListIsExact(args: seq<nat>, qs: seq<Pair>, e: Parameter)
    ensures e in AddParameters(args, [], qs) <==>
              !(e.globalImage && e.globalSampler) && exists q :: q in qs && Encode(args, q) == e
    decreases |qs|
  {
    if qs != [] {
      var last := |qs| - 1;
      ParameterListIsExact(args, qs[..last], e);
      assert qs == qs[..last] + [qs[last]];
    }
  }

  // A pair once added is there, or has no parameter in it.
  lemma {:induction false} AddedStays(args: seq<nat>, list: seq<Parameter>, qs: seq<Pair>, q: Pair)
    requires q in qs
    ensures AddParameter(args, AddParameters(args, list, qs), q) == AddParameters(args, list, qs)
    decreases |qs|
  {
    var last := |qs| - 1;
    if qs[last] != q {
      assert q in qs[..last];
      AddedStays(args, list, qs[..last], q);
    }
  }

  // No half of a pair is in `args`.
  ghost predicate Avoids(qs: seq<Pair>, args: seq<nat>) {
    forall i :: 0 <= i < |qs| ==> qs[i].image !in args && qs[i].sampler !in args
  }

  lemma DecodeEncode(formals: seq<nat>, values: seq<nat>, q: Pair)
    requires |values| == |formals| && Distinct(formals)
    ensures InRange(Encode(formals, q), |values|)
    ensures Decode(values, Encode(formals, q)) == SubstPair(Bind(formals, values), q)
  {
    BindKeys(formals, values);
    assert formals[..|values|] == formals;
    if q.image in formals {
      BindAt(formals, values, IndexOf(formals, q.image));
    }
    if q.sampler in formals {
      BindAt(formals, values, IndexOf(formals, q.sampler));
    }
  }

  // A pair of globals is listed nowhere, and no call changes it.
  lemma GlobalPairStays(outer: seq<nat>, list: seq<Parameter>, formals: seq<nat>, values: seq<nat>, q: Pair)
    requires |values| == |formals| && q.image !in outer && q.sampler !in outer
    requires Encode(formals, q).globalImage && Encode(formals, q).globalSampler
    ensures AddParameter(outer, list, SubstPair(Bind(formals, values), q)) == list
  {
    BindKeys(formals, values);
    assert formals[..|values|] == formals;
  }

  lemma ComposeStep(outer: seq<nat>, list: seq<Parameter>, formals: seq<nat>, values: seq<nat>, es: seq<Parameter>,
      q: Pair)
    requires |values| == |formals| && Distinct(formals) && q.image !in outer && q.sampler !in outer
    requires forall e :: e in es ==> InRange(e, |values|)
    ensures forall e :: e in AddParameter(formals, es, q) ==> InRange(e, |values|)
    ensures AddParameters(outer, list, DecodeAll(values, AddParameter(formals, es, q)))
            == AddParameter(outer, AddParameters(outer, list, DecodeAll(values, es)),
                SubstPair(Bind(formals, values), q))
  {
    hide Distinct, InRange, Encode, Decode, Bind, SubstPair;
    DecodeEncode(formals, values, q);
    var d, e := SubstPair(Bind(formals, values), q), Encode(formals, q);
    if e.globalImage && e.globalSampler {
      GlobalPairStays(outer, AddParameters(outer, list, DecodeAll(values, es)), formals, values, q);
    } else if e in es {
      var i :| 0 <= i < |es| && es[i] == e;
      assert DecodeAll(values, es)[i] == d;
      AddedStays(outer, list, DecodeAll(values, es), d);
    } else {
      var decoded := DecodeAll(values, es + [e]);
      assert decoded[..|es|] == DecodeAll(values, es) && decoded[|es|] == d;
    }
  }

  // Handing a callee's list on to its caller adds exactly what inlining the call would.
  lemma {:induction false} ListsCompose(outer: seq<nat>, list: seq<Parameter>, formals: seq<nat>, values: seq<nat>,
      qs: seq<Pair>)
    requires |values| == |formals| && Distinct(formals) && Avoids(qs, outer)
    requires forall e :: e in AddParameters(formals, [], qs) ==> InRange(e, |values|)
    ensures AddParameters(outer, list, DecodeAll(values, AddParameters(formals, [], qs)))
            == AddParameters(outer, list, SubstPairs(Bind(formals, values), qs))
    decreases |qs|
  {
    hide Distinct, InRange, AddParameter, Decode, Bind, SubstPair;
    if qs != [] {
      var last := |qs| - 1;
      ParametersInRange(formals, qs[..last]);
      ListsCompose(outer, list, formals, values, qs[..last]);
      ComposeStep(outer, list, formals, values, AddParameters(formals, [], qs[..last]), qs[last]);
      assert SubstPairs(Bind(formals, values), qs)[..last] == SubstPairs(Bind(formals, values), qs[..last]);
    }
  }
}
