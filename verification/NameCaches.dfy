// Making names unique among those handed out before.
module NameCaches {
  import opened Arithmetic
  import opened Sets

  // ---- Decimal numbers ----

  function Digit(n: nat): char
    requires n < 10
  {
    "0123456789"[n]
  }

  function Decimal(n: nat): (s: string)
    ensures |s| > 0
  {
    if n < 10 then [Digit(n)] else Decimal(n / 10) + [Digit(n % 10)]
  }

  lemma {:induction false} DecimalIsDigits(n: nat, i: nat)
    requires i < |Decimal(n)|
    ensures '0' <= Decimal(n)[i] <= '9'
  {
    if n >= 10 && i < |Decimal(n / 10)| {
      DecimalIsDigits(n / 10, i);
    }
  }

  // The number a numeral stands for.
  ghost function Value(s: string): int {
    if s == "" then 0 else 10 * Value(s[..|s| - 1]) + (s[|s| - 1] as int - '0' as int)
  }

  lemma {:induction false} DecimalValue(n: nat)
    ensures Value(Decimal(n)) == n
  {
    var s := Decimal(n);
    if n < 10 {
      assert s[..0] == "";
    } else {
      assert s[..|s| - 1] == Decimal(n / 10);
      DecimalValue(n / 10);
    }
    DigitValue(n % 10);
  }

  lemma DigitValue(n: nat)
    requires n < 10
    ensures Digit(n) as int - '0' as int == n
  {}

  lemma DecimalInjective(m: nat, n: nat)
    requires Decimal(m) == Decimal(n)
    ensures m == n
  {
    DecimalValue(m);
    DecimalValue(n);
  }

  // ---- Candidates ----

  ghost predicate NoDoubleUnderscore(s: string) {
    forall i :: 0 <= i < |s| - 1 ==> !(s[i] == '_' && s[i + 1] == '_')
  }

  // What a counter is appended to.
  ghost function Stem(name: string): string
    requires name != ""
  {
    if name == "_" then "_0_"
    else if name[|name| - 1] == '_' then name
    else name + "_"
  }

  ghost function Candidate(name: string, counter: nat): string
    requires name != ""
  {
    Stem(name) + Decimal(counter)
  }

  lemma CandidateInjective(name: string, i: nat, j: nat)
    requires name != "" && Candidate(name, i) == Candidate(name, j)
    ensures i == j
  {
    assert Candidate(name, i)[|Stem(name)|..] == Decimal(i);
    assert Candidate(name, j)[|Stem(name)|..] == Decimal(j);
    DecimalInjective(i, j);
  }

  lemma CandidateKeepsUnderscores(name: string, counter: nat)
    requires name != "" && NoDoubleUnderscore(name)
    ensures NoDoubleUnderscore(Candidate(name, counter))
  {
    var stem, digits, s := Stem(name), Decimal(counter), Candidate(name, counter);
    DecimalIsDigits(counter, 0);
    forall i | 0 <= i < |s| - 1 ensures !(s[i] == '_' && s[i + 1] == '_') {
      if i + 1 < |name| {
        assert name != "_" ==> s[i] == name[i] && s[i + 1] == name[i + 1];
      }
      if i + 1 >= |stem| {
        DecimalIsDigits(counter, i + 1 - |stem|);
      }
    }
  }

  // ---- The caches ----

  class NameCache {
    var names: set<string>

    constructor (names: set<string>)
      ensures this.names == names
    {
      this.names := names;
    }
  }

  // Some candidate among the first |taken| + 1 is free.
  lemma TakenIsShort(name: string, taken: set<string>, n: nat)
    requires name != "" && forall k :: 1 <= k <= n ==> Candidate(name, k) in taken
    ensures n <= |taken|
  {
    var used := seq(n, i requires 0 <= i < n => Candidate(name, i + 1));
    forall i, j | 0 <= i < j < n ensures used[i] != used[j] {
      if used[i] == used[j] {
        CandidateInjective(name, i + 1, j + 1);
      }
    }
    DistinctFits(used, taken);
  }

  // The name itself if it is free, else the first free candidate. The 32-bit counter
  // cannot wrap around while the caches hold fewer names than it can count.
  method UpdateNameCache(primary: NameCache, secondary: NameCache, name: string) returns (r: string)
    requires |primary.names + secondary.names| < UINT_LIMIT - 1
    modifies primary
    ensures name == "" ==> r == "" && primary.names == old(primary.names)
    ensures name != "" ==> r != "" && r !in old(primary.names) && r !in old(secondary.names)
    ensures name != "" ==> primary.names == old(primary.names) + {r}
    ensures name != "" && name !in old(primary.names + secondary.names) ==> r == name
    ensures name != "" && name in old(primary.names + secondary.names) ==>
              exists n :: 1 <= n < UINT_LIMIT && r == Candidate(name, n)
                && forall k :: 1 <= k < n ==> Candidate(name, k) in old(primary.names + secondary.names)
    ensures NoDoubleUnderscore(name) ==> NoDoubleUnderscore(r)
  {
    if name == "" {
      return name;
    }
    if !FindName(primary, secondary, name) {
      primary.names := primary.names + {name};
      return name;
    }
    ghost var taken := primary.names + secondary.names;
    var counter := 0;
    var temporary := name;
    var useLinkedUnderscore := true;
    if temporary == "_" {
      temporary := temporary + "0";
    } else if temporary[|temporary| - 1] == '_' {
      useLinkedUnderscore := false;
    }
    assert Stem(name) == temporary + (if useLinkedUnderscore then "_" else "");
    while true
      invariant 0 <= counter <= |taken|
      invariant forall k :: 1 <= k <= counter ==> Candidate(name, k) in taken
      invariant primary.names == old(primary.names)
      decreases |taken| - counter
    {
      counter := counter + 1;
      assert counter < UINT_LIMIT;
      r := temporary + (if useLinkedUnderscore then "_" else "") + Decimal(counter);
      assert r == Candidate(name, counter);
      if !FindName(primary, secondary, r) {
        break;
      }
      TakenIsShort(name, taken, counter);
    }
    primary.names := primary.names + {r};
    if NoDoubleUnderscore(name) {
      CandidateKeepsUnderscores(name, counter);
    }
  }

  // The secondary cache is only looked at when it is another object.
  predicate FindName(primary: NameCache, secondary: NameCache, n: string)
    reads primary, secondary
    ensures FindName(primary, secondary, n) <==> n in primary.names + secondary.names
  {
    n in primary.names || (primary != secondary && n in secondary.names)
  }

  ghost function Nonempty(results: seq<string>): set<string> {
    Elements(results) - {""}
  }

  ghost predicate NonemptyDiffer(results: seq<string>) {
    forall i, j :: 0 <= i < j < |results| && results[i] != "" ==> results[i] != results[j]
  }

  // A run has handed out these names, none of them taken at its start.
  ghost predicate HandedOut(taken: set<string>, before: set<string>, now: set<string>, results: seq<string>) {
    NonemptyDiffer(results) && Nonempty(results) !! taken && now == before + Nonempty(results)
  }

  // A result is empty exactly if its name is.
  ghost predicate EmptyTogether(names: seq<string>, results: seq<string>) {
    |results| <= |names| && forall i :: 0 <= i < |results| ==> (results[i] == "" <==> names[i] == "")
  }

  lemma NoneYet(names: seq<string>)
    ensures EmptyTogether(names, [])
  {}

  lemma NextTogether(names: seq<string>, results: seq<string>, r: string)
    requires EmptyTogether(names, results) && |results| < |names| && (r == "" <==> names[|results|] == "")
    ensures EmptyTogether(names, results + [r])
  {}

  lemma HandOut(taken: set<string>, before: set<string>, now: set<string>, results: seq<string>, r: string)
    requires HandedOut(taken, before, now, results) && (r != "" ==> r !in now && r !in taken)
    ensures HandedOut(taken, before, if r == "" then now else now + {r}, results + [r])
  {
    assert Elements(results + [r]) == Elements(results) + {r};
  }

  lemma NothingHandedOut(taken: set<string>, before: set<string>)
    ensures HandedOut(taken, before, before, [])
  {}

  lemma HandedOutMeans(taken: set<string>, before: set<string>, now: set<string>, results: seq<string>)
    requires HandedOut(taken, before, now, results)
    ensures NonemptyDiffer(results) && Nonempty(results) !! taken && now == before + Nonempty(results)
  {}

  // A run of calls leaves empty names alone and hands out pairwise different names for the
  // others.
  method UpdateAll(primary: NameCache, secondary: NameCache, names: seq<string>) returns (results: seq<string>)
    requires |primary.names + secondary.names| + |names| < UINT_LIMIT - 1
    modifies primary
    ensures |results| == |names| && EmptyTogether(names, results)
    ensures NonemptyDiffer(results) && Nonempty(results) !! old(primary.names + secondary.names)
    ensures primary.names == old(primary.names) + Nonempty(results)
  {
    hide Candidate, NoDoubleUnderscore, HandedOut, FindName, EmptyTogether, Nonempty, NonemptyDiffer;
    results := [];
    NoneYet(names);
    ghost var taken := primary.names + secondary.names;
    NothingHandedOut(taken, primary.names);
    for i := 0 to |names|
      invariant |results| == i && EmptyTogether(names, results)
      invariant HandedOut(taken, old(primary.names), primary.names, results)
      invariant primary != secondary ==> secondary.names == old(secondary.names)
      invariant taken <= primary.names + secondary.names && |primary.names + secondary.names| <= |taken| + i
    {
      ghost var before, now := primary.names + secondary.names, primary.names;
      var r := UpdateNameCache(primary, secondary, names[i]);
      assert primary.names + secondary.names == if r == "" then before else before + {r};
      HandOut(taken, old(primary.names), now, results, r);
      NextTogether(names, results, r);
      results := results + [r];
    }
    HandedOutMeans(taken, old(primary.names), primary.names, results);
  }
}
