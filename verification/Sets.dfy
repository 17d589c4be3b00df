// Counting arguments about finite sets and sequences without repetition.
module Sets {

  ghost function Elements<T>(s: seq<T>): set<T> {
    set x | x in s
  }

  ghost predicate Distinct<T>(s: seq<T>) {
    forall i, j :: 0 <= i < j < |s| ==> s[i] != s[j]
  }

  lemma {:induction false} SubsetIsSmaller<T>(x: set<T>, y: set<T>)
    requires x <= y
    ensures |x| <= |y|
  {
    if b :| b in x {
      SubsetIsSmaller(x - {b}, y - {b});
    }
  }

  lemma {:induction false} DistinctCount<T>(s: seq<T>)
    requires Distinct(s)
    ensures |Elements(s)| == |s|
  {
    if s == [] {
      assert Elements(s) == {};
    } else {
      var last := |s| - 1;
      DistinctCount(s[..last]);
      assert s == s[..last] + [s[last]];
      assert Elements(s) == Elements(s[..last]) + {s[last]};
      assert s[last] !in Elements(s[..last]);
    }
  }

  // The pigeonhole principle: a repetition-free sequence fits in any set that holds it.
  lemma DistinctFits<T>(s: seq<T>, y: set<T>)
    requires Distinct(s) && forall x :: x in s ==> x in y
    ensures |s| <= |y|
  {
    DistinctCount(s);
    SubsetIsSmaller(Elements(s), y);
  }
}
