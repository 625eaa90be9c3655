/** Totals over a growing list of concurrent callers. */
module Sums {

  function Sum<T>(s: seq<T>, weight: T -> nat): nat {
    if s == [] then 0 else Sum(s[..|s| - 1], weight) + weight(s[|s| - 1])
  }

  lemma {:induction false} SumUpdate<T>(s: seq<T>, weight: T -> nat, i: nat, x: T)
    requires i < |s|
    ensures Sum(s[i := x], weight) + weight(s[i]) == Sum(s, weight) + weight(x)
    decreases |s|
  {
    var u := s[i := x];
    if i == |s| - 1 {
      assert u[..|u| - 1] == s[..|s| - 1];
    } else {
      assert u[..|u| - 1] == s[..|s| - 1][i := x];
      SumUpdate(s[..|s| - 1], weight, i, x);
    }
  }

  lemma SumAppend<T>(s: seq<T>, weight: T -> nat, x: T)
    ensures Sum(s + [x], weight) == Sum(s, weight) + weight(x)
  {
    assert (s + [x])[..|s|] == s;
  }

  lemma {:induction false} SumAtLeast<T>(s: seq<T>, weight: T -> nat, i: nat)
    requires i < |s|
    ensures weight(s[i]) <= Sum(s, weight)
    decreases |s|
  {
    if i < |s| - 1 {
      SumAtLeast(s[..|s| - 1], weight, i);
    }
  }

  lemma {:induction false} SumIsZero<T>(s: seq<T>, weight: T -> nat)
    requires forall i :: 0 <= i < |s| ==> weight(s[i]) == 0
    ensures Sum(s, weight) == 0
    decreases |s|
  {
    if s != [] {
      SumIsZero(s[..|s| - 1], weight);
    }
  }
}
