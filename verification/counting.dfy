/** Finite counting facts: distinct naturals, ranges and the pigeonhole principle. */
module Counting {

  predicate Distinct(xs: seq<nat>) {
    forall k, l :: 0 <= k < l < |xs| ==> xs[k] != xs[l]
  }

  function Range(n: nat): (r: set<nat>)
    ensures |r| == n
    ensures forall x: nat :: x in r <==> x < n
  {
    if n == 0 then {} else Range(n - 1) + {n - 1}
  }

  function Elems(xs: seq<nat>): (r: set<nat>)
    ensures forall x :: x in r <==> x in xs
  {
    set x | x in xs
  }

  lemma {:induction false} DistinctElemsSize(xs: seq<nat>)
    requires Distinct(xs)
    ensures |Elems(xs)| == |xs|
  {
    if xs != [] {
      var init, last := xs[..|xs| - 1], xs[|xs| - 1];
      DistinctElemsSize(init);
      assert last !in Elems(init);
      assert Elems(xs) == Elems(init) + {last};
    } else {
      assert Elems(xs) == {};
    }
  }

  lemma SubsetSize(a: set<nat>, b: set<nat>)
    requires a <= b
    ensures |a| <= |b|
  {
    assert b == a + (b - a);
    assert a * (b - a) == {};
  }

  /** Pigeonhole: distinct naturals below n number at most n. */
  lemma DistinctBelowBound(xs: seq<nat>, n: nat)
    requires Distinct(xs)
    requires forall k :: 0 <= k < |xs| ==> xs[k] < n
    ensures |xs| <= n
  {
    DistinctElemsSize(xs);
    SubsetSize(Elems(xs), Range(n));
  }
}
