/**
 Sequences without repetition and the sets of their elements, as the pools and the lists use them.
 */
module Sequences {

  /** Different places hold different values. */
  ghost predicate Distinct(xs: seq<int>) {
    forall i, j {:trigger xs[i], xs[j]} | 0 <= i < j < |xs| :: xs[i] != xs[j]
  }

  function Elements(xs: seq<nat>): set<nat> {
    set x | x in xs
  }

  lemma FirstIsNew(xs: seq<int>)
    requires Distinct(xs) && xs != []
    ensures xs[0] !in xs[1..] && Distinct(xs[1..])
  {
  }

  lemma DistinctPrepended(x: int, xs: seq<int>)
    requires Distinct(xs) && x !in xs
    ensures Distinct([x] + xs)
  {
  }

  lemma LastIsNew(xs: seq<int>)
    requires Distinct(xs) && xs != []
    ensures xs[|xs| - 1] !in xs[..|xs| - 1] && Distinct(xs[..|xs| - 1])
  {
  }

  lemma {:induction false} DistinctCount(xs: seq<nat>)
    requires Distinct(xs)
    ensures |Elements(xs)| == |xs|
  {
    if xs != [] {
      var init, last := xs[..|xs| - 1], xs[|xs| - 1];
      LastIsNew(xs);
      hide Distinct;
      DistinctCount(init);
      assert xs == init + [last];
      assert Elements(xs) == Elements(init) + {last};
    }
  }
}
