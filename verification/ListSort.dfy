/**
 The sorting algorithm of source/tbx_list.c on sequences of items: every item is compared with
 all later ones and swapped with those that it is greater than.  The comparator may answer
 differently on every call; its first argument is the number of the call.
 */
module ListSort {
  type Comparator = (nat, int, int) -> bool

  /** The function pointer that the sort is called with. */
  datatype CompareItems = NoFunction | Function(greater: Comparator)

  /** The answer of the given call. */
  predicate Answers(greater: Comparator, call: nat, x: int, y: int) {
    greater(call, x, y)
  }

  type Order = (int, int) -> bool

  predicate Above(gt: Order, x: int, y: int) {
    gt(x, y)
  }

  function Swap<T>(xs: seq<T>, i: nat, j: nat): (r: seq<T>)
    requires i < |xs| && j < |xs|
  {
    xs[i := xs[j]][j := xs[i]]
  }

  /** One comparison, with the exchange that may follow it. */
  function Compare(xs: seq<int>, i: nat, j: nat, greater: Comparator, call: nat): (r: seq<int>)
    requires i < |xs| && j < |xs|
    ensures |r| == |xs|
  {
    if Answers(greater, call, xs[i], xs[j]) then Swap(xs, i, j) else xs
  }

  /** The inner loop from place j on: the items and the number of calls made after it. */
  function Inner(xs: seq<int>, i: nat, j: nat, greater: Comparator, calls: nat): (r: (seq<int>, nat))
    requires i < |xs| && i < j <= |xs|
    ensures |r.0| == |xs|
    decreases |xs| - j
  {
    if j == |xs| then (xs, calls)
    else Inner(Compare(xs, i, j, greater, calls), i, j + 1, greater, calls + 1)
  }

  /** The outer loop from place i on. */
  function Outer(xs: seq<int>, i: nat, greater: Comparator, calls: nat): (r: (seq<int>, nat))
    requires i < |xs|
    ensures |r.0| == |xs|
    decreases |xs| - i
  {
    if i + 1 == |xs| then (xs, calls)
    else
      var (ys, c) := Inner(xs, i, i + 1, greater, calls);
      Outer(ys, i + 1, greater, c)
  }

  /** Sorting a list that is not empty. */
  function Sort(xs: seq<int>, greater: Comparator): (seq<int>, nat)
    requires xs != []
  {
    Outer(xs, 0, greater, 0)
  }

  // ---------------------------------------------------------------- permutation

  lemma SwapPermutes(xs: seq<int>, i: nat, j: nat)
    requires i < |xs| && j < |xs|
    ensures multiset(Swap(xs, i, j)) == multiset(xs)
  {
  }

  lemma {:induction false} InnerPermutes(xs: seq<int>, i: nat, j: nat, greater: Comparator, calls: nat)
    requires i < |xs| && i < j <= |xs|
    ensures multiset(Inner(xs, i, j, greater, calls).0) == multiset(xs)
    decreases |xs| - j
  {
    if j < |xs| {
      SwapPermutes(xs, i, j);
      InnerPermutes(Compare(xs, i, j, greater, calls), i, j + 1, greater, calls + 1);
    }
  }

  lemma {:induction false} OuterPermutes(xs: seq<int>, i: nat, greater: Comparator, calls: nat)
    requires i < |xs|
    ensures multiset(Outer(xs, i, greater, calls).0) == multiset(xs)
    decreases |xs| - i
  {
    if i + 1 < |xs| {
      InnerPermutes(xs, i, i + 1, greater, calls);
      var (ys, c) := Inner(xs, i, i + 1, greater, calls);
      OuterPermutes(ys, i + 1, greater, c);
    }
  }

  // ---------------------------------------------------------------- number of calls

  lemma {:induction false} InnerCalls(xs: seq<int>, i: nat, j: nat, greater: Comparator, calls: nat)
    requires i < |xs| && i < j <= |xs|
    ensures Inner(xs, i, j, greater, calls).1 == calls + |xs| - j
    decreases |xs| - j
  {
    if j < |xs| {
      InnerCalls(Compare(xs, i, j, greater, calls), i, j + 1, greater, calls + 1);
    }
  }

  lemma {:induction false} OuterCalls(xs: seq<int>, i: nat, greater: Comparator, calls: nat)
    requires i < |xs|
    ensures var m := |xs| - i; 2 * Outer(xs, i, greater, calls).1 == 2 * calls + m * (m - 1)
    decreases |xs| - i
  {
    var m := |xs| - i;
    if i + 1 < |xs| {
      InnerCalls(xs, i, i + 1, greater, calls);
      var (ys, c) := Inner(xs, i, i + 1, greater, calls);
      OuterCalls(ys, i + 1, greater, c);
      assert m * (m - 1) == (m - 1) * (m - 2) + 2 * (m - 1);
    }
  }

  /** Whatever the comparator answers: a permutation, after exactly n(n-1)/2 calls. */
  lemma SortPermutesInExactlyThatManyCalls(xs: seq<int>, greater: Comparator)
    requires xs != []
    ensures var (ys, calls) := Sort(xs, greater);
      multiset(ys) == multiset(xs) && |ys| == |xs| && calls == |xs| * (|xs| - 1) / 2
  {
    OuterPermutes(xs, 0, greater, 0);
    OuterCalls(xs, 0, greater, 0);
  }

  // ---------------------------------------------------------------- sortedness

  /** The comparator answers by a fixed strict partial order. */
  ghost predicate DecidesBy(greater: Comparator, gt: Order) {
    && (forall c: nat, x: int, y: int :: Answers(greater, c, x, y) == Above(gt, x, y))
    && (forall x: int, y: int :: Above(gt, x, y) ==> !Above(gt, y, x))
    && (forall x: int, y: int, z: int :: Above(gt, x, y) && Above(gt, y, z) ==> Above(gt, x, z))
  }

  /** The item at place i is greater than none of those at the places from i + 1 up to j. */
  ghost predicate LeastUpTo(xs: seq<int>, i: nat, j: nat, gt: Order)
    requires i < j <= |xs|
  {
    forall k | i < k < j :: !Above(gt, xs[i], xs[k])
  }

  lemma {:induction false} InnerFindsLeast(xs: seq<int>, i: nat, j: nat, greater: Comparator,
                                           calls: nat, gt: Order)
    requires i < |xs| && i < j <= |xs| && DecidesBy(greater, gt)
    requires LeastUpTo(xs, i, j, gt)
    ensures var ys := Inner(xs, i, j, greater, calls).0;
      && LeastUpTo(ys, i, |ys|, gt)
      && ys[..i] == xs[..i] && multiset(ys[i..]) == multiset(xs[i..])
    decreases |xs| - j
  {
    if j < |xs| {
      var ys := Compare(xs, i, j, greater, calls);
      CompareKeeps(xs, i, j, greater, calls);
      InnerFindsLeast(ys, i, j + 1, greater, calls + 1, gt);
    }
  }

  lemma CompareKeeps(xs: seq<int>, i: nat, j: nat, greater: Comparator, call: nat)
    requires i < j < |xs|
    ensures var ys := Compare(xs, i, j, greater, call);
      ys[..i] == xs[..i] && multiset(ys[i..]) == multiset(xs[i..])
  {
    var ys := Compare(xs, i, j, greater, call);
    if Answers(greater, call, xs[i], xs[j]) {
      assert ys[i..] == Swap(xs[i..], 0, j - i);
      SwapPermutes(xs[i..], 0, j - i);
    }
  }

  /** Every item before place i is in its final place: greater than none of the later ones. */
  ghost predicate SortedUpTo(xs: seq<int>, i: nat, gt: Order)
    requires i <= |xs|
  {
    forall a, b | 0 <= a < i && a < b < |xs| :: !Above(gt, xs[a], xs[b])
  }

  lemma {:induction false} OuterSorts(xs: seq<int>, i: nat, greater: Comparator, calls: nat,
                                      gt: Order)
    requires i < |xs| && DecidesBy(greater, gt) && SortedUpTo(xs, i, gt)
    ensures var ys := Outer(xs, i, greater, calls).0;
      SortedUpTo(ys, |ys|, gt)
    decreases |xs| - i
  {
    if i + 1 < |xs| {
      InnerFindsLeast(xs, i, i + 1, greater, calls, gt);
      var (ys, c) := Inner(xs, i, i + 1, greater, calls);
      forall a, b | 0 <= a < i + 1 && a < b < |ys|
        ensures !Above(gt, ys[a], ys[b])
      {
        if a < i {
          assert ys[a] == ys[..i][a] == xs[a];
          if b < i {
            assert ys[b] == ys[..i][b] == xs[b];
          } else {
            assert ys[b] == ys[i..][b - i] && ys[b] in multiset(ys[i..]);
            assert ys[b] in multiset(xs[i..]);
            var k :| 0 <= k < |xs[i..]| && xs[i..][k] == ys[b];
            assert xs[i + k] == ys[b];
          }
        }
      }
      OuterSorts(ys, i + 1, greater, c, gt);
    }
  }

  /** With a comparator that answers by a strict partial order no earlier item is greater than a later one. */
  lemma SortSorts(xs: seq<int>, greater: Comparator, gt: Order)
    requires xs != []
    requires forall c: nat, x: int, y: int :: greater(c, x, y) == gt(x, y)
    requires forall x: int, y: int :: gt(x, y) ==> !gt(y, x)
    requires forall x: int, y: int, z: int :: gt(x, y) && gt(y, z) ==> gt(x, z)
    ensures var ys := Sort(xs, greater).0;
      forall a, b | 0 <= a < b < |ys| :: !gt(ys[a], ys[b])
  {
    assert DecidesBy(greater, gt);
    OuterSorts(xs, 0, greater, 0, gt);
    var ys := Sort(xs, greater).0;
    assert SortedUpTo(ys, |ys|, gt);
    forall a, b | 0 <= a < b < |ys|
      ensures !gt(ys[a], ys[b])
    {
      assert !Above(gt, ys[a], ys[b]);
    }
  }

  /** Three items, with the order of the integers. */
  lemma SortExample()
    ensures Sort([3, 1, 2], (c, x, y) => x > y).0 == [1, 2, 3]
  {
    var greater: Comparator, gt: Order := (c, x, y) => x > y, (x, y) => x > y;
    var xs := [3, 1, 2];
    var (ys, calls) := Sort(xs, greater);
    SortSorts(xs, greater, gt);
    SortPermutesInExactlyThatManyCalls(xs, greater);
    assert xs[0] in multiset(xs) && xs[1] in multiset(xs) && xs[2] in multiset(xs);
  }
}
