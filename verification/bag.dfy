/**
 * A priority queue or stack seen as a sequence used as a bag: removing one
 * element at a chosen index, and counting the elements that lie in a set.
 */
module Bag {
  /** The sequence with the element at index `m` taken out. */
  function Without<T>(xs: seq<T>, m: nat): (r: seq<T>)
    requires m < |xs|
    ensures |r| == |xs| - 1
    ensures forall k :: 0 <= k < m ==> r[k] == xs[k]
    ensures forall k :: m <= k < |r| ==> r[k] == xs[k + 1]
    ensures multiset(r) + multiset{xs[m]} == multiset(xs)
  {
    assert xs == xs[..m] + [xs[m]] + xs[m + 1..];
    xs[..m] + xs[m + 1..]
  }

  /** How many elements of `xs` (with repetition) lie in `s`. */
  function CountIn<T>(xs: seq<T>, s: set<T>): nat
    decreases |xs|
  {
    if xs == [] then 0
    else CountIn(xs[..|xs| - 1], s) + (if xs[|xs| - 1] in s then 1 else 0)
  }

  lemma {:induction false} CountInConcat<T>(xs: seq<T>, ys: seq<T>, s: set<T>)
    ensures CountIn(xs + ys, s) == CountIn(xs, s) + CountIn(ys, s)
    decreases |ys|
  {
    if ys == [] {
      assert xs + ys == xs;
    } else {
      var ys' := ys[..|ys| - 1];
      assert (xs + ys)[..|xs + ys| - 1] == xs + ys';
      CountInConcat(xs, ys', s);
    }
  }

  lemma {:induction false} CountInOutside<T>(xs: seq<T>, s: set<T>)
    requires forall k :: 0 <= k < |xs| ==> xs[k] !in s
    ensures CountIn(xs, s) == 0
    decreases |xs|
  {
    if xs != [] {
      CountInOutside(xs[..|xs| - 1], s);
    }
  }

  /** Taking out an element that lies in `s` lowers the count by exactly one. */
  lemma CountInWithout<T>(xs: seq<T>, m: nat, s: set<T>)
    requires m < |xs| && xs[m] in s
    ensures CountIn(Without(xs, m), s) + 1 == CountIn(xs, s)
  {
    assert xs == xs[..m] + [xs[m]] + xs[m + 1..];
    CountInConcat(xs[..m] + [xs[m]], xs[m + 1..], s);
    CountInConcat(xs[..m], [xs[m]], s);
    CountInConcat(xs[..m], xs[m + 1..], s);
    assert CountIn([xs[m]], s) == 1 by {
      assert [xs[m]][..0] == [];
    }
  }
}
