/**
 * `random.shuffle` of CPython with its random draws as input: for every
 * position `i` from the last down to 1, swap it with a drawn index in `[0, i]`.
 */
module Shuffle {

  function Swap<T>(xs: seq<T>, i: nat, j: nat): (r: seq<T>)
    requires i < |xs| && j < |xs|
    ensures |r| == |xs|
  {
    xs[i := xs[j]][j := xs[i]]
  }

  lemma SwapPermutes<T>(xs: seq<T>, i: nat, j: nat)
    requires i < |xs| && j < |xs|
    ensures multiset(Swap(xs, i, j)) == multiset(xs)
  {
    var ys := xs[i := xs[j]];
    assert multiset(ys) == multiset(xs) - multiset{xs[i]} + multiset{xs[j]};
  }

  /** The draws of `random.shuffle` on `count` elements: for position
      `i = count-1` down to `1`, one index in `[0, i]`. */
  predicate DrawsFit(draws: seq<nat>, count: nat) {
    |draws| == (if count > 1 then count - 1 else 0) &&
    forall k :: 0 <= k < |draws| ==> draws[k] <= count - 1 - k
  }

  /** The list after the first `k` swaps of the Fisher-Yates loop. */
  function Shuffled<T>(xs: seq<T>, draws: seq<nat>, k: nat): (r: seq<T>)
    requires DrawsFit(draws, |xs|) && k <= |draws|
    ensures |r| == |xs|
  {
    if k == 0 then xs
    else Swap(Shuffled(xs, draws, k - 1), |xs| - k, draws[k - 1])
  }

  /** Every prefix of the Fisher-Yates loop permutes the list. */
  lemma {:induction false} ShuffledPermutes<T>(xs: seq<T>, draws: seq<nat>, k: nat)
    requires DrawsFit(draws, |xs|) && k <= |draws|
    ensures multiset(Shuffled(xs, draws, k)) == multiset(xs)
  {
    if k > 0 {
      var a, b := Shuffled(xs, draws, k), Shuffled(xs, draws, k - 1);
      ShuffledPermutes(xs, draws, k - 1);
      assert multiset(b) == multiset(xs);
      ShuffleStepPermutes(xs, draws, k);
      assert multiset(a) == multiset(b);
    }
  }

  /** Swap `k` of the loop keeps the multiset of the list. */
  lemma ShuffleStepPermutes<T>(xs: seq<T>, draws: seq<nat>, k: nat)
    requires DrawsFit(draws, |xs|) && 0 < k <= |draws|
    ensures multiset(Shuffled(xs, draws, k)) == multiset(Shuffled(xs, draws, k - 1))
  {
    var p := Shuffled(xs, draws, k - 1);
    var i: nat, j: nat := |xs| - k, draws[k - 1];
    assert i < |p| && j < |p|;
    assert Shuffled(xs, draws, k) == Swap(p, i, j);
    SwapPermutes(p, i, j);
  }

}
