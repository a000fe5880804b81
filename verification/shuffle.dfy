/**
  The in-place Fisher-Yates shuffle of main.js, as a pure function on sequences.

  The source draws `j = floor(random() * (i + 1))` at each step `i` from the
  last index down to 1. The model takes the draws as an explicit function
  `draw`; the step uses `draw(i) % (i + 1)`, so every index in [0, i] can be
  drawn and no other, exactly as in the source.
 */
module Shuffling {

  /** Exchange the elements at positions i and j. */
  function Swap<T>(a: seq<T>, i: nat, j: nat): (r: seq<T>)
    requires i < |a| && j < |a|
    ensures |r| == |a|
    ensures r[i] == a[j] && r[j] == a[i]
    ensures forall k :: 0 <= k < |a| && k != i && k != j ==> r[k] == a[k]
  {
    a[i := a[j]][j := a[i]]
  }

  /** A swap permutes the sequence. */
  lemma SwapSameElements<T>(a: seq<T>, i: nat, j: nat)
    requires i < |a| && j < |a|
    ensures multiset(Swap(a, i, j)) == multiset(a)
  {
  }

  /** The index drawn at step i, always in [0, i]. */
  function Pick(draw: nat -> nat, i: nat): (j: nat)
    ensures j <= i
  {
    draw(i) % (i + 1)
  }

  /** Every index in [0, i] is drawn by some draw function, so the draws
      cover every outcome of `floor(random() * (i + 1))`. */
  lemma PickReaches(i: nat, j: nat)
    requires j <= i
    ensures Pick((k: nat) => j, i) == j
  {
  }

  /** Steps i, i - 1, ..., 1 of the shuffle loop. */
  function ShuffleSteps<T>(a: seq<T>, draw: nat -> nat, i: nat): (r: seq<T>)
    requires i < |a|
    ensures |r| == |a|
    decreases i
  {
    if i == 0 then a
    else ShuffleSteps(Swap(a, i, Pick(draw, i)), draw, i - 1)
  }

  /** Every run of shuffle steps permutes the sequence, whatever the draws. */
  lemma {:induction false} StepsSameElements<T>(a: seq<T>, draw: nat -> nat, i: nat)
    requires i < |a|
    ensures multiset(ShuffleSteps(a, draw, i)) == multiset(a)
    decreases i
  {
    if i > 0 {
      var b := Swap(a, i, Pick(draw, i));
      SwapSameElements(a, i, Pick(draw, i));
      StepsSameElements(b, draw, i - 1);
    }
  }

  /** Steps i down to 1 only touch positions 0..i: the suffix the loop has
      already passed is final. */
  lemma {:induction false} StepsKeepTail<T>(a: seq<T>, draw: nat -> nat, i: nat, k: nat)
    requires i < k < |a|
    ensures ShuffleSteps(a, draw, i)[k] == a[k]
    decreases i
  {
    if i > 0 {
      StepsKeepTail(Swap(a, i, Pick(draw, i)), draw, i - 1, k);
    }
  }

  /** The whole shuffle: a permutation of `a`, whatever the draws are. */
  function Shuffle<T>(a: seq<T>, draw: nat -> nat): (r: seq<T>)
    ensures |r| == |a|
    ensures multiset(r) == multiset(a)
  {
    if |a| == 0 then a
    else
      StepsSameElements(a, draw, |a| - 1);
      ShuffleSteps(a, draw, |a| - 1)
  }

  /** Membership is exactly preserved by the shuffle. */
  lemma ShuffleSameElements<T>(a: seq<T>, draw: nat -> nat)
    ensures forall x :: x in Shuffle(a, draw) <==> x in a
  {
    var r := Shuffle(a, draw);
    forall x
      ensures x in r <==> x in a
    {
      assert x in r <==> x in multiset(r);
      assert x in a <==> x in multiset(a);
    }
  }

  /** A draw equal to the current index picks that index. */
  lemma IdentityPick(draw: nat -> nat, i: nat)
    requires draw(i) == i
    ensures Pick(draw, i) == i
  {
    assert i % (i + 1) == i;
  }

  /** Swapping an entry with itself changes nothing. */
  lemma SwapInPlace<T>(a: seq<T>, i: nat)
    requires i < |a|
    ensures Swap(a, i, i) == a
  {
  }

  /** Draws that always pick the current index leave the order unchanged,
      which is how a deterministic order is obtained. */
  lemma IdentityDrawsKeepOrder<T>(a: seq<T>, draw: nat -> nat)
    requires forall k :: draw(k) == k
    ensures Shuffle(a, draw) == a
  {
    if |a| > 0 {
      IdentityStepsKeepOrder(a, draw, |a| - 1);
    }
  }

  lemma {:induction false} IdentityStepsKeepOrder<T>(a: seq<T>, draw: nat -> nat, i: nat)
    requires i < |a|
    requires forall k :: draw(k) == k
    ensures ShuffleSteps(a, draw, i) == a
    decreases i
  {
    if i > 0 {
      IdentityPick(draw, i);
      SwapInPlace(a, i);
      IdentityStepsKeepOrder(a, draw, i - 1);
    }
  }
}
