/**
 * samplePoint: inverse-CDF selection over a probability vector. The vector is
 * turned into prefix sums in place, scanned for the first prefix sum above the
 * draw, and then turned back. Arithmetic is over the reals.
 */
module Sampling {
  /** prob[0] + ... + prob[n-1]. */
  function PrefixSum(prob: seq<real>, n: nat): real
    requires n <= |prob|
  {
    if n == 0 then 0.0 else PrefixSum(prob, n - 1) + prob[n - 1]
  }

  /** Tolerance of the fatal check that the probabilities sum to one. */
  const SumTolerance: real := 0.0001

  /** The probabilities add up to one within the tolerance the source checks. */
  predicate SumsToOne(prob: seq<real>) {
    && |prob| > 0
    && -SumTolerance < PrefixSum(prob, |prob|) - 1.0 < SumTolerance
  }

  /**
   * samplePoint(prob, r) with the draw p = r.nextDouble() as a parameter.
   * Returns the least index whose prefix sum exceeds p, or |prob| when none
   * does, together with the vector as it is left afterwards.
   */
  method SamplePoint(prob: seq<real>, p: real) returns (ret: int, after: seq<real>)
    requires SumsToOne(prob)
    ensures 0 <= ret <= |prob|
    ensures forall n :: 1 <= n <= ret ==> PrefixSum(prob, n) <= p
    ensures ret < |prob| ==> p < PrefixSum(prob, ret + 1)
    ensures after == prob
  {
    var len := |prob|;
    var a := prob;
    var i := 1;
    while i < len
      invariant 1 <= i <= len && |a| == len
      invariant forall k :: 0 <= k < i ==> a[k] == PrefixSum(prob, k + 1)
      invariant forall k :: i <= k < len ==> a[k] == prob[k]
    {
      a := a[i := a[i] + a[i - 1]];
      i := i + 1;
    }
    ret := 0;
    while ret < len && !(p < a[ret])
      invariant 0 <= ret <= len
      invariant forall k :: 0 <= k < len ==> a[k] == PrefixSum(prob, k + 1)
      invariant forall n :: 1 <= n <= ret ==> PrefixSum(prob, n) <= p
    {
      ret := ret + 1;
    }
    i := len - 1;
    while i >= 1
      invariant 0 <= i <= len - 1 && |a| == len
      invariant forall k :: 0 <= k <= i ==> a[k] == PrefixSum(prob, k + 1)
      invariant forall k :: i < k < len ==> a[k] == prob[k]
    {
      a := a[i := a[i] - a[i - 1]];
      i := i - 1;
    }
    assert a[0] == prob[0];
    after := a;
  }

  /** The characterisation above pins down a single index. */
  lemma PickUnique(prob: seq<real>, p: real, r1: int, r2: int)
    requires 0 <= r1 <= |prob| && 0 <= r2 <= |prob|
    requires forall n :: 1 <= n <= r1 ==> PrefixSum(prob, n) <= p
    requires r1 < |prob| ==> p < PrefixSum(prob, r1 + 1)
    requires forall n :: 1 <= n <= r2 ==> PrefixSum(prob, n) <= p
    requires r2 < |prob| ==> p < PrefixSum(prob, r2 + 1)
    ensures r1 == r2
  {
  }

  /** Reference definition: scan prefix sums from index i. */
  function Pick(prob: seq<real>, p: real, i: nat): (r: nat)
    requires i <= |prob|
    ensures i <= r <= |prob|
    decreases |prob| - i
  {
    if i == |prob| then i
    else if p < PrefixSum(prob, i + 1) then i
    else Pick(prob, p, i + 1)
  }

  lemma {:induction false} PickIsLeast(prob: seq<real>, p: real, i: nat)
    requires i <= |prob|
    requires forall n :: 1 <= n <= i ==> PrefixSum(prob, n) <= p
    ensures forall n :: 1 <= n <= Pick(prob, p, i) ==> PrefixSum(prob, n) <= p
    ensures Pick(prob, p, i) < |prob| ==> p < PrefixSum(prob, Pick(prob, p, i) + 1)
    decreases |prob| - i
  {
    if i < |prob| && !(p < PrefixSum(prob, i + 1)) {
      PickIsLeast(prob, p, i + 1);
    }
  }

  /** samplePoint's index is the reference scan's. */
  lemma SamplePointIsPick(prob: seq<real>, p: real, ret: int)
    requires 0 <= ret <= |prob|
    requires forall n :: 1 <= n <= ret ==> PrefixSum(prob, n) <= p
    requires ret < |prob| ==> p < PrefixSum(prob, ret + 1)
    ensures ret == Pick(prob, p, 0)
  {
    PickIsLeast(prob, p, 0);
    PickUnique(prob, p, ret, Pick(prob, p, 0));
  }

  /** A single-entry vector with the draw below its entry picks index 0. */
  lemma PickSingle(prob: seq<real>, p: real)
    requires |prob| == 1 && p < prob[0]
    ensures Pick(prob, p, 0) == 0
  {
    assert PrefixSum(prob, 1) == prob[0];
  }
}
