/** The weight set of `Solve(sum)`: the powers of two 2^0, ..., 2^maxExponent
    where maxExponent is the largest k with 2^k <= sum, and their total. */
module WeightSet {
  import opened Powers
  import opened Combinations

  /** [2^0, 2^1, ..., 2^(n-1)]. */
  function PowersOfTwo(n: nat): (w: seq<int>) {
    seq(n, k requires 0 <= k < n => Pow2(k))
  }

  /** The weights for `sum`: every power of two not above it. */
  function Weights(sum: nat): (w: seq<int>)
    requires sum >= 1
  {
    PowersOfTwo(FloorLog2(sum) + 1)
  }

  /** The weights are positive and strictly ascending, every power of two up to
      `sum` is among them, and the largest one exceeds half of `sum`. */
  lemma WeightsShape(sum: nat)
    requires sum >= 1
    ensures var w := Weights(sum);
      && Positive(w)
      && (forall j, k :: 0 <= j < k < |w| ==> w[j] < w[k])
      && (forall k: nat :: Pow2(k) <= sum ==> k < |w| && w[k] == Pow2(k))
      && w[|w| - 1] <= sum < 2 * w[|w| - 1]
  {
    var w := Weights(sum);
    forall j, k | 0 <= j < k < |w| ensures w[j] < w[k] {
      Pow2Increases(j, k);
    }
    forall k: nat | Pow2(k) <= sum ensures k < |w| {
      FloorLog2IsLargest(sum, k);
    }
  }

  /** 2^0 + ... + 2^i == 2^(i+1) - 1. */
  lemma {:induction false} SumOfPowers(n: nat, i: int)
    requires -1 <= i < n
    ensures SumPrefix(PowersOfTwo(n), i) == Pow2(i + 1) - 1
    decreases i + 1
  {
    if i >= 0 {
      SumOfPowers(n, i - 1);
    }
  }

  /** Twice the total weight always covers `sum`, so the early `return 0` of
      `Solve` never fires. */
  lemma FeasibilityHolds(sum: nat)
    requires sum >= 1
    ensures 2 * SumPrefix(Weights(sum), FloorLog2(sum)) >= sum
  {
    var e := FloorLog2(sum);
    SumOfPowers(e + 1, e);
  }

  /** Every way of writing `sum` with each power of two up to it used at most twice. */
  ghost function Representations(sum: nat): (cs: set<seq<int>>)
    requires sum >= 1
  {
    Solutions(Weights(sum), sum, FloorLog2(sum) + 1)
  }

  /** Count over the weights of `sum` is the number of its representations. */
  lemma RepresentationsCounted(sum: nat)
    requires sum >= 1
    ensures |Representations(sum)| == Count(Weights(sum), sum, FloorLog2(sum))
  {
    CountIsSolutions(Weights(sum), sum, FloorLog2(sum));
  }

  /** With weights 2^0..2^(m-1) available, 2^m has exactly m representations:
      the highest weight used twice, or once with 2^(m-1) made from the rest. */
  lemma {:induction false} HalfCount(n: nat, m: nat)
    requires 1 <= m <= n
    ensures Count(PowersOfTwo(n), Pow2(m), m - 1) == m
  {
    var w := PowersOfTwo(n);
    assert w[m - 1] == Pow2(m - 1);
    SumOfPowers(n, m - 2);
    CountDoubleTopWeight(w, m - 1, Pow2(m));
    if m > 1 {
      HalfCount(n, m - 1);
    }
  }

  /** With weights 2^0..2^k, the target 2^k has exactly k + 1 representations. */
  lemma PowersOfTwoCount(k: nat)
    ensures Count(PowersOfTwo(k + 1), Pow2(k), k) == k + 1
  {
    var w := PowersOfTwo(k + 1);
    assert w[k] == Pow2(k);
    CountTopWeight(w, k, Pow2(k));
    if k > 0 {
      HalfCount(k + 1, k);
    }
  }

  /** Solve(2^k) == k + 1; in particular Solve(1) == 1 and every power of two
      is representable. */
  lemma PowerOfTwoCount(k: nat)
    ensures FloorLog2(Pow2(k)) == k && Weights(Pow2(k)) == PowersOfTwo(k + 1)
    ensures Count(Weights(Pow2(k)), Pow2(k), k) == k + 1
  {
    FloorLog2OfPow2(k);
    PowersOfTwoCount(k);
  }

  /** 5 = 4 + 1 = 2 + 2 + 1 are its only representations. */
  lemma FiveHasTwo()
    ensures Count(Weights(5), 5, FloorLog2(5)) == 2
  {
    assert FloorLog2(5) == 2;
    var w := Weights(5);
    assert w == [1, 2, 4];
    assert Count(w, 1, 0) == 1;
    assert Count(w, 3, 0) == 0 && Count(w, 5, 0) == 0;
    CountBelowZero(w, -1, 0);
    CountBelowZero(w, -3, 1);
    assert Count(w, 5, 1) == 1 && Count(w, 1, 1) == 1;
  }
}
