/** The solver itself: `Solve` builds the weight array and its total, checks
    feasibility and starts `CountCombinations`, the memoised three-way
    recursion with pruning. Both are proved to return the pure `Count`. */
module CoinRepresentation {
  import opened Powers
  import opened Combinations
  import opened WeightSet

  /** The memo table shared by all calls of one `Solve`: (target, index) to count. */
  class Table {
    var entries: map<(int, int), int>

    constructor ()
      ensures entries == map[]
    {
      entries := map[];
    }

    /** Every key has a non-negative target and an index in [-1, |w|), and its
        cached count is the pure count for that key. */
    ghost predicate Consistent(w: seq<int>)
      reads this
    {
      forall key :: key in entries ==> key.0 >= 0 && -1 <= key.1 < |w| && entries[key] == Count(w, key.0, key.1)
    }

    /** Inserts a new key; like `Hashtable.Add`, it must not already be present. */
    method Add(key: (int, int), value: int)
      requires key !in entries
      modifies this
      ensures entries == old(entries)[key := value]
    {
      entries := entries[key := value];
    }
  }

  /** Entries are only added, never changed or removed. */
  ghost predicate Grows(before: map<(int, int), int>, after: map<(int, int), int>) {
    forall key :: key in before ==> key in after && after[key] == before[key]
  }

  /** The largest e with 2^e <= sum, found by doubling. */
  method MaxExponent(sum: int) returns (e: nat)
    requires sum >= 1
    ensures Pow2(e) <= sum < Pow2(e + 1)
    ensures e == FloorLog2(sum)
  {
    e := 0;
    var p := 1;
    while 2 * p <= sum
      invariant p == Pow2(e) && p <= sum
      decreases sum - p
    {
      p := 2 * p;
      e := e + 1;
    }
    ExponentUnique(sum, e);
  }

  /** Fills the ascending weight array 2^0, ..., 2^maxExponent and totals it. */
  method BuildWeights(maxExponent: nat) returns (weights: array<int>, totalWeight: int)
    ensures fresh(weights)
    ensures weights[..] == PowersOfTwo(maxExponent + 1)
    ensures totalWeight == SumPrefix(weights[..], maxExponent)
  {
    ghost var spec := PowersOfTwo(maxExponent + 1);
    weights := new int[maxExponent + 1];
    totalWeight := 0;
    for k := 0 to maxExponent + 1
      invariant weights[..k] == spec[..k]
      invariant totalWeight == SumPrefix(spec, k - 1)
    {
      var w := Pow2(k);
      weights[k] := w;
      totalWeight := totalWeight + w;
    }
    assert weights[..] == weights[..maxExponent + 1] && spec == spec[..maxExponent + 1];
  }

  /** Number of ways to reach `sum` with each power of two up to it used 0, 1
      or 2 times. */
  method Solve(sum: int) returns (count: int)
    requires sum >= 1
    ensures count == Count(Weights(sum), sum, FloorLog2(sum))
    ensures count == |Representations(sum)|
  {
    var maxExponent := MaxExponent(sum);
    var weights, totalWeight := BuildWeights(maxExponent);
    ghost var ws := weights[..];
    RepresentationsCounted(sum);

    if 2 * totalWeight < sum {
      CountPruned(ws, sum, maxExponent);
      return 0;
    }
    var table := new Table();
    assert Positive(ws) by {
      WeightsShape(sum);
    }
    count := CountCombinations(weights, sum, weights.Length - 1, totalWeight, table);
  }

  /** The counts gathered by the loop of `CountCombinations` after its first n
      rounds: using weight w[i] t times for t < n, skipping overshoots. */
  ghost function Branches(w: seq<int>, target: int, i: int, n: nat): (s: int)
    requires 0 <= i < |w| && n <= 3
  {
    if n == 0 then 0
    else Branches(w, target, i, n - 1)
         + (if target >= (n - 1) * w[i] then Count(w, target - (n - 1) * w[i], i - 1) else 0)
  }

  /** Skipping the overshooting branches loses nothing: all three rounds give Count. */
  lemma BranchesComplete(w: seq<int>, target: int, i: int)
    requires 0 <= i < |w| && NonNegative(w)
    ensures Branches(w, target, i, 3) == Count(w, target, i)
  {
    assert Branches(w, target, i, 1) == if target >= 0 then Count(w, target, i - 1) else 0;
    assert Branches(w, target, i, 2)
        == Branches(w, target, i, 1) + if target >= w[i] then Count(w, target - w[i], i - 1) else 0;
    assert Branches(w, target, i, 3)
        == Branches(w, target, i, 2) + if target >= 2 * w[i] then Count(w, target - 2 * w[i], i - 1) else 0;
    if target < 0 {
      CountBelowZero(w, target, i - 1);
    }
    if target < w[i] {
      CountBelowZero(w, target - w[i], i - 1);
    }
    if target < 2 * w[i] {
      CountBelowZero(w, target - 2 * w[i], i - 1);
    }
  }

  /** The number of ways to reach the non-negative `target` with weights[0..i],
      each used at most twice, where `remaining` is weights[0] + ... + weights[i].
      Looks the state up in `table` first and records it there afterwards. */
  method CountCombinations(weights: array<int>, target: int, i: int, remaining: int, table: Table)
    returns (count: int)
    requires target >= 0
    requires -1 <= i < weights.Length
    requires Positive(weights[..])
    requires remaining == SumPrefix(weights[..], i)
    requires table.Consistent(weights[..])
    modifies table
    ensures count == Count(weights[..], target, i)
    ensures table.Consistent(weights[..])
    ensures Grows(old(table.entries), table.entries)
    ensures forall key :: key in table.entries && key !in old(table.entries) ==> key.1 <= i
    ensures (target, i) in old(table.entries) || (target != 0 && 0 <= i && 2 * remaining >= target)
      ==> (target, i) in table.entries
    ensures (target, i) in old(table.entries) || target == 0 || i < 0 || 2 * remaining < target
      ==> table.entries == old(table.entries)
    decreases i + 1
  {
    var key := (target, i);
    if key in table.entries {
      return table.entries[key];
    }

    if target == 0 {
      CountOfZero(weights[..], i);
      return 1;
    }

    if i < 0 || 2 * remaining < target {
      if i >= 0 {
        CountPruned(weights[..], target, i);
      }
      return 0;
    }

    var rest := remaining - weights[i];

    count := 0;
    for timesIncluded := 0 to 3
      invariant count == Branches(weights[..], target, i, timesIncluded)
      invariant table.Consistent(weights[..])
      invariant Grows(old(table.entries), table.entries)
      invariant forall k :: k in table.entries && k !in old(table.entries) ==> k.1 < i
    {
      var weightGained := timesIncluded * weights[i];
      if target >= weightGained {
        var sub := CountCombinations(weights, target - weightGained, i - 1, rest, table);
        count := count + sub;
      }
    }
    BranchesComplete(weights[..], target, i);

    table.Add(key, count);
  }
}
