# Coin representation, modelled in Dafny

`CoinRepresentation.Solve(sum)` counts the ways to write a positive `sum` as
a sum of powers of two `2^k <= sum`, where each power may be used zero, one
or two times. It has two parts:

- **Weight set.** `Solve` builds the ascending array
  `weights[k] = 2^k` for `k = 0 .. maxExponent`. Here `maxExponent` is the
  largest `k` with `2^k <= sum`. It also totals the array into
  `totalWeight`, returns 0 early when `2 * totalWeight < sum`, and otherwise
  starts the counter with a fresh memo table.
- **Counter.** `CountCombinations(weights, target, i, remaining, table)`
  follows a fixed order:
  1. It looks up `(target, i)` in the table.
  2. It answers 1 when `target == 0`.
  3. It answers 0 when `i < 0` or `2 * remaining < target`. This is the
     pruning rule.
  4. It subtracts `weights[i]` from `remaining` once.
  5. It sums the recursive calls at `i - 1` for using `weights[i]` 0, 1 or
     2 times. A use that would overshoot `target` is skipped.
  6. It records the sum in the table and returns it.

The model has four modules, in dependency order:

- `Powers` (`powers.dfy`): `Pow2`, and `FloorLog2` as the exact integer
  stand-in for `Math.Log(sum) / Math.Log(2)`.
- `Combinations` (`combinations.dfy`): the specification.
  - `Count(w, target, i)` is the plain three-way recurrence, with no table
    and no pruning.
  - `Choices(n)` lists every vector in `{0,1,2}^n`.
  - `Solutions(w, target, n)` is the set of those vectors whose weighted sum
    is `target`.
  - `CountIsSolutions` proves that `Count` is the size of that set.
  - The module also proves the lemmas behind the counter's cut-offs: terminal
    cases, negative targets and pruning.
- `WeightSet` (`weight_set.dfy`): `Weights(sum)`, the sum of the powers, the
  proof that the early return is dead code, and closed forms for
  `Solve(2^k)` and `Solve(5)`.
- `CoinRepresentation` (`coin_representation.dfy`): the imperative code.
  - `Table` is a class whose field `entries: map<(int, int), int>` stands for
    the `Hashtable`.
  - `MaxExponent` finds the exponent with a doubling loop.
  - `BuildWeights` is the array-filling loop of `Solve`, lines 28-35.
  - `Solve` and the recursive method `CountCombinations` are proved to return
    `Count`, and so the number of representations.

`CountCombinations` is proved with these invariants:

- Every table entry `(t, j) -> v` has `t >= 0`, `-1 <= j < |w|` and
  `v == Count(w, t, j)` (`Table.Consistent`). So a cache hit returns what
  recomputation would. Every call has `target >= 0`: `Solve` starts with
  `sum >= 1`, and each child call is guarded by `target >= weightGained`.
- Entries are only added, never changed (`Grows`).
- Every entry a call adds has an index no larger than its own `i`. So
  `(target, i)` is still absent when `Table.Add` runs. A computed state is
  always recorded, and a cache hit or early return changes nothing. `Add`
  requires the key to be absent, just as `Hashtable.Add` throws on an
  existing key.
- `remaining == SumPrefix(weights, i)`. After the single decrement, this is
  exactly what each child call at `i - 1` demands.

Termination follows from `decreases i + 1`.

The counter needs positive weights (`Positive`). With a weight of 0, several
vectors sum to 0, but the `target == 0` shortcut answers 1. The weights
`Solve` builds are powers of two. The usage example in the source's doc
comment (CoinRepresentation.cs:53) also uses positive weights.

The doc comment at CoinRepresentation.cs:16 describes the coins as
`2^k` with `k < log_2(sum)`. The code and the comment at line 23 use
`2^k <= sum`, so `sum` itself is a coin when it is a power of two. The model
follows the code.

## Model

| member | source | states |
|---|---|---|
| `Powers.Pow2` | CoinRepresentation.cs:32 | every weight `2^k` is at least 1 |
| `Powers.Pow2Increases` | CoinRepresentation.cs:26-33 | `2^j < 2^k` whenever `j < k`, so the weight array is strictly ascending |
| `Powers.FloorLog2` | CoinRepresentation.cs:23-24 | the exponent satisfies `2^e <= n < 2^(e+1)` |
| `Powers.ExponentUnique` | CoinRepresentation.cs:23-24 | any `e` with `2^e <= n < 2^(e+1)` equals `FloorLog2(n)` |
| `Powers.FloorLog2OfPow2` | CoinRepresentation.cs:23-24 | the exponent of `2^k` is exactly `k`, so `Solve(2^k)` uses `2^k` itself as its top weight |
| `Powers.FloorLog2IsLargest` | CoinRepresentation.cs:23 | no `k` with `2^k <= n` exceeds `FloorLog2(n)`: it is the largest such `k` |
| `Combinations.CountBelowZero` | CoinRepresentation.cs:118-124 | with non-negative weights a negative target has no combination, so skipping overshooting branches loses nothing |
| `Combinations.CountOfZero` | CoinRepresentation.cs:93-97 | with positive weights target 0 has exactly one combination at every index, including `i == -1` |
| `Combinations.CountPruned` | CoinRepresentation.cs:99-105 | with non-negative weights, `2 * (w[0] + ... + w[i]) < target` means no combination reaches `target` |
| `Combinations.ChoicesExact` | CoinRepresentation.cs:48-50 | `Choices(n)` contains a vector exactly when it has length `n` and entries in `{0,1,2}` |
| `Combinations.ChoicesDistinct` | CoinRepresentation.cs:48-50 | `Choices(n)` lists no vector twice |
| `Combinations.CountEnumerates` | CoinRepresentation.cs:48-66 | the recurrence `Count(w, target, i)` equals the number of listed vectors of length `i + 1` whose weighted sum is `target` |
| `Combinations.CountIsSolutions` | CoinRepresentation.cs:48-66 | `Count(w, target, i)` is the size of the set of vectors `c` in `{0,1,2}^(i+1)` with `c[0]*w[0] + ... + c[i]*w[i] == target`, and that set holds exactly those vectors |
| `WeightSet.WeightsShape` | CoinRepresentation.cs:23-35 | the weights are positive and strictly ascending, every power of two `<= sum` is among them at its own index, and the largest one is `<= sum < 2 *` itself |
| `WeightSet.SumOfPowers` | CoinRepresentation.cs:29-35 | `2^0 + ... + 2^i == 2^(i+1) - 1` |
| `WeightSet.FeasibilityHolds` | CoinRepresentation.cs:37-43 | `2 * totalWeight >= sum` for every `sum >= 1`, so the early `return 0` never fires |
| `WeightSet.RepresentationsCounted` | CoinRepresentation.cs:13-19 | the count over the weights of `sum` is the number of representations of `sum` |
| `WeightSet.PowersOfTwoCount` | CoinRepresentation.cs:13-19 | with weights `2^0..2^k` the target `2^k` has exactly `k + 1` combinations |
| `WeightSet.PowerOfTwoCount` | CoinRepresentation.cs:21-35 | `Solve(2^k)` uses the weights `2^0..2^k` and has the value `k + 1`; `Solve(1) == 1` |
| `WeightSet.FiveHasTwo` | CoinRepresentation.cs:13-19 | `Solve(5) == 2` (`4 + 1` and `2 + 2 + 1`) |
| `CoinRepresentation.Table.constructor` | CoinRepresentation.cs:44 | a fresh table is empty |
| `CoinRepresentation.Table.Add` | CoinRepresentation.cs:128 | adds one new key, which must be absent; the other entries are unchanged |
| `CoinRepresentation.MaxExponent` | CoinRepresentation.cs:23-24 | returns the largest `e` with `2^e <= sum`, that is `FloorLog2(sum)` |
| `CoinRepresentation.BuildWeights` | CoinRepresentation.cs:26-35 | the new array is `[2^0, ..., 2^maxExponent]` and `totalWeight` is its sum |
| `CoinRepresentation.Solve` | CoinRepresentation.cs:21-46 | returns the number of ways to write `sum` with each power of two `<= sum` used 0, 1 or 2 times, both as `Count` and as the size of the representation set |
| `CoinRepresentation.BranchesComplete` | CoinRepresentation.cs:117-125 | the loop's three rounds, skipping each use that would overshoot, add up to the full count |
| `CoinRepresentation.CountCombinations` | CoinRepresentation.cs:84-130 | for a non-negative `target`, returns `Count(weights, target, i)` when `remaining` is the sum of `weights[0..i]` and the table is consistent. Afterwards the table is still consistent: every key has a non-negative target, an index in `[-1, weights.Length)` and the pure count as its value. Old entries are unchanged, and new keys have index at most `i`. A call that gets past the cache and the three early returns leaves `(target, i)` in the table. A cache hit or an early return leaves the table exactly as it was |

## Left out

- Floating point: `Math.Log` and `Math.Pow` (CoinRepresentation.cs:24, 32) become exact integer arithmetic (`MaxExponent`, `FloorLog2`, `Pow2`). Rounding near powers of two is not modelled.
- The string memo key `$"{target}#{i}"` and the .NET `Hashtable` API: the table is a map keyed by the pair `(target, i)`. The string encoding is injective, so both key the same entries.
- Solve: does not model the 64-bit wrap of `2 * totalWeight` (CoinRepresentation.cs:40), because all arithmetic is on unbounded integers. For every `sum < 2^61` the doubled total stays in range. When the source's `maxExponent` is 62, its `totalWeight` is `2^63 - 1`, the doubled value wraps to `-2`, and the source returns 0 where the model returns the true count. Line 24 rounds `sum` to a `double`, so this already happens a few thousand below `2^62`. For the largest longs the rounded exponent is 63, the `(long)` cast of `2^63` at line 32 is out of range, and the source still returns 0.
- CountCombinations: does not model 64-bit `long` overflow of `2 * remaining` (CoinRepresentation.cs:102) or `timesIncluded * weights[i]` (CoinRepresentation.cs:120), because all arithmetic is on unbounded integers.
- CountCombinations: requires `target >= 0`. `Solve` passes `sum >= 1`, and every recursive call is guarded by `target >= weightGained` (CoinRepresentation.cs:121). A direct call with a negative target, which the source answers with 0, is not modelled.
- Solve: requires `sum >= 1`. For `sum <= 0` the source takes the logarithm of a non-positive number, and its behaviour there is not defined.
- The complexity and memory remarks (CoinRepresentation.cs:67-78) and the unused `using` directives (CoinRepresentation.cs:1-5).
- Recursion depth: the model recurses like the source, and stack limits are not modelled.
