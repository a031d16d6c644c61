/** What the solver counts: choice vectors c in {0,1,2}^(i+1) whose weighted
    sum c[0]*w[0] + ... + c[i]*w[i] equals a target. `Count` is the plain
    three-way recurrence without memo table or pruning; `Choices` and
    `Solutions` enumerate the vectors themselves, and `CountIsSolutions`
    proves the two agree. */
module Combinations {

  ghost predicate NonNegative(w: seq<int>) {
    forall k :: 0 <= k < |w| ==> w[k] >= 0
  }

  ghost predicate Positive(w: seq<int>) {
    forall k :: 0 <= k < |w| ==> w[k] > 0
  }

  /** w[0] + ... + w[i]; 0 when i == -1. This is the solver's `remaining`. */
  function SumPrefix(w: seq<int>, i: int): (s: int)
    requires -1 <= i < |w|
    decreases i + 1
  {
    if i < 0 then 0 else SumPrefix(w, i - 1) + w[i]
  }

  /** Number of ways to reach `target` using each of w[0..i] zero, one or
      two times, deciding the highest index first. */
  function Count(w: seq<int>, target: int, i: int): (n: nat)
    requires -1 <= i < |w|
    decreases i + 1
  {
    if i < 0 then (if target == 0 then 1 else 0)
    else Count(w, target, i - 1) + Count(w, target - w[i], i - 1) + Count(w, target - 2 * w[i], i - 1)
  }

  /** With non-negative weights a negative target is unreachable. */
  lemma {:induction false} CountBelowZero(w: seq<int>, target: int, i: int)
    requires -1 <= i < |w| && NonNegative(w)
    requires target < 0
    ensures Count(w, target, i) == 0
    decreases i + 1
  {
    if i >= 0 {
      CountBelowZero(w, target, i - 1);
      CountBelowZero(w, target - w[i], i - 1);
      CountBelowZero(w, target - 2 * w[i], i - 1);
    }
  }

  /** With positive weights the only way to reach 0 is to choose nothing,
      at every index including -1. */
  lemma {:induction false} CountOfZero(w: seq<int>, i: int)
    requires -1 <= i < |w| && Positive(w)
    ensures Count(w, 0, i) == 1
    decreases i + 1
  {
    if i >= 0 {
      CountOfZero(w, i - 1);
      CountBelowZero(w, -w[i], i - 1);
      CountBelowZero(w, -2 * w[i], i - 1);
    }
  }

  /** Pruning is sound: when even two copies of every weight in w[0..i]
      fall short of the target, no choice reaches it. */
  lemma {:induction false} CountPruned(w: seq<int>, target: int, i: int)
    requires -1 <= i < |w| && NonNegative(w)
    requires 2 * SumPrefix(w, i) < target
    ensures Count(w, target, i) == 0
    decreases i + 1
  {
    if i >= 0 {
      CountPruned(w, target, i - 1);
      CountPruned(w, target - w[i], i - 1);
      CountPruned(w, target - 2 * w[i], i - 1);
    }
  }

  /** A target equal to the top weight w[k]: taking it once is one way, taking
      it twice overshoots, the other ways leave it out. */
  lemma CountTopWeight(w: seq<int>, k: nat, target: int)
    requires k < |w| && Positive(w)
    requires target == w[k]
    ensures Count(w, target, k) == Count(w, target, k - 1) + 1
  {
    assert Count(w, target, k) == Count(w, target, k - 1) + Count(w, 0, k - 1) + Count(w, -target, k - 1);
    CountOfZero(w, k - 1);
    CountBelowZero(w, -target, k - 1);
  }

  /** A target of twice the top weight w[k], out of reach of w[0..k-1]: taking
      w[k] twice is one way, taking it once leaves w[k] to make from the rest. */
  lemma CountDoubleTopWeight(w: seq<int>, k: nat, target: int)
    requires k < |w| && Positive(w)
    requires target == 2 * w[k] && 2 * SumPrefix(w, k - 1) < target
    ensures Count(w, target, k) == Count(w, w[k], k - 1) + 1
  {
    assert Count(w, target, k) == Count(w, target, k - 1) + Count(w, w[k], k - 1) + Count(w, 0, k - 1);
    CountPruned(w, target, k - 1);
    CountOfZero(w, k - 1);
  }

  // ---------------------------------------------------------------------
  // Brute-force enumeration of the choice vectors

  /** c[0]*w[0] + ... + c[|c|-1]*w[|c|-1]. */
  function WeightedSum(c: seq<int>, w: seq<int>): (s: int)
    requires |c| <= |w|
  {
    if |c| == 0 then 0 else WeightedSum(c[..|c| - 1], w) + c[|c| - 1] * w[|c| - 1]
  }

  /** c uses each of the first n weights 0, 1 or 2 times. */
  ghost predicate IsChoice(c: seq<int>, n: nat) {
    |c| == n && forall k :: 0 <= k < n ==> 0 <= c[k] <= 2
  }

  ghost predicate Reaches(c: seq<int>, w: seq<int>, target: int) {
    |c| <= |w| && WeightedSum(c, w) == target
  }

  ghost predicate Distinct(vs: seq<seq<int>>) {
    forall a, b :: 0 <= a < b < |vs| ==> vs[a] != vs[b]
  }

  /** Every vector of `vs` with `d` appended. */
  function Extend(vs: seq<seq<int>>, d: int): (r: seq<seq<int>>)
    ensures |r| == |vs|
  {
    seq(|vs|, j requires 0 <= j < |vs| => vs[j] + [d])
  }

  /** All 3^n choice vectors of length n. */
  function Choices(n: nat): (vs: seq<seq<int>>) {
    if n == 0 then [[]]
    else
      var prev := Choices(n - 1);
      Extend(prev, 0) + Extend(prev, 1) + Extend(prev, 2)
  }

  /** How many members of `vs` reach `target`. */
  ghost function Matching(vs: seq<seq<int>>, w: seq<int>, target: int): (m: nat) {
    if |vs| == 0 then 0
    else (if Reaches(vs[0], w, target) then 1 else 0) + Matching(vs[1..], w, target)
  }

  /** The set of choice vectors over w[0..n-1] whose weighted sum is `target`. */
  ghost function Solutions(w: seq<int>, target: int, n: nat): (cs: set<seq<int>>) {
    set c | c in Choices(n) && Reaches(c, w, target)
  }

  /** Every listed choice vector has length n. */
  lemma {:induction false} ChoicesLength(n: nat)
    ensures forall c :: c in Choices(n) ==> |c| == n
  {
    if n > 0 {
      var prev := Choices(n - 1);
      ChoicesLength(n - 1);
      forall c | c in Choices(n) ensures |c| == n {
        InExtend(prev, 0, c);
        InExtend(prev, 1, c);
        InExtend(prev, 2, c);
      }
    }
  }

  /** Membership in Extend(vs, d): the last entry is d and the rest is in vs. */
  lemma InExtend(vs: seq<seq<int>>, d: int, c: seq<int>)
    ensures c in Extend(vs, d) <==> |c| > 0 && c[|c| - 1] == d && c[..|c| - 1] in vs
  {
    var e := Extend(vs, d);
    if c in e {
      var j :| 0 <= j < |e| && e[j] == c;
      assert c[..|c| - 1] == vs[j];
    }
    if |c| > 0 && c[|c| - 1] == d && c[..|c| - 1] in vs {
      var j :| 0 <= j < |vs| && vs[j] == c[..|c| - 1];
      assert e[j] == c;
    }
  }

  /** Choices(n) holds exactly the vectors in {0,1,2}^n. */
  lemma {:induction false} ChoicesExact(n: nat, c: seq<int>)
    ensures c in Choices(n) <==> IsChoice(c, n)
  {
    if n == 0 {
      assert Choices(0) == [[]];
    } else {
      var prev := Choices(n - 1);
      assert Choices(n) == Extend(prev, 0) + Extend(prev, 1) + Extend(prev, 2);
      InExtend(prev, 0, c);
      InExtend(prev, 1, c);
      InExtend(prev, 2, c);
      if |c| > 0 {
        var p := c[..|c| - 1];
        ChoicesExact(n - 1, p);
        assert IsChoice(c, n) <==> IsChoice(p, n - 1) && 0 <= c[|c| - 1] <= 2 by {
          assert forall k :: 0 <= k < |p| ==> p[k] == c[k];
        }
      }
    }
  }

  lemma ExtendDistinct(vs: seq<seq<int>>, d: int)
    requires Distinct(vs)
    ensures Distinct(Extend(vs, d))
  {
    var e := Extend(vs, d);
    forall a, b | 0 <= a < b < |e|
      ensures e[a] != e[b]
    {
      assert e[a][..|vs[a]|] == vs[a];
      assert e[b][..|vs[b]|] == vs[b];
    }
  }

  lemma ConcatDistinct(xs: seq<seq<int>>, ys: seq<seq<int>>)
    requires Distinct(xs) && Distinct(ys)
    requires forall x, y :: x in xs && y in ys ==> x != y
    ensures Distinct(xs + ys)
  {
    var zs := xs + ys;
    forall a, b | 0 <= a < b < |zs|
      ensures zs[a] != zs[b]
    {
      if b < |xs| {
        assert zs[a] == xs[a] && zs[b] == xs[b];
      } else if a < |xs| {
        assert zs[a] == xs[a] && zs[b] == ys[b - |xs|];
        assert xs[a] in xs && ys[b - |xs|] in ys;
      } else {
        assert zs[a] == ys[a - |xs|] && zs[b] == ys[b - |xs|];
      }
    }
  }

  /** Vectors extended by different digits differ in their last entry. */
  lemma ExtendApart(vs: seq<seq<int>>, d: int, us: seq<seq<int>>, e: int)
    requires d != e
    ensures forall x, y :: x in Extend(vs, d) && y in Extend(us, e) ==> x != y
  {
    forall x, y | x in Extend(vs, d) && y in Extend(us, e)
      ensures x != y
    {
      var j :| 0 <= j < |vs| && Extend(vs, d)[j] == x;
      var k :| 0 <= k < |us| && Extend(us, e)[k] == y;
      assert x[|x| - 1] == d && y[|y| - 1] == e;
    }
  }

  /** No choice vector is listed twice. */
  lemma {:induction false} ChoicesDistinct(n: nat)
    ensures Distinct(Choices(n))
  {
    if n > 0 {
      var prev := Choices(n - 1);
      ChoicesDistinct(n - 1);
      ExtendDistinct(prev, 0);
      ExtendDistinct(prev, 1);
      ExtendDistinct(prev, 2);
      ExtendApart(prev, 0, prev, 1);
      ConcatDistinct(Extend(prev, 0), Extend(prev, 1));
      forall x, y | x in Extend(prev, 0) + Extend(prev, 1) && y in Extend(prev, 2)
        ensures x != y
      {
        ExtendApart(prev, 0, prev, 2);
        ExtendApart(prev, 1, prev, 2);
      }
      ConcatDistinct(Extend(prev, 0) + Extend(prev, 1), Extend(prev, 2));
    }
  }

  lemma {:induction false} MatchingConcat(xs: seq<seq<int>>, ys: seq<seq<int>>, w: seq<int>, target: int)
    ensures Matching(xs + ys, w, target) == Matching(xs, w, target) + Matching(ys, w, target)
  {
    if |xs| > 0 {
      assert (xs + ys)[0] == xs[0];
      assert (xs + ys)[1..] == xs[1..] + ys;
      MatchingConcat(xs[1..], ys, w, target);
    } else {
      assert xs + ys == ys;
    }
  }

  /** Appending digit d at position n shifts the target by d * w[n]. */
  lemma {:induction false} MatchingExtend(vs: seq<seq<int>>, n: nat, d: int, w: seq<int>, target: int)
    requires n < |w|
    requires forall j :: 0 <= j < |vs| ==> |vs[j]| == n
    ensures Matching(Extend(vs, d), w, target) == Matching(vs, w, target - d * w[n])
  {
    if |vs| > 0 {
      var c := vs[0];
      var e := Extend(vs, d);
      assert e[0] == c + [d];
      assert (c + [d])[..n] == c;
      assert WeightedSum(c + [d], w) == WeightedSum(c, w) + d * w[n];
      assert e[1..] == Extend(vs[1..], d);
      forall j | 0 <= j < |vs[1..]| ensures |vs[1..][j]| == n {
        assert vs[1..][j] == vs[j + 1];
      }
      MatchingExtend(vs[1..], n, d, w, target);
    }
  }

  lemma MatchingConcat3(e0: seq<seq<int>>, e1: seq<seq<int>>, e2: seq<seq<int>>, w: seq<int>, target: int)
    ensures Matching(e0 + e1 + e2, w, target)
         == Matching(e0, w, target) + Matching(e1, w, target) + Matching(e2, w, target)
  {
    MatchingConcat(e0 + e1, e2, w, target);
    MatchingConcat(e0, e1, w, target);
  }

  /** The vectors of Choices(i) extended by digit d reach target exactly
      when the originals reach target - d * w[i]. */
  lemma MatchingExtendChoices(w: seq<int>, target: int, i: nat, d: int)
    requires i < |w|
    ensures Matching(Extend(Choices(i), d), w, target) == Matching(Choices(i), w, target - d * w[i])
  {
    ChoicesLength(i);
    MatchingExtend(Choices(i), i, d, w, target);
  }

  /** Splitting Choices(i + 1) by the digit chosen for index i. */
  lemma MatchingChoicesStep(w: seq<int>, target: int, i: nat)
    requires i < |w|
    ensures Matching(Choices(i + 1), w, target)
         == Matching(Choices(i), w, target) + Matching(Choices(i), w, target - w[i])
            + Matching(Choices(i), w, target - 2 * w[i])
  {
    var prev := Choices(i);
    MatchingConcat3(Extend(prev, 0), Extend(prev, 1), Extend(prev, 2), w, target);
    MatchingExtendChoices(w, target, i, 0);
    MatchingExtendChoices(w, target, i, 1);
    MatchingExtendChoices(w, target, i, 2);
  }

  /** The recurrence counts the enumerated vectors. */
  lemma {:induction false} CountEnumerates(w: seq<int>, target: int, i: int)
    requires -1 <= i < |w|
    ensures Count(w, target, i) == Matching(Choices(i + 1), w, target)
    decreases i + 1
  {
    if i < 0 {
      assert Choices(0) == [[]];
      assert Choices(0)[1..] == [];
    } else {
      MatchingChoicesStep(w, target, i);
      CountEnumerates(w, target, i - 1);
      CountEnumerates(w, target - w[i], i - 1);
      CountEnumerates(w, target - 2 * w[i], i - 1);
    }
  }

  /** Dropping the head of a list without repetitions keeps it without
      repetitions, and the head does not occur in the rest. */
  lemma DistinctTail(vs: seq<seq<int>>)
    requires |vs| > 0 && Distinct(vs)
    ensures Distinct(vs[1..]) && vs[0] !in vs[1..]
  {
  }

  /** In a list without repetitions, counting matches counts distinct vectors. */
  lemma {:induction false} MatchingIsCardinality(vs: seq<seq<int>>, w: seq<int>, target: int)
    requires Distinct(vs)
    ensures |set c | c in vs && Reaches(c, w, target)| == Matching(vs, w, target)
  {
    if |vs| > 0 {
      var rest := vs[1..];
      DistinctTail(vs);
      MatchingIsCardinality(rest, w, target);
      var s := set c | c in vs && Reaches(c, w, target);
      var t := set c | c in rest && Reaches(c, w, target);
      assert vs == [vs[0]] + rest;
      if Reaches(vs[0], w, target) {
        assert s == {vs[0]} + t;
      } else {
        assert s == t;
      }
    }
  }

  /** Count(w, target, i) is the number of vectors c in {0,1,2}^(i+1) with
      c[0]*w[0] + ... + c[i]*w[i] == target. */
  lemma CountIsSolutions(w: seq<int>, target: int, i: int)
    requires -1 <= i < |w|
    ensures Count(w, target, i) == |Solutions(w, target, i + 1)|
    ensures forall c :: c in Solutions(w, target, i + 1) <==> IsChoice(c, i + 1) && WeightedSum(c, w) == target
  {
    CountEnumerates(w, target, i);
    ChoicesDistinct(i + 1);
    MatchingIsCardinality(Choices(i + 1), w, target);
    forall c ensures c in Solutions(w, target, i + 1) <==> IsChoice(c, i + 1) && WeightedSum(c, w) == target {
      ChoicesExact(i + 1, c);
    }
  }
}
