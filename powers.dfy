/** Exact integer powers of two and the integer base-2 logarithm.
    These replace the floating-point `Math.Pow(2, k)` and
    `Math.Log(sum) / Math.Log(2)` of the coin-representation solver. */
module Powers {

  /** 2^k. */
  function Pow2(k: nat): (p: nat)
    ensures p >= 1
  {
    if k == 0 then 1 else 2 * Pow2(k - 1)
  }

  /** Powers of two strictly increase with the exponent. */
  lemma {:induction false} Pow2Increases(j: nat, k: nat)
    requires j < k
    ensures Pow2(j) < Pow2(k)
  {
    if j + 1 < k {
      Pow2Increases(j, k - 1);
    }
  }

  /** The largest e with 2^e <= n, i.e. floor(log2(n)). */
  function FloorLog2(n: nat): (e: nat)
    requires n >= 1
    ensures Pow2(e) <= n < Pow2(e + 1)
  {
    if n == 1 then 0 else 1 + FloorLog2(n / 2)
  }

  /** The bracket 2^e <= n < 2^(e+1) determines e: it is FloorLog2(n). */
  lemma ExponentUnique(n: nat, e: nat)
    requires n >= 1
    requires Pow2(e) <= n < Pow2(e + 1)
    ensures e == FloorLog2(n)
  {
    var f := FloorLog2(n);
    if e < f {
      if e + 1 < f {
        Pow2Increases(e + 1, f);
      }
    } else if f < e {
      if f + 1 < e {
        Pow2Increases(f + 1, e);
      }
    }
  }

  /** The exponent of a power of two is recovered exactly. */
  lemma FloorLog2OfPow2(k: nat)
    ensures FloorLog2(Pow2(k)) == k
  {
    assert Pow2(k + 1) == 2 * Pow2(k);
    ExponentUnique(Pow2(k), k);
  }

  /** No power of two above 2^FloorLog2(n) fits below n. */
  lemma {:induction false} FloorLog2IsLargest(n: nat, k: nat)
    requires n >= 1
    requires Pow2(k) <= n
    ensures k <= FloorLog2(n)
  {
    var f := FloorLog2(n);
    if f + 1 < k {
      Pow2Increases(f + 1, k);
    }
  }
}
