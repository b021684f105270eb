/**
 The helpers of server/src/utils.js: clamping, the Fisher-Yates shuffle
 driven by an explicit random source, and the integer core of the seeded
 `mulberry32` generator used by the turn-order spinner.
 */
module Utils {
  import opened Basics

  /** `clamp`: v limited above by b, then below by a (so a wins when a > b). */
  function Clamp(v: int, a: int, b: int): (r: int)
    ensures a <= b ==> a <= r <= b
    ensures a <= v <= b ==> r == v
    ensures v < a ==> r == a
    ensures a <= b && b < v ==> r == b
    ensures b < a ==> r == a
  {
    Max(a, Min(b, v))
  }

  /** The random source of a Fisher-Yates pass over `n` elements: the k-th
      draw picks the partner of position n-1-k, so it lies in [0, n-1-k]
      (what `Math.floor(rng() * (i + 1))` yields for rng() in [0, 1)). */
  predicate SwapsFit(n: nat, swaps: seq<nat>) {
    && |swaps| >= n - 1
    && forall k :: 0 <= k < n - 1 ==> swaps[k] <= n - 1 - k
  }

  /** `shuffleInPlace`: for i from the last index down to 1, exchange
      positions i and j = swaps[|a|-1-i]. Position i is never touched again
      once it is exchanged, so the pass is the swap at the last index
      followed by the same pass over the prefix. */
  function Shuffle<T>(a: seq<T>, swaps: seq<nat>): (r: seq<T>)
    requires SwapsFit(|a|, swaps)
    ensures |r| == |a|
    ensures multiset(r) == multiset(a)
    decreases |a|
  {
    if |a| <= 1 then a
    else
      var i := |a| - 1;
      var j := swaps[0];
      var b := a[i := a[j]][j := a[i]];
      assert multiset(b) == multiset(a);
      assert b == b[..i] + [b[i]];
      Shuffle(b[..i], swaps[1..]) + [b[i]]
  }

  /** The first value `mulberry32(seed)()` produces, before the division by
      2^32: the 32-bit mixing of `seed >>> 0`. `Math.imul` is a 32-bit
      wrapping product and every `^`, `|`, `>>>` and `+` is reduced to 32
      bits by the source's int32/uint32 conversions, so bv32 arithmetic is
      exact here. */
  function Mulberry32First(seed: nat): (x: nat)
    ensures x < 0x1_0000_0000
  {
    MixOut(MixAdd(MixMul(((seed % 0x1_0000_0000) as bv32) + 0x6D2B79F5))) as nat
  }

  /** First mixing step: t xor (t shifted right 15), times (t or 1), wrapping. */
  function MixMul(t: bv32): bv32 { (t ^ (t >> 15)) * (1 | t) }

  /** Second step: x xor (x + (x xor (x shifted right 7)) times (x or 61)). */
  function MixAdd(x: bv32): bv32 { x ^ (x + (x ^ (x >> 7)) * (61 | x)) }

  /** Output step: x xor (x shifted right 14), read as unsigned. */
  function MixOut(x: bv32): bv32 { x ^ (x >> 14) }

  /* The well-known first output of mulberry32 for seed 0 (0.2664292... as a
     fraction of 2^32); every client computes this same value. */
  lemma Mulberry32SeedZero()
    ensures Mulberry32First(0) == 1144304738
  {
    assert MixMul(0x6D2B79F5) == 0xFE7CA5FF;
    assert MixAdd(0xFE7CA5FF) == 0x4435A4B4;
    assert MixOut(0x4435A4B4) == 0x4434B462;
  }
}
