/** Powers of two and multiples, the index arithmetic that the butterfly
    network of the Walsh–Hadamard transform relies on. */
module Powers {

  function Pow2(k: nat): (r: nat)
    ensures r >= 1
  {
    if k == 0 then 1 else 2 * Pow2(k - 1)
  }

  /** The vector lengths the transform accepts: 1, 2, 4, 8, ... */
  predicate IsPow2(n: nat)
  {
    if n <= 1 then n == 1 else n % 2 == 0 && IsPow2(n / 2)
  }

  /** The exponent of a power of two. */
  function Log2(n: nat): (k: nat)
    requires IsPow2(n)
    ensures Pow2(k) == n
  {
    if n == 1 then 0 else 1 + Log2(n / 2)
  }

  lemma {:induction false} Pow2IsPow2(k: nat)
    ensures IsPow2(Pow2(k))
  {
    if k > 0 {
      Pow2IsPow2(k - 1);
    }
  }

  /** The exponent of `2^k` is `k`. */
  lemma {:induction false} Log2Pow2(k: nat)
    ensures IsPow2(Pow2(k)) && Log2(Pow2(k)) == k
  {
    Pow2IsPow2(k);
    if k > 0 {
      Log2Pow2(k - 1);
      assert Pow2(k) / 2 == Pow2(k - 1);
    }
  }

  lemma {:induction false} Pow2Increasing(e: nat, k: nat)
    requires e < k
    ensures Pow2(e) < Pow2(k)
  {
    if e < k - 1 {
      Pow2Increasing(e, k - 1);
    }
  }

  /** `n` is a whole number of blocks of width `w`; stated by repeated
      subtraction so that no proof needs non-linear arithmetic. */
  predicate Multiple(n: nat, w: nat)
    requires w > 0
    decreases n
  {
    n == 0 || (n >= w && Multiple(n - w, w))
  }

  lemma {:induction false} MultipleAdd(a: nat, b: nat, w: nat)
    requires w > 0 && Multiple(a, w) && Multiple(b, w)
    ensures Multiple(a + b, w)
    decreases a
  {
    if a > 0 {
      MultipleAdd(a - w, b, w);
      assert a + b - w == (a - w) + b;
    }
  }

  lemma {:induction false} MultipleOfDouble(n: nat, w: nat)
    requires w > 0 && Multiple(n, 2 * w)
    ensures Multiple(n, w)
    decreases n
  {
    if n > 0 {
      MultipleOfDouble(n - 2 * w, w);
      assert n - w - w == n - 2 * w;
    }
  }

  lemma {:induction false} MultipleOfOne(n: nat)
    ensures Multiple(n, 1)
  {
    if n > 0 {
      MultipleOfOne(n - 1);
    }
  }

  /** A power of two is a whole number of blocks of every smaller power of two. */
  lemma {:induction false} Pow2Multiple(k: nat, e: nat)
    requires e <= k
    ensures Multiple(Pow2(k), Pow2(e))
  {
    if e == k {
      assert Multiple(0, Pow2(e));
    } else {
      Pow2Multiple(k - 1, e);
      MultipleAdd(Pow2(k - 1), Pow2(k - 1), Pow2(e));
    }
  }

  /** Powers of two are ordered as their exponents. */
  lemma {:induction false} Pow2Below(e: nat, k: nat)
    requires Pow2(e) < Pow2(k)
    ensures e < k
  {
    if e > k {
      Pow2Increasing(k, e);
    }
  }

  /** `n` and `b` are multiples of `w` and `b` lies below `n`: a whole block
      of width `w` starting at `b` fits below `n`. */
  lemma {:induction false} MultipleBelow(n: nat, b: nat, w: nat)
    requires w > 0 && Multiple(n, w) && Multiple(b, w) && b < n
    ensures b + w <= n
    decreases b
  {
    if b > 0 {
      MultipleBelow(n - w, b - w, w);
    }
  }
}
