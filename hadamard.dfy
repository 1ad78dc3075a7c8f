/** The in-place Fast Walsh-Hadamard Transform `whtScVec` (sketch.js, lines
    36-56), its recursive reference definition and its algebra: linearity,
    the butterfly network applied twice is `n` times the identity, and with
    the exact `1/sqrt(n)` scaling the transform is its own inverse and keeps
    the sum of squares. */
module Hadamard {
  import opened Powers
  import opened Vectors

  /** One butterfly over two halves: `(a + b, a - b)`, sums first. */
  function Bfly(a: seq<real>, b: seq<real>): (r: seq<real>)
    requires |a| == |b|
    ensures |r| == 2 * |a|
  {
    Add(a, b) + Sub(a, b)
  }

  /** Reference definition of the unscaled transform of a vector of length
      `2^k`: the transforms of the two halves, combined by one butterfly. */
  function H(s: seq<real>, k: nat): (r: seq<real>)
    requires |s| == Pow2(k)
    ensures |r| == |s|
    decreases k
  {
    if k == 0 then s
    else
      var h := Pow2(k - 1);
      Bfly(H(s[..h], k - 1), H(s[h..], k - 1))
  }

  /** Splitting a vector of length `2^k` into its two halves, and the
      transform of order `k > 0` as the butterfly of their transforms. */
  lemma {:induction false} HHalves(s: seq<real>, k: nat, h: nat)
    requires |s| == Pow2(k) && k > 0 && h == Pow2(k - 1)
    ensures |s[..h]| == h && |s[h..]| == h && s[..h] + s[h..] == s
    ensures H(s, k) == Bfly(H(s[..h], k - 1), H(s[h..], k - 1))
  {
  }

  /** The result of `whtScVec(v, sc)`: the butterfly output times `sc / sqrt(n)`. */
  ghost function Wht(s: seq<real>, sc: real, sqrt: real -> real): (r: seq<real>)
    requires IsPow2(|s|) && PositiveRoot(sqrt)
    ensures |r| == |s|
  {
    Scale(H(s, Log2(|s|)), sc / sqrt(|s| as real))
  }

  // ---------------------------------------------------------------------
  // Element-wise facts about the vector operations

  lemma {:induction false} BflyAt(a: seq<real>, b: seq<real>, t: nat)
    requires |a| == |b| && t < 2 * |a|
    ensures t < |a| ==> Bfly(a, b)[t] == a[t] + b[t]
    ensures |a| <= t ==> Bfly(a, b)[t] == a[t - |a|] - b[t - |a|]
  {
  }

  /** The two halves of a butterfly are the sums and the differences. */
  lemma {:induction false} BflyHalves(a: seq<real>, b: seq<real>)
    requires |a| == |b|
    ensures Bfly(a, b)[..|a|] == Add(a, b) && Bfly(a, b)[|a|..] == Sub(a, b)
  {
  }

  /** Splitting a sum, a difference or a scaled vector at `h` splits its operands. */
  lemma {:induction false} AddHalves(x: seq<real>, y: seq<real>, h: nat)
    requires |x| == |y| && h <= |x|
    ensures Add(x, y)[..h] == Add(x[..h], y[..h]) && Add(x, y)[h..] == Add(x[h..], y[h..])
  {
    forall k | 0 <= k < h ensures Add(x, y)[..h][k] == Add(x[..h], y[..h])[k] { }
    forall k | 0 <= k < |x| - h ensures Add(x, y)[h..][k] == Add(x[h..], y[h..])[k] { }
  }

  lemma {:induction false} SubHalves(x: seq<real>, y: seq<real>, h: nat)
    requires |x| == |y| && h <= |x|
    ensures Sub(x, y)[..h] == Sub(x[..h], y[..h]) && Sub(x, y)[h..] == Sub(x[h..], y[h..])
  {
    forall k | 0 <= k < h ensures Sub(x, y)[..h][k] == Sub(x[..h], y[..h])[k] { }
    forall k | 0 <= k < |x| - h ensures Sub(x, y)[h..][k] == Sub(x[h..], y[h..])[k] { }
  }

  lemma {:induction false} ScaleHalves(x: seq<real>, c: real, h: nat)
    requires h <= |x|
    ensures Scale(x, c)[..h] == Scale(x[..h], c) && Scale(x, c)[h..] == Scale(x[h..], c)
  {
    forall k | 0 <= k < h ensures Scale(x, c)[..h][k] == Scale(x[..h], c)[k] { }
    forall k | 0 <= k < |x| - h ensures Scale(x, c)[h..][k] == Scale(x[h..], c)[k] { }
  }

  lemma {:induction false} ScaleScale(x: seq<real>, a: real, b: real)
    ensures Scale(Scale(x, a), b) == Scale(x, a * b)
  {
    forall k | 0 <= k < |x| ensures Scale(Scale(x, a), b)[k] == Scale(x, a * b)[k] {
      assert x[k] * a * b == x[k] * (a * b);
    }
  }

  lemma {:induction false} ScaleOne(x: seq<real>, c: real)
    requires c == 1.0
    ensures Scale(x, c) == x
  {
    forall k | 0 <= k < |x| ensures Scale(x, c)[k] == x[k] { }
  }

  lemma {:induction false} ScaleAdd(x: seq<real>, y: seq<real>, c: real)
    requires |x| == |y|
    ensures Scale(Add(x, y), c) == Add(Scale(x, c), Scale(y, c))
  {
    forall k | 0 <= k < |x| ensures Scale(Add(x, y), c)[k] == Add(Scale(x, c), Scale(y, c))[k] {
      assert (x[k] + y[k]) * c == x[k] * c + y[k] * c;
    }
  }

  lemma {:induction false} BflyAdd(a: seq<real>, b: seq<real>, c: seq<real>, d: seq<real>)
    requires |a| == |b| == |c| == |d|
    ensures Bfly(Add(a, c), Add(b, d)) == Add(Bfly(a, b), Bfly(c, d))
  {
    var n := |a|;
    forall t | 0 <= t < 2 * n ensures Bfly(Add(a, c), Add(b, d))[t] == Add(Bfly(a, b), Bfly(c, d))[t] {
      BflyAt(a, b, t);
      BflyAt(c, d, t);
      BflyAt(Add(a, c), Add(b, d), t);
    }
  }

  lemma {:induction false} BflySub(a: seq<real>, b: seq<real>, c: seq<real>, d: seq<real>)
    requires |a| == |b| == |c| == |d|
    ensures Bfly(Sub(a, c), Sub(b, d)) == Sub(Bfly(a, b), Bfly(c, d))
  {
    var n := |a|;
    forall t | 0 <= t < 2 * n ensures Bfly(Sub(a, c), Sub(b, d))[t] == Sub(Bfly(a, b), Bfly(c, d))[t] {
      BflyAt(a, b, t);
      BflyAt(c, d, t);
      BflyAt(Sub(a, c), Sub(b, d), t);
    }
  }

  lemma {:induction false} AddScaled(x: real, y: real, c: real)
    ensures x * c + y * c == (x + y) * c
  {
  }

  lemma {:induction false} SubScaled(x: real, y: real, c: real)
    ensures x * c - y * c == (x - y) * c
  {
  }

  /** `(x + y) + (x - y)` and `(x + y) - (x - y)` with `x = u * m`, resp.
      `y = u * m`, are `u * 2m`. */
  lemma {:induction false} SumOfBfly(x: real, y: real, u: real, m: real, c: real)
    requires x == u * m && c == 2.0 * m
    ensures (x + y) + (x - y) == u * c
  {
  }

  lemma {:induction false} DiffOfBfly(x: real, y: real, u: real, m: real, c: real)
    requires y == u * m && c == 2.0 * m
    ensures (x + y) - (x - y) == u * c
  {
  }

  lemma {:induction false} BflyScaleLow(a: seq<real>, b: seq<real>, c: real, t: nat)
    requires |a| == |b| && t < |a|
    ensures Bfly(Scale(a, c), Scale(b, c))[t] == Scale(Bfly(a, b), c)[t]
  {
    BflyAt(a, b, t);
    BflyAt(Scale(a, c), Scale(b, c), t);
    AddScaled(a[t], b[t], c);
  }

  lemma {:induction false} BflyScaleHigh(a: seq<real>, b: seq<real>, c: real, t: nat, u: nat)
    requires |a| == |b| && t == |a| + u && u < |a|
    ensures Bfly(Scale(a, c), Scale(b, c))[t] == Scale(Bfly(a, b), c)[t]
  {
    BflyAt(a, b, t);
    BflyAt(Scale(a, c), Scale(b, c), t);
    assert Bfly(a, b)[t] == a[u] - b[u];
    assert Bfly(Scale(a, c), Scale(b, c))[t] == Scale(a, c)[u] - Scale(b, c)[u];
    SubScaled(a[u], b[u], c);
  }

  lemma {:induction false} BflyScale(a: seq<real>, b: seq<real>, c: real)
    requires |a| == |b|
    ensures Bfly(Scale(a, c), Scale(b, c)) == Scale(Bfly(a, b), c)
  {
    forall t | 0 <= t < 2 * |a| ensures Bfly(Scale(a, c), Scale(b, c))[t] == Scale(Bfly(a, b), c)[t] {
      if t < |a| {
        BflyScaleLow(a, b, c, t);
      } else {
        BflyScaleHigh(a, b, c, t, t - |a|);
      }
    }
  }

  // ---------------------------------------------------------------------
  // Algebra of the reference transform

  /** The transform is additive. */
  lemma {:induction false} HAdd(x: seq<real>, y: seq<real>, k: nat)
    requires |x| == |y| == Pow2(k)
    ensures H(Add(x, y), k) == Add(H(x, k), H(y, k))
    decreases k
  {
    if k > 0 {
      var h := Pow2(k - 1);
      AddHalves(x, y, h);
      HAdd(x[..h], y[..h], k - 1);
      HAdd(x[h..], y[h..], k - 1);
      BflyAdd(H(x[..h], k - 1), H(x[h..], k - 1), H(y[..h], k - 1), H(y[h..], k - 1));
    }
  }

  /** The transform commutes with subtraction. */
  lemma {:induction false} HSub(x: seq<real>, y: seq<real>, k: nat)
    requires |x| == |y| == Pow2(k)
    ensures H(Sub(x, y), k) == Sub(H(x, k), H(y, k))
    decreases k
  {
    if k > 0 {
      var h := Pow2(k - 1);
      SubHalves(x, y, h);
      HSub(x[..h], y[..h], k - 1);
      HSub(x[h..], y[h..], k - 1);
      BflySub(H(x[..h], k - 1), H(x[h..], k - 1), H(y[..h], k - 1), H(y[h..], k - 1));
    }
  }

  /** The transform is homogeneous. */
  lemma {:induction false} HScale(x: seq<real>, c: real, k: nat)
    requires |x| == Pow2(k)
    ensures H(Scale(x, c), k) == Scale(H(x, k), c)
    decreases k
  {
    if k > 0 {
      var h := Pow2(k - 1);
      ScaleHalves(x, c, h);
      HScale(x[..h], c, k - 1);
      HScale(x[h..], c, k - 1);
      BflyScale(H(x[..h], k - 1), H(x[h..], k - 1), c);
    }
  }

  /** The transform of a transform, one level down: the butterfly of the
      twice-transformed halves. */
  lemma {:induction false} HOfH(s: seq<real>, k: nat)
    requires |s| == Pow2(k) && k > 0
    ensures var h := Pow2(k - 1);
            var a, b := H(H(s[..h], k - 1), k - 1), H(H(s[h..], k - 1), k - 1);
            H(H(s, k), k) == Bfly(Add(a, b), Sub(a, b))
  {
    var h := Pow2(k - 1);
    var l, r := H(s[..h], k - 1), H(s[h..], k - 1);
    var t := H(s, k);
    BflyHalves(l, r);
    calc {
      H(t, k);
      Bfly(H(t[..h], k - 1), H(t[h..], k - 1));
      Bfly(H(Add(l, r), k - 1), H(Sub(l, r), k - 1));
      { HAdd(l, r, k - 1); HSub(l, r, k - 1); }
      Bfly(Add(H(l, k - 1), H(r, k - 1)), Sub(H(l, k - 1), H(r, k - 1)));
    }
  }

  /** One element of the second butterfly in the first half: `2m * a[t]`. */
  lemma {:induction false} BflyTwiceLow(a: seq<real>, b: seq<real>, x: seq<real>, y: seq<real>, m: real, c: real, t: nat)
    requires |a| == |b| && x == Scale(a, m) && y == Scale(b, m) && c == 2.0 * m && t < |a|
    ensures Bfly(Add(x, y), Sub(x, y))[t] == Scale(a + b, c)[t]
  {
    BflyAt(Add(x, y), Sub(x, y), t);
    SumOfBfly(x[t], y[t], a[t], m, c);
    assert (a + b)[t] == a[t];
  }

  /** One element of the second butterfly in the second half, at `u = t - n`: `2m * b[u]`. */
  lemma {:induction false} BflyTwiceHigh(a: seq<real>, b: seq<real>, x: seq<real>, y: seq<real>, m: real, c: real, t: nat, u: nat)
    requires |a| == |b| && x == Scale(a, m) && y == Scale(b, m) && c == 2.0 * m
    requires t == |a| + u && u < |a|
    ensures Bfly(Add(x, y), Sub(x, y))[t] == Scale(a + b, c)[t]
  {
    BflyAt(Add(x, y), Sub(x, y), t);
    assert Bfly(Add(x, y), Sub(x, y))[t] == Add(x, y)[u] - Sub(x, y)[u];
    DiffOfBfly(x[u], y[u], b[u], m, c);
    assert (a + b)[t] == b[u];
  }

  /** The second butterfly undoes the first up to a factor `c = 2 * m`, once
      the halves below it have been transformed twice. */
  lemma {:induction false} BflyTwice(a: seq<real>, b: seq<real>, x: seq<real>, y: seq<real>, m: real, c: real)
    requires |a| == |b| && x == Scale(a, m) && y == Scale(b, m) && c == 2.0 * m
    ensures Bfly(Add(x, y), Sub(x, y)) == Scale(a + b, c)
  {
    forall t | 0 <= t < 2 * |a| ensures Bfly(Add(x, y), Sub(x, y))[t] == Scale(a + b, c)[t] {
      if t < |a| {
        BflyTwiceLow(a, b, x, y, m, c, t);
      } else {
        BflyTwiceHigh(a, b, x, y, m, c, t, t - |a|);
      }
    }
  }

  /** The unscaled butterfly network applied twice is `n` times the identity. */
  lemma {:induction false} HTwice(s: seq<real>, k: nat)
    requires |s| == Pow2(k)
    ensures H(H(s, k), k) == Scale(s, |s| as real)
    decreases k
  {
    if k == 0 {
      ScaleOne(s, |s| as real);
    } else {
      var h := Pow2(k - 1);
      HHalves(s, k, h);
      var a, b := s[..h], s[h..];
      HOfH(s, k);
      HTwice(a, k - 1);
      HTwice(b, k - 1);
      BflyTwice(a, b, H(H(a, k - 1), k - 1), H(H(b, k - 1), k - 1), h as real, |s| as real);
    }
  }

  lemma {:induction false} SumSqToAddSub(a: seq<real>, b: seq<real>, n: nat)
    requires |a| == |b| && n <= |a|
    ensures SumSqTo(Add(a, b), n) + SumSqTo(Sub(a, b), n) == 2.0 * (SumSqTo(a, n) + SumSqTo(b, n))
  {
    if n > 0 {
      SumSqToAddSub(a, b, n - 1);
      var x, y := a[n - 1], b[n - 1];
      assert (x + y) * (x + y) + (x - y) * (x - y) == 2.0 * (x * x + y * y);
    }
  }

  /** The sum of squares of a butterfly is twice that of its inputs. */
  lemma {:induction false} SumSqBfly(a: seq<real>, b: seq<real>)
    requires |a| == |b|
    ensures SumSq(Bfly(a, b)) == 2.0 * (SumSq(a) + SumSq(b))
  {
    SumSqAppend(Add(a, b), Sub(a, b));
    SumSqToAddSub(a, b, |a|);
  }

  /** `x` doubled `k` times. */
  function Doubled(x: real, k: nat): real
  {
    if k == 0 then x else 2.0 * Doubled(x, k - 1)
  }

  lemma {:induction false} DoubledAdd(x: real, y: real, z: real, k: nat)
    requires z == x + y
    ensures Doubled(x, k) + Doubled(y, k) == Doubled(z, k)
  {
    if k > 0 {
      DoubledAdd(x, y, z, k - 1);
    }
  }

  lemma {:induction false} DoubledIsProduct(x: real, k: nat, n: nat)
    requires n == Pow2(k)
    ensures Doubled(x, k) == (n as real) * x
  {
    if k > 0 {
      var h := Pow2(k - 1);
      DoubledIsProduct(x, k - 1, h);
      assert 2.0 * ((h as real) * x) == (2.0 * (h as real)) * x;
    }
  }

  /** One more doubling of a sum is the doubled sum of the doublings. */
  lemma {:induction false} DoubledSum(x: real, y: real, z: real, k: nat)
    requires k > 0 && z == x + y
    ensures 2.0 * (Doubled(x, k - 1) + Doubled(y, k - 1)) == Doubled(z, k)
  {
    DoubledAdd(x, y, z, k - 1);
  }

  /** Parseval's identity level by level: each butterfly doubles the sum of squares. */
  lemma {:induction false} HSumSqDoubled(s: seq<real>, k: nat)
    requires |s| == Pow2(k)
    ensures SumSq(H(s, k)) == Doubled(SumSq(s), k)
    decreases k
  {
    if k > 0 {
      var h := Pow2(k - 1);
      HHalves(s, k, h);
      var a, b := s[..h], s[h..];
      var x, y := H(a, k - 1), H(b, k - 1);
      HSumSqDoubled(a, k - 1);
      HSumSqDoubled(b, k - 1);
      SumSqBfly(x, y);
      SumSqAppend(a, b);
      DoubledSum(SumSq(a), SumSq(b), SumSq(s), k);
    }
  }

  /** Parseval: the unscaled transform multiplies the sum of squares by `n`. */
  lemma {:induction false} HSumSq(s: seq<real>, k: nat)
    requires |s| == Pow2(k)
    ensures SumSq(H(s, k)) == (|s| as real) * SumSq(s)
  {
    calc {
      SumSq(H(s, k));
      { HSumSqDoubled(s, k); }
      Doubled(SumSq(s), k);
      { DoubledIsProduct(SumSq(s), k, |s|); }
      (|s| as real) * SumSq(s);
    }
  }

  // ---------------------------------------------------------------------
  // The scaled transform computed by whtScVec

  /** `whtScVec(v, sc)` is `sc` times `whtScVec(v, 1)`. */
  lemma {:induction false} WhtScaleLinear(s: seq<real>, sc: real, sqrt: real -> real)
    requires IsPow2(|s|) && PositiveRoot(sqrt)
    ensures Wht(s, sc, sqrt) == Scale(Wht(s, 1.0, sqrt), sc)
  {
    var r := sqrt(|s| as real);
    var q := 1.0 / r;
    var p := sc / r;
    assert q * sc == p;
    ScaleScale(H(s, Log2(|s|)), q, sc);
  }

  /** The scaled transform is linear in the vector. */
  lemma {:induction false} WhtAdd(x: seq<real>, y: seq<real>, sc: real, sqrt: real -> real)
    requires |x| == |y| && IsPow2(|x|) && PositiveRoot(sqrt)
    ensures Wht(Add(x, y), sc, sqrt) == Add(Wht(x, sc, sqrt), Wht(y, sc, sqrt))
  {
    var k := Log2(|x|);
    HAdd(x, y, k);
    ScaleAdd(H(x, k), H(y, k), sc / sqrt(|x| as real));
  }

  /** The scaled transform is homogeneous: with `WhtAdd`, it is linear. */
  lemma {:induction false} WhtScale(x: seq<real>, c: real, sc: real, sqrt: real -> real)
    requires IsPow2(|x|) && PositiveRoot(sqrt)
    ensures Wht(Scale(x, c), sc, sqrt) == Scale(Wht(x, sc, sqrt), c)
  {
    var k := Log2(|x|);
    var p := sc / sqrt(|x| as real);
    HScale(x, c, k);
    ScaleScale(H(x, k), c, p);
    ScaleScale(H(x, k), p, c);
    assert c * p == p * c;
  }

  /** `q = 1 / sqrt(n)` with an exact root satisfies `n * q * q == 1`. */
  lemma {:induction false} InverseRootSquared(n: real, r: real, q: real)
    requires r * r == n && r != 0.0 && q == 1.0 / r
    ensures n * q * q == 1.0
  {
    assert q * r == 1.0;
    calc {
      n * q * q;
      (r * q) * (r * q);
      1.0;
    }
  }

  /** Transforming twice with a factor `q` after each pass multiplies by `n`
      and twice by `q`. */
  lemma {:induction false} HTwiceScaled(s: seq<real>, k: nat, q: real)
    requires |s| == Pow2(k)
    ensures Scale(H(Scale(H(s, k), q), k), q) == Scale(Scale(Scale(s, |s| as real), q), q)
  {
    var t := H(s, k);
    calc {
      Scale(H(Scale(t, q), k), q);
      { HScale(t, q, k); }
      Scale(Scale(H(t, k), q), q);
      { HTwice(s, k); }
      Scale(Scale(Scale(s, |s| as real), q), q);
    }
  }

  /** Scaling by `n`, `q` and `q` with `n * q * q == 1` changes nothing. */
  lemma {:induction false} ScaleThriceOne(s: seq<real>, n: real, q: real)
    requires n * q * q == 1.0
    ensures Scale(Scale(Scale(s, n), q), q) == s
  {
    forall k | 0 <= k < |s| ensures Scale(Scale(Scale(s, n), q), q)[k] == s[k] {
      assert s[k] * n * q * q == s[k] * (n * q * q);
    }
  }

  /** With an exact root, `whtScVec(·, 1.0)` is its own inverse. */
  lemma {:induction false} WhtTwice(s: seq<real>, sqrt: real -> real)
    requires IsPow2(|s|) && PositiveRoot(sqrt) && ExactRootAt(sqrt, |s| as real)
    ensures Wht(Wht(s, 1.0, sqrt), 1.0, sqrt) == s
  {
    var k := Log2(|s|);
    var n := |s| as real;
    var r := sqrt(n);
    var q := 1.0 / r;
    var w := Wht(s, 1.0, sqrt);
    assert w == Scale(H(s, k), q);
    calc {
      Wht(w, 1.0, sqrt);
      Scale(H(w, k), q);
      { HTwiceScaled(s, k, q); }
      Scale(Scale(Scale(s, n), q), q);
      { InverseRootSquared(n, r, q); ScaleThriceOne(s, n, q); }
      s;
    }
  }

  /** Transforming once with a factor `p` multiplies the sum of squares by `p * p * n`. */
  lemma {:induction false} HScaledSumSq(s: seq<real>, k: nat, p: real)
    requires |s| == Pow2(k)
    ensures SumSq(Scale(H(s, k), p)) == p * p * ((|s| as real) * SumSq(s))
  {
    calc {
      SumSq(Scale(H(s, k), p));
      { SumSqScale(H(s, k), p); }
      p * p * SumSq(H(s, k));
      { HSumSq(s, k); }
      p * p * ((|s| as real) * SumSq(s));
    }
  }

  /** The scalar identity behind `WhtSumSq`: `(sc / r)^2 * (n * e) == sc^2 * e`
      when `r * r == n`. */
  lemma {:induction false} ScaledEnergy(n: real, r: real, sc: real, p: real, e: real)
    requires r * r == n && r != 0.0 && p == sc / r
    ensures p * p * (n * e) == sc * sc * e
  {
    var q := 1.0 / r;
    InverseRootSquared(n, r, q);
    assert p == q * sc;
    calc {
      p * p * (n * e);
      (q * sc) * (q * sc) * (n * e);
      (n * q * q) * (sc * sc * e);
      sc * sc * e;
    }
  }

  /** With an exact root, `whtScVec(·, sc)` multiplies the sum of squares by `sc^2`. */
  lemma {:induction false} WhtSumSq(s: seq<real>, sc: real, sqrt: real -> real)
    requires IsPow2(|s|) && PositiveRoot(sqrt) && ExactRootAt(sqrt, |s| as real)
    ensures SumSq(Wht(s, sc, sqrt)) == sc * sc * SumSq(s)
  {
    var k := Log2(|s|);
    var r := sqrt(|s| as real);
    var p := sc / r;
    calc {
      SumSq(Wht(s, sc, sqrt));
      SumSq(Scale(H(s, k), p));
      { HScaledSumSq(s, k, p); }
      p * p * ((|s| as real) * SumSq(s));
      { ScaledEnergy(|s| as real, r, sc, p, SumSq(s)); }
      sc * sc * SumSq(s);
    }
  }

  // ---------------------------------------------------------------------
  // The in-place butterfly network

  /** One stride pass of `whtScVec` with half-width `hs`: every block of
      width `2 * hs` is replaced by the butterfly of its two halves. */
  function Pass(s: seq<real>, hs: nat): (r: seq<real>)
    requires hs > 0 && Multiple(|s|, 2 * hs)
    ensures |r| == |s|
    decreases |s|
  {
    if |s| == 0 then [] else Bfly(s[..hs], s[hs..2 * hs]) + Pass(s[2 * hs..], hs)
  }

  /** The reference transform of order `e` applied to every block of width `2^e`. */
  function Blocks(s: seq<real>, e: nat): (r: seq<real>)
    requires Multiple(|s|, Pow2(e))
    ensures |r| == |s|
    decreases |s|
  {
    if |s| == 0 then [] else H(s[..Pow2(e)], e) + Blocks(s[Pow2(e)..], e)
  }

  /** A pass over a single block is one butterfly. */
  lemma {:induction false} PassBlock(s: seq<real>, hs: nat)
    requires hs > 0 && |s| == 2 * hs
    ensures Multiple(|s|, 2 * hs)
    ensures Pass(s, hs) == Bfly(s[..hs], s[hs..])
  {
    assert Multiple(0, 2 * hs);
    assert s[hs..2 * hs] == s[hs..];
    assert Bfly(s[..hs], s[hs..]) + [] == Bfly(s[..hs], s[hs..]);
  }

  /** A pass over a non-empty vector: one butterfly, then the rest. */
  lemma {:induction false} PassCons(z: seq<real>, hs: nat)
    requires hs > 0 && Multiple(|z|, 2 * hs) && |z| > 0
    ensures 2 * hs <= |z| && Multiple(|z| - 2 * hs, 2 * hs)
    ensures Pass(z, hs) == Bfly(z[..hs], z[hs..2 * hs]) + Pass(z[2 * hs..], hs)
  {
  }

  /** Slicing a concatenation within its first part. */
  lemma {:induction false} SliceAppend(x: seq<real>, y: seq<real>, i: nat, j: nat)
    requires i <= j <= |x|
    ensures (x + y)[i..j] == x[i..j] && (x + y)[j..] == x[j..] + y
  {
  }

  lemma {:induction false} AppendAssoc(a: seq<real>, b: seq<real>, c: seq<real>)
    ensures a + (b + c) == (a + b) + c
  {
  }

  /** A pass works block by block, so it distributes over concatenation. */
  lemma {:induction false} PassAppend(x: seq<real>, y: seq<real>, hs: nat)
    requires hs > 0 && Multiple(|x|, 2 * hs) && Multiple(|y|, 2 * hs)
    ensures Multiple(|x + y|, 2 * hs)
    ensures Pass(x + y, hs) == Pass(x, hs) + Pass(y, hs)
    decreases |x|
  {
    MultipleAdd(|x|, |y|, 2 * hs);
    if |x| == 0 {
      assert x + y == y;
    } else {
      var w := 2 * hs;
      var z := x + y;
      PassCons(x, hs);
      PassCons(z, hs);
      var x' := x[w..];
      SliceAppend(x, y, 0, hs);
      SliceAppend(x, y, hs, w);
      PassAppend(x', y, hs);
      var b := Bfly(x[..hs], x[hs..w]);
      AppendAssoc(b, Pass(x', hs), Pass(y, hs));
    }
  }

  /** Unfolding `Blocks` twice: two blocks of order `e` and the rest. */
  lemma {:induction false} BlocksTwo(s: seq<real>, e: nat)
    requires Multiple(|s|, Pow2(e + 1)) && |s| > 0
    ensures Multiple(|s|, Pow2(e)) && Multiple(|s| - Pow2(e + 1), Pow2(e + 1))
    ensures var hs := Pow2(e);
            Multiple(|s[2 * hs..]|, Pow2(e)) &&
            Blocks(s, e) == H(s[..hs], e) + H(s[hs..2 * hs], e) + Blocks(s[2 * hs..], e)
  {
    var hs := Pow2(e);
    MultipleOfDouble(|s|, hs);
    MultipleOfDouble(|s| - 2 * hs, hs);
    var t := s[hs..];
    assert t[..hs] == s[hs..2 * hs];
    assert t[hs..] == s[2 * hs..];
  }

  /** Transforming every block of order `e` and then running the pass of
      half-width `2^e` transforms every block of order `e + 1`. */
  lemma {:induction false} PassBlocks(s: seq<real>, e: nat, e': nat)
    requires e' == e + 1 && Multiple(|s|, Pow2(e'))
    ensures Multiple(|s|, Pow2(e))
    ensures Pass(Blocks(s, e), Pow2(e)) == Blocks(s, e')
    decreases |s|
  {
    var hs := Pow2(e);
    MultipleOfDouble(|s|, hs);
    if |s| > 0 {
      var w := 2 * hs;
      var x, y, z := H(s[..hs], e), H(s[hs..w], e), s[w..];
      BlocksTwo(s, e);
      PassBlocks(z, e, e');
      var c := x + y + Blocks(z, e);
      assert c[..hs] == x;
      assert c[hs..w] == y;
      assert c[w..] == Blocks(z, e);
      var u := s[..w];
      assert u[..hs] == s[..hs];
      assert u[hs..] == s[hs..w];
    }
  }

  /** Blocks of width one are left as they are. */
  lemma {:induction false} BlocksZero(s: seq<real>)
    ensures Multiple(|s|, Pow2(0))
    ensures Blocks(s, 0) == s
    decreases |s|
  {
    MultipleOfOne(|s|);
    if |s| > 0 {
      BlocksZero(s[1..]);
      assert s[..1] + s[1..] == s;
    }
  }

  /** A single block of the whole length is the reference transform. */
  lemma {:induction false} BlocksWhole(s: seq<real>, k: nat)
    requires |s| == Pow2(k)
    ensures Multiple(|s|, Pow2(k))
    ensures Blocks(s, k) == H(s, k)
  {
    assert Multiple(0, |s|);
    assert s[..|s|] == s;
    assert H(s, k) + [] == H(s, k);
  }

  /** The block of width `2 * hs` at `base` after the innermost loop has
      handled the positions `base .. i - 1` of its first half. */
  function Partial(c: seq<real>, base: nat, hs: nat, i: nat): (r: seq<real>)
    requires base <= i <= base + hs && base + 2 * hs <= |c|
    ensures |r| == |c|
  {
    seq(|c|, t requires 0 <= t < |c| =>
      if base <= t < i then c[t] + c[t + hs]
      else if base + hs <= t < i + hs then c[t - hs] - c[t]
      else c[t])
  }

  /** Before the innermost loop nothing has changed. */
  lemma {:induction false} PartialStart(c: seq<real>, base: nat, hs: nat)
    requires base + 2 * hs <= |c|
    ensures Partial(c, base, hs, base) == c
  {
  }

  /** After the innermost loop the block holds `Bfly` of its two halves. */
  lemma {:induction false} PartialDone(c: seq<real>, base: nat, hs: nat)
    requires base + 2 * hs <= |c|
    ensures var p := Partial(c, base, hs, base + hs);
            p[..base] == c[..base] &&
            p[base..base + 2 * hs] == Bfly(c[base..base + hs], c[base + hs..base + 2 * hs]) &&
            p[base + 2 * hs..] == c[base + 2 * hs..]
  {
    var p := Partial(c, base, hs, base + hs);
    var lo, hi := c[base..base + hs], c[base + hs..base + 2 * hs];
    forall t | 0 <= t < 2 * hs ensures p[base..base + 2 * hs][t] == Bfly(lo, hi)[t] {
      BflyAt(lo, hi, t);
    }
  }

  /** A pass over a prefix of whole blocks, extended by one block. */
  lemma {:induction false} PassPrefix(c: seq<real>, base: nat, hs: nat)
    requires hs > 0 && Multiple(base, 2 * hs) && base + 2 * hs <= |c|
    ensures Multiple(base + 2 * hs, 2 * hs)
    ensures Pass(c[..base + 2 * hs], hs) == Pass(c[..base], hs) + Bfly(c[base..base + hs], c[base + hs..base + 2 * hs])
  {
    var pre, blk := c[..base], c[base..base + 2 * hs];
    var lo, hi := c[base..base + hs], c[base + hs..base + 2 * hs];
    assert Multiple(2 * hs, 2 * hs) by { assert Multiple(0, 2 * hs); }
    MultipleAdd(base, 2 * hs, 2 * hs);
    calc {
      Pass(c[..base + 2 * hs], hs);
      { assert c[..base + 2 * hs] == pre + blk; }
      Pass(pre + blk, hs);
      { PassAppend(pre, blk, hs); }
      Pass(pre, hs) + Pass(blk, hs);
      { PassBlock(blk, hs); assert blk[..hs] == lo && blk[hs..] == hi; }
      Pass(pre, hs) + Bfly(lo, hi);
    }
  }

  /** Appending one finished block to a finished prefix of a pass. */
  lemma {:induction false} PassExtend(v: seq<real>, c: seq<real>, base: nat, hs: nat)
    requires hs > 0 && |v| == |c| && Multiple(base, 2 * hs) && base + 2 * hs <= |c|
    requires v[..base] == Pass(c[..base], hs)
    requires v[base..base + 2 * hs] == Bfly(c[base..base + hs], c[base + hs..base + 2 * hs])
    ensures Multiple(base + 2 * hs, 2 * hs)
    ensures v[..base + 2 * hs] == Pass(c[..base + 2 * hs], hs)
  {
    PassPrefix(c, base, hs);
    assert v[..base] + v[base..base + 2 * hs] == v[..base + 2 * hs];
  }

  /** The two halves and the rest of the block at `i`, as slices of `s[i..]`. */
  lemma {:induction false} BlockSlices(s: seq<real>, i: nat, hs: nat)
    requires i + 2 * hs <= |s|
    ensures s[i..i + hs] == s[i..][..hs]
    ensures s[i + hs..i + 2 * hs] == s[i..][hs..2 * hs]
    ensures s[i + 2 * hs..] == s[i..][2 * hs..]
  {
  }

  /** One block of a stride pass: with the pass finished below `i` and
      nothing changed from `i` on, the butterflies of the block at `i` finish
      the pass below `i + 2 * hs`. */
  lemma {:induction false} StrideStep(before: seq<real>, after: seq<real>, cur: seq<real>, i: nat, hs: nat, next: nat)
    requires hs > 0 && |before| == |cur| && Multiple(i, 2 * hs) && next == i + 2 * hs <= |cur|
    requires before[..i] == Pass(cur[..i], hs) && before[i..] == cur[i..]
    requires after == Partial(before, i, hs, i + hs)
    ensures Multiple(next, 2 * hs)
    ensures after[..next] == Pass(cur[..next], hs)
    ensures after[next..] == cur[next..]
  {
    PartialDone(before, i, hs);
    BlockSlices(before, i, hs);
    BlockSlices(cur, i, hs);
    PassExtend(after, cur, i, hs);
  }

  /** The innermost loop of whtScVec: the butterflies of the block of
      width `2 * hs` starting at `base`. */
  method ButterflyBlock(vec: array<real>, base: nat, hs: nat)
    requires base + 2 * hs <= vec.Length
    modifies vec
    ensures vec[..] == Partial(old(vec[..]), base, hs, base + hs)
  {
    ghost var cur := vec[..];
    var i := base;
    var j := i + hs;
    PartialStart(cur, base, hs);
    while i < j
      invariant base <= i <= j
      invariant forall t :: 0 <= t < vec.Length ==> vec[t] == Partial(cur, base, hs, i)[t]
      decreases j - i
    {
      var a := vec[i];
      var b := vec[i + hs];
      vec[i] := a + b;
      vec[i + hs] := a - b;
      i := i + 1;
    }
    assert vec[..] == Partial(cur, base, hs, i);
  }

  /** The middle loop of whtScVec: one stride pass of half-width `hs`. */
  method StridePass(vec: array<real>, hs: nat)
    requires hs > 0 && Multiple(vec.Length, 2 * hs)
    modifies vec
    ensures vec[..] == Pass(old(vec[..]), hs)
  {
    ghost var cur := vec[..];
    var n := vec.Length;
    var i := 0;
    assert Multiple(0, 2 * hs);
    while i < n
      invariant 0 <= i <= n && Multiple(i, 2 * hs)
      invariant vec[..i] == Pass(cur[..i], hs)
      invariant vec[i..] == cur[i..]
      decreases n - i
    {
      MultipleBelow(n, i, 2 * hs);
      ghost var before := vec[..];
      ButterflyBlock(vec, i, hs);
      var next := i + 2 * hs;
      StrideStep(before, vec[..], cur, i, hs, next);
      i := next;
    }
    assert vec[..] == vec[..n];
    assert cur == cur[..n];
  }

  /** The vector after the first `e` stride passes of whtScVec, with
      half-widths `1, 2, ..., 2^(e-1)`. */
  function Passes(s: seq<real>, e: nat): (r: seq<real>)
    requires Multiple(|s|, Pow2(e))
    ensures |r| == |s|
    decreases e
  {
    if e == 0 then s
    else
      MultipleOfDouble(|s|, Pow2(e - 1));
      Pass(Passes(s, e - 1), Pow2(e - 1))
  }

  /** The first `e` stride passes transform every block of width `2^e`. */
  lemma {:induction false} PassesBlocks(s: seq<real>, e: nat)
    requires Multiple(|s|, Pow2(e))
    ensures Passes(s, e) == Blocks(s, e)
    decreases e
  {
    if e == 0 {
      BlocksZero(s);
    } else {
      var d := e - 1;
      assert Pow2(e) == 2 * Pow2(d);
      MultipleOfDouble(|s|, Pow2(d));
      PassesBlocks(s, d);
      PassBlocks(s, d, e);
    }
  }

  /** The stride passes of whtScVec compute the reference transform. */
  lemma {:induction false} PassesWhole(s: seq<real>, k: nat)
    requires |s| == Pow2(k)
    ensures Multiple(|s|, Pow2(k))
    ensures Passes(s, k) == H(s, k)
  {
    BlocksWhole(s, k);
    PassesBlocks(s, k);
  }

  /** While the stride `2^e` is below `n = 2^k`, the next pass is defined. */
  lemma {:induction false} OuterStep(n: nat, e: nat, k: nat)
    requires n == Pow2(k) && Pow2(e) < n
    ensures e + 1 <= k
    ensures Multiple(n, 2 * Pow2(e)) && Multiple(n, Pow2(e + 1))
  {
    Pow2Below(e, k);
    Pow2Multiple(k, e + 1);
  }

  /** When the outer loop of whtScVec stops, all `k` passes are done, and
      scaling their result gives the scaled transform. */
  lemma {:induction false} OuterDone(s: seq<real>, e: nat, k: nat, sc: real, sqrt: real -> real)
    requires |s| == Pow2(k) && e <= k && Pow2(e) >= |s| && PositiveRoot(sqrt)
    ensures IsPow2(|s|) && Multiple(|s|, Pow2(e))
    ensures Wht(s, sc, sqrt) == Scale(Passes(s, e), sc / sqrt(|s| as real))
  {
    Log2Pow2(k);
    if e < k {
      Pow2Increasing(e, k);
    }
    PassesWhole(s, k);
  }

  /** whtScVec: stride passes with half-widths 1, 2, 4, ..., `n / 2`, then
      every element scaled by `sc / sqrt(n)`. */
  method WhtScVec(vec: array<real>, sc: real, sqrt: real -> real)
    requires IsPow2(vec.Length) && PositiveRoot(sqrt)
    modifies vec
    ensures vec[..] == Wht(old(vec[..]), sc, sqrt)
  {
    ghost var orig := vec[..];
    ghost var k := Log2(vec.Length);
    var n := vec.Length;
    var hs := 1;
    ghost var e: nat := 0;
    MultipleOfOne(n);
    while hs < n
      invariant hs == Pow2(e) && e <= k
      invariant Multiple(n, Pow2(e))
      invariant vec[..] == Passes(orig, e)
      decreases n - hs
    {
      OuterStep(n, e, k);
      StridePass(vec, hs);
      hs := hs + hs;
      e := e + 1;
    }
    OuterDone(orig, e, k, sc, sqrt);
    assert vec[..] == vec[..n];
    ScaleVec(vec, vec, sc / sqrt(n as real));
  }
}
