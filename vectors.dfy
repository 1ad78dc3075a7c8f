/** The element-wise helpers of the filter-bank sketch: copy, scale, sum of
    squares, RMS adjustment and the squared-L2 cost. Vectors hold reals;
    `sqrt` is a parameter of the operations that take a square root. */
module Vectors {

  /** Guard added to the mean square before its root is taken. */
  const MinSq: real := 1e-20

  /** What the model knows about the square-root parameter: it is positive on
      positive arguments, so the divisions that use it are defined. */
  ghost predicate PositiveRoot(sqrt: real -> real)
  {
    forall y: real :: 0.0 < y ==> 0.0 < sqrt(y)
  }

  /** `sqrt` is exact at `y`. Only the lemmas about the numeric meaning of a
      transform need this; the operations themselves do not. */
  ghost predicate ExactRootAt(sqrt: real -> real, y: real)
  {
    sqrt(y) * sqrt(y) == y
  }

  function Scale(s: seq<real>, c: real): (r: seq<real>)
    ensures |r| == |s|
    ensures forall k :: 0 <= k < |s| ==> r[k] == s[k] * c
  {
    seq(|s|, k requires 0 <= k < |s| => s[k] * c)
  }

  function Add(a: seq<real>, b: seq<real>): (r: seq<real>)
    requires |a| == |b|
    ensures |r| == |a|
    ensures forall k :: 0 <= k < |a| ==> r[k] == a[k] + b[k]
  {
    seq(|a|, k requires 0 <= k < |a| => a[k] + b[k])
  }

  function Sub(a: seq<real>, b: seq<real>): (r: seq<real>)
    requires |a| == |b|
    ensures |r| == |a|
    ensures forall k :: 0 <= k < |a| ==> r[k] == a[k] - b[k]
  {
    seq(|a|, k requires 0 <= k < |a| => a[k] - b[k])
  }

  /** Sum of the squares of the first `n` elements, accumulated left to
      right as `sumSqVec` does. */
  function SumSqTo(s: seq<real>, n: nat): real
    requires n <= |s|
  {
    if n == 0 then 0.0 else SumSqTo(s, n - 1) + s[n - 1] * s[n - 1]
  }

  /** Sum of squares of a whole vector. */
  function SumSq(s: seq<real>): real
  {
    SumSqTo(s, |s|)
  }

  lemma {:induction false} SquareNonNegative(x: real)
    ensures x * x >= 0.0
  {
  }

  lemma {:induction false} SquareOver(x: real)
    requires x != 0.0
    ensures (x * x) / x == x
  {
  }

  lemma {:induction false} SquareZero(x: real)
    requires x * x == 0.0
    ensures x == 0.0
  {
    if x != 0.0 {
      SquareOver(x);
    }
  }

  /** The difference against the first `|v|` elements of `t` (the loop bound
      of `costL2` is the length of `v`). */
  function Diff(v: seq<real>, t: seq<real>): (r: seq<real>)
    requires |v| <= |t|
    ensures |r| == |v|
    ensures forall k :: 0 <= k < |v| ==> r[k] == v[k] - t[k]
  {
    Sub(v, t[..|v|])
  }

  /** The result of `adjustVec(r, x, scale)`: `x` rescaled so that its mean
      square becomes `scale^2` (up to the MinSq guard). An empty `x` has no
      mean square (the factor is NaN in the source) and stays empty. */
  ghost function Adjusted(x: seq<real>, scale: real, sqrt: real -> real): (r: seq<real>)
    requires PositiveRoot(sqrt)
    ensures |r| == |x|
  {
    if |x| == 0 then x
    else
      SumSqNonNegative(x);
      Scale(x, scale / sqrt(SumSq(x) / (|x| as real) + MinSq))
  }

  /** Prefix sums depend only on the prefix. */
  lemma {:induction false} SumSqToSame(s: seq<real>, t: seq<real>, n: nat)
    requires n <= |s| && n <= |t|
    requires forall k :: 0 <= k < n ==> s[k] == t[k]
    ensures SumSqTo(s, n) == SumSqTo(t, n)
  {
    if n > 0 {
      SumSqToSame(s, t, n - 1);
    }
  }

  lemma {:induction false} SumSqToNonNegative(s: seq<real>, n: nat)
    requires n <= |s|
    ensures SumSqTo(s, n) >= 0.0
  {
    if n > 0 {
      SumSqToNonNegative(s, n - 1);
      SquareNonNegative(s[n - 1]);
    }
  }

  lemma {:induction false} SumSqNonNegative(s: seq<real>)
    ensures SumSq(s) >= 0.0
  {
    SumSqToNonNegative(s, |s|);
  }

  lemma {:induction false} SumSqToZeroIff(s: seq<real>, n: nat)
    requires n <= |s|
    ensures SumSqTo(s, n) == 0.0 <==> forall k :: 0 <= k < n ==> s[k] == 0.0
  {
    if n > 0 {
      SumSqToZeroIff(s, n - 1);
      SumSqToNonNegative(s, n - 1);
      var last := s[n - 1];
      SquareNonNegative(last);
      if SumSqTo(s, n) == 0.0 {
        SquareZero(last);
      }
    }
  }

  /** A sum of squares vanishes exactly when every element does. */
  lemma {:induction false} SumSqZeroIff(s: seq<real>)
    ensures SumSq(s) == 0.0 <==> forall k :: 0 <= k < |s| ==> s[k] == 0.0
  {
    SumSqToZeroIff(s, |s|);
  }

  lemma {:induction false} SumSqToScale(s: seq<real>, c: real, n: nat)
    requires n <= |s|
    ensures SumSqTo(Scale(s, c), n) == c * c * SumSqTo(s, n)
  {
    if n > 0 {
      SumSqToScale(s, c, n - 1);
      var last := s[n - 1];
      assert (last * c) * (last * c) == c * c * (last * last);
    }
  }

  lemma {:induction false} SumSqScale(s: seq<real>, c: real)
    ensures SumSq(Scale(s, c)) == c * c * SumSq(s)
  {
    SumSqToScale(s, c, |s|);
  }

  lemma {:induction false} SumSqToAppend(a: seq<real>, b: seq<real>, n: nat)
    requires n <= |b|
    ensures SumSqTo(a + b, |a| + n) == SumSq(a) + SumSqTo(b, n)
  {
    if n == 0 {
      SumSqToSame(a + b, a, |a|);
    } else {
      SumSqToAppend(a, b, n - 1);
      assert (a + b)[|a| + n - 1] == b[n - 1];
    }
  }

  lemma {:induction false} SumSqAppend(a: seq<real>, b: seq<real>)
    ensures SumSq(a + b) == SumSq(a) + SumSq(b)
  {
    SumSqToAppend(a, b, |b|);
  }

  /** The squared-L2 cost is zero exactly when the vector equals the target
      over its length. */
  lemma {:induction false} CostZeroIff(v: seq<real>, t: seq<real>)
    requires |v| <= |t|
    ensures SumSq(Diff(v, t)) == 0.0 <==> v == t[..|v|]
  {
    SumSqZeroIff(Diff(v, t));
    if SumSq(Diff(v, t)) == 0.0 {
      forall k | 0 <= k < |v| ensures v[k] == t[k] {
        assert Diff(v, t)[k] == 0.0;
      }
    }
  }

  /** The mean square of `adjustVec`'s result is `scale^2 * m / (m + MinSq)`,
      where `m` is the mean square of the input: the RMS is fixed near
      `scale` whatever the input's magnitude. */
  lemma {:induction false} AdjustedMeanSquare(x: seq<real>, scale: real, sqrt: real -> real)
    requires |x| > 0 && PositiveRoot(sqrt)
    requires ExactRootAt(sqrt, SumSq(x) / (|x| as real) + MinSq)
    ensures SumSq(Adjusted(x, scale, sqrt)) * (SumSq(x) / (|x| as real) + MinSq)
            == scale * scale * SumSq(x)
  {
    SumSqNonNegative(x);
    var m := SumSq(x) / (|x| as real) + MinSq;
    var root := sqrt(m);
    var a := scale / root;
    assert a * root == scale;
    assert a * a * m == scale * scale by {
      calc {
        a * a * m;
        a * a * (root * root);
        (a * root) * (a * root);
        scale * scale;
      }
    }
    SumSqScale(x, a);
  }

  /** copyVec: the first `c.Length` elements of `s` into `c`. */
  method CopyVec(c: array<real>, s: array<real>)
    requires c.Length <= s.Length
    modifies c
    ensures c[..] == old(s[..c.Length])
  {
    var n := c.Length;
    for i := 0 to n
      invariant forall k :: 0 <= k < i ==> c[k] == old(s[k])
      invariant forall k :: 0 <= k < s.Length && (c != s || i <= k) ==> s[k] == old(s[k])
    {
      c[i] := s[i];
    }
  }

  /** scaleVec: `r := x * sc` over the length of `r`; `r` and `x` may be the same array. */
  method ScaleVec(r: array<real>, x: array<real>, sc: real)
    requires r.Length <= x.Length
    modifies r
    ensures r[..] == Scale(old(x[..r.Length]), sc)
  {
    var n := r.Length;
    for i := 0 to n
      invariant forall k :: 0 <= k < i ==> r[k] == old(x[k]) * sc
      invariant forall k :: i <= k < x.Length ==> x[k] == old(x[k])
    {
      r[i] := x[i] * sc;
    }
    forall k | 0 <= k < n ensures r[..][k] == Scale(old(x[..r.Length]), sc)[k] { }
  }

  /** sumSqVec: the sum of the squares of the elements. */
  method SumSqVec(v: array<real>) returns (sum: real)
    ensures sum == SumSq(v[..])
    ensures sum >= 0.0
  {
    sum := 0.0;
    var n := v.Length;
    for i := 0 to n
      invariant sum == SumSqTo(v[..], i)
    {
      sum := sum + v[i] * v[i];
    }
    SumSqNonNegative(v[..]);
  }

  /** adjustVec: `r := x * scale / sqrt(meanSquare(x) + MinSq)`. */
  method AdjustVec(r: array<real>, x: array<real>, scale: real, sqrt: real -> real)
    requires r.Length <= x.Length && PositiveRoot(sqrt)
    modifies r
    ensures r[..] == Adjusted(old(x[..]), scale, sqrt)[..r.Length]
  {
    ghost var xs := x[..];
    var ss := SumSqVec(x);
    // For an empty `x` the factor is NaN in the source; `r` is empty then
    // and the factor is never used.
    var adj := if x.Length == 0 then 0.0 else scale / sqrt(ss / (x.Length as real) + MinSq);
    ScaleVec(r, x, adj);
    forall k | 0 <= k < r.Length ensures Scale(xs[..r.Length], adj)[k] == Scale(xs, adj)[..r.Length][k] { }
    assert Scale(xs[..r.Length], adj) == Scale(xs, adj)[..r.Length];
  }

  /** costL2: the sum of squared differences between `v` and `t` over `v`'s length. */
  method CostL2(v: array<real>, t: array<real>) returns (cost: real)
    requires v.Length <= t.Length
    ensures cost == SumSq(Diff(v[..], t[..]))
    ensures cost == 0.0 <==> v[..] == t[..v.Length]
  {
    cost := 0.0;
    var n := v.Length;
    for i := 0 to n
      invariant cost == SumSqTo(Diff(v[..], t[..]), i)
    {
      var e := v[i] - t[i];
      cost := cost + e * e;
    }
    CostZeroIff(v[..], t[..]);
  }
}
