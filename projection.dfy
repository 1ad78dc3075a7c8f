/** The fast random projection `rpVec` (sketch.js, lines 70-74): a
    hash-driven sign flip followed by the unit-scaled Walsh-Hadamard
    transform. */
module Projection {
  import opened Powers
  import opened Vectors
  import opened Hadamard
  import opened HashFlip

  /** The result of `rpVec(v, hash)`. */
  ghost function Rp(s: seq<real>, hash: int, sqrt: real -> real): (r: seq<real>)
    requires IsPow2(|s|) && PositiveRoot(sqrt)
    ensures |r| == |s|
  {
    Wht(SignFlip(s, hash), 1.0, sqrt)
  }

  /** The unit-scaled transform keeps the sum of squares. */
  lemma {:induction false} WhtUnitSumSq(t: seq<real>, sqrt: real -> real)
    requires IsPow2(|t|) && PositiveRoot(sqrt) && ExactRootAt(sqrt, |t| as real)
    ensures SumSq(Wht(t, 1.0, sqrt)) == SumSq(t)
  {
    WhtSumSq(t, 1.0, sqrt);
  }

  /** With the exact root the projection keeps the sum of squares. */
  lemma {:induction false} RpSumSq(s: seq<real>, hash: int, sqrt: real -> real)
    requires IsPow2(|s|) && PositiveRoot(sqrt) && ExactRootAt(sqrt, |s| as real)
    ensures SumSq(Rp(s, hash, sqrt)) == SumSq(s)
  {
    WhtUnitSumSq(SignFlip(s, hash), sqrt);
    SignFlipSumSq(s, hash);
  }

  /** With the exact root the projection is undone by the transform followed
      by the same sign flip. */
  lemma {:induction false} RpInverse(s: seq<real>, hash: int, sqrt: real -> real)
    requires IsPow2(|s|) && PositiveRoot(sqrt) && ExactRootAt(sqrt, |s| as real)
    ensures SignFlip(Wht(Rp(s, hash, sqrt), 1.0, sqrt), hash) == s
  {
    WhtTwice(SignFlip(s, hash), sqrt);
    SignFlipTwice(s, hash);
  }

  /** The projection is additive. */
  lemma {:induction false} RpAdd(x: seq<real>, y: seq<real>, hash: int, sqrt: real -> real)
    requires |x| == |y| && IsPow2(|x|) && PositiveRoot(sqrt)
    ensures Rp(Add(x, y), hash, sqrt) == Add(Rp(x, hash, sqrt), Rp(y, hash, sqrt))
  {
    SignFlipAdd(x, y, hash);
    WhtAdd(SignFlip(x, hash), SignFlip(y, hash), 1.0, sqrt);
  }

  /** ... and homogeneous, so it is linear. */
  lemma {:induction false} RpScale(x: seq<real>, c: real, hash: int, sqrt: real -> real)
    requires IsPow2(|x|) && PositiveRoot(sqrt)
    ensures Rp(Scale(x, c), hash, sqrt) == Scale(Rp(x, hash, sqrt), c)
  {
    SignFlipScale(x, c, hash);
    WhtScale(SignFlip(x, hash), c, 1.0, sqrt);
  }

  /** rpVec: flip the signs, then transform with unit scale. */
  method RpVec(vec: array<real>, hash: int, sqrt: real -> real)
    requires IsPow2(vec.Length) && PositiveRoot(sqrt)
    modifies vec
    ensures vec[..] == Rp(old(vec[..]), hash, sqrt)
  {
    SignFlipVec(vec, hash);
    WhtScVec(vec, 1.0, sqrt);
  }
}
