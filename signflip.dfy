/** The pseudorandom sign flip `signFlipVec` (sketch.js, lines 58-68): a
    32-bit hash recurrence, written with JavaScript's number semantics spelt
    out, decides for each element whether it is negated. */
module HashFlip {
  import opened Powers
  import opened Vectors

  const Increment: int := 0x3C6EF35F
  const Multiplier: int := 0x19660D
  const Golden: int := 0x9E3779B9
  const Two31: int := 0x8000_0000
  const Two32: int := 0x1_0000_0000
  const Two53: int := 0x20_0000_0000_0000

  predicate IsInt32(x: int)
  {
    -Two31 <= x < Two31
  }

  /** ECMAScript ToInt32 of an integral number: the signed 32-bit value
      congruent to `x` modulo 2^32. `x & 0xffffffff` is exactly this, because
      0xffffffff itself converts to -1, all bits set. */
  function ToInt32(x: int): (r: int)
    ensures IsInt32(r) && (x - r) % Two32 == 0
  {
    var m := x % Two32;
    if m >= Two31 then m - Two32 else m
  }

  /** ToInt32 is the only int32 value congruent to its argument. */
  lemma {:induction false} ToInt32Unique(x: int, y: int)
    requires IsInt32(y) && (x - y) % Two32 == 0
    ensures ToInt32(x) == y
  {
    var r := ToInt32(x);
    var d := r - y;
    assert d % Two32 == 0 by {
      assert d == (x - y) - (x - r);
    }
    assert -Two32 < d < Two32;
  }

  /** One step of the hash: `hash += 0x3C6EF35F; hash *= 0x19660D;
      hash &= 0xffffffff`. */
  function NextState(h: int): int
  {
    ToInt32((h + Increment) * Multiplier)
  }

  /** For an int32 state the product of the second step stays below 2^53, so
      the double arithmetic of the source computes it exactly and NextState
      is the value the source holds. */
  lemma {:induction false} NextStateExact(h: int)
    requires IsInt32(h)
    ensures -Two53 < (h + Increment) * Multiplier < Two53
  {
    var a := h + Increment;
    assert -Two32 < a < Two32;
    if a >= 0 {
      assert a * Multiplier <= Two32 * Multiplier;
    } else {
      assert (-a) * Multiplier <= Two32 * Multiplier;
    }
  }

  /** The first step is exact beyond the 32-bit range as well: for every
      integral starting hash from -6425177261 to 4397368815 the product stays
      below 2^53, and for the next hash up it is an odd number above 2^53,
      which a double cannot hold. */
  lemma {:induction false} FirstStepExact(h: int)
    requires -6425177261 <= h <= 4397368815
    ensures -Two53 < (h + Increment) * Multiplier < Two53
    ensures var p := (4397368816 + Increment) * Multiplier;
            p >= Two53 && p % 2 == 1 && RoundToDouble(p) != p
  {
    ExcessAt((4397368816 + Increment) * Multiplier, 1);
    var a := h + Increment;
    if a >= 0 {
      assert a * Multiplier <= (4397368815 + Increment) * Multiplier;
    } else {
      assert (-a) * Multiplier <= (6425177261 - Increment) * Multiplier;
    }
  }

  /** The hash state after `i` steps; element `i` is decided by state `i + 1`. */
  function State(hash: int, i: nat): (r: int)
    ensures i > 0 || IsInt32(hash) ==> IsInt32(r)
  {
    if i == 0 then hash else NextState(State(hash, i - 1))
  }

  function Abs(x: int): nat
  {
    if x < 0 then -x else x
  }

  /** How many low bits a double drops from the magnitude `a`: zero below
      2^53, one more for every halving needed to get below it. */
  function Excess(a: nat): nat
    decreases a
  {
    if a < Two53 then 0 else 1 + Excess(a / 2)
  }

  /** `a` in `[2^(e-1) * 2^53, 2^e * 2^53)` drops exactly `e` bits. */
  lemma {:induction false} ExcessAt(a: nat, e: nat)
    requires a < Pow2(e) * Two53
    requires e == 0 || Pow2(e - 1) * Two53 <= a
    ensures Excess(a) == e
    decreases e
  {
    if e > 0 {
      ExcessAt(a / 2, e - 1);
    }
  }

  /** The magnitude `a` rounded to a multiple of `2^Excess(a)`, to nearest
      with ties to even: the rounding of an IEEE-754 double. */
  function RoundMagnitude(a: nat): int
  {
    var u := Pow2(Excess(a));
    var q := a / u;
    var rem := a % u;
    if 2 * rem > u || (2 * rem == u && q % 2 == 1) then (q + 1) * u else q * u
  }

  lemma {:induction false} MulSucc(q: int, u: int)
    ensures (q + 1) * u == q * u + u
  {
  }

  /** Rounding `p + rem` down to `p` or up to `p + u` moves it by at most
      half of `u`, given the rounding direction chosen above. */
  lemma {:induction false} HalfStep(a: int, p: int, u: int, rem: int, up: bool)
    requires a == p + rem && 0 <= rem < u
    requires up <==> 2 * rem > u || (2 * rem == u && up)
    ensures 2 * Abs((if up then p + u else p) - a) <= u
  {
  }

  /** A nonzero multiple of `u > 0` is at least `u` away from zero. */
  lemma {:induction false} MulBounds(k: int, u: int)
    requires u > 0
    ensures k >= 1 ==> k * u >= u
    ensures k <= -1 ==> k * u <= -u
  {
    if k >= 1 {
      assert k * u == u + (k - 1) * u;
    } else if k <= -1 {
      assert k * u == -u + (k + 1) * u;
    }
  }

  /** `q * u` is a multiple of `u`, with quotient `q`. */
  lemma {:induction false} MulDiv(q: int, u: int)
    requires u > 0
    ensures (q * u) % u == 0 && (q * u) / u == q
  {
    var d, r := (q * u) / u, (q * u) % u;
    assert (q - d) * u == r;
    MulBounds(q - d, u);
  }

  /** Below 2^53 a magnitude is kept as it is; above, it becomes a multiple
      of the spacing `2^Excess(a)` between neighbouring doubles, at most half
      a spacing away, and on a tie the even multiple. */
  lemma {:induction false} RoundMagnitudeNearest(a: nat)
    ensures a < Two53 ==> RoundMagnitude(a) == a
    ensures RoundMagnitude(a) % Pow2(Excess(a)) == 0
    ensures 2 * Abs(RoundMagnitude(a) - a) <= Pow2(Excess(a))
    ensures 2 * Abs(RoundMagnitude(a) - a) == Pow2(Excess(a)) ==>
              (RoundMagnitude(a) / Pow2(Excess(a))) % 2 == 0
  {
    var u := Pow2(Excess(a));
    var q := a / u;
    var rem := a % u;
    var up := 2 * rem > u || (2 * rem == u && q % 2 == 1);
    MulSucc(q, u);
    HalfStep(a, q * u, u, rem, up);
    if up {
      MulDiv(q + 1, u);
    } else {
      MulDiv(q, u);
    }
  }

  /** The double nearest to the integer `x`: what a JavaScript product of
      two integers evaluates to. */
  function RoundToDouble(x: int): int
  {
    if x < 0 then -RoundMagnitude(-x) else RoundMagnitude(x)
  }

  /** `(v & 0x80000000) === 0` for an integral double `v`: bit 31 of `v`
      taken modulo 2^32 is clear. */
  predicate Bit31Clear(v: int)
  {
    v % Two32 < Two31
  }

  /** Whether the source negates the element decided by state `h`. The
      product with the golden-ratio constant can exceed 2^53, so it is
      rounded as a double first. */
  predicate Negates(h: int)
  {
    Bit31Clear(RoundToDouble(h * Golden))
  }

  /** The negation pattern of a vector of length `n`: element `i` is decided
      by state `i + 1`. */
  function Pattern(hash: int, n: nat): (p: seq<bool>)
    ensures |p| == n
  {
    seq(n, i requires 0 <= i < n => Negates(State(hash, i + 1)))
  }

  /** Negate the elements the pattern marks. */
  function Flip(s: seq<real>, p: seq<bool>): (r: seq<real>)
    requires |p| == |s|
    ensures |r| == |s|
    ensures forall i :: 0 <= i < |s| ==> r[i] == s[i] || r[i] == -s[i]
  {
    seq(|s|, i requires 0 <= i < |s| => if p[i] then -s[i] else s[i])
  }

  /** The result of `signFlipVec(v, hash)`. */
  function SignFlip(s: seq<real>, hash: int): (r: seq<real>)
    ensures |r| == |s|
  {
    Flip(s, Pattern(hash, |s|))
  }

  /** The pattern depends on the hash and the position only, not on the
      vector's length: the pattern of a prefix is the prefix of the pattern. */
  lemma {:induction false} PatternPrefix(hash: int, m: nat, n: nat)
    requires m <= n
    ensures Pattern(hash, m) == Pattern(hash, n)[..m]
  {
    var p := Pattern(hash, n);
    forall i | 0 <= i < m ensures Pattern(hash, m)[i] == p[..m][i] {
      assert p[..m][i] == p[i];
    }
  }

  lemma {:induction false} FlipTwice(s: seq<real>, p: seq<bool>)
    requires |p| == |s|
    ensures Flip(Flip(s, p), p) == s
  {
    var f := Flip(s, p);
    forall i | 0 <= i < |s| ensures Flip(f, p)[i] == s[i] {
      if p[i] {
        assert f[i] == -s[i];
      }
    }
  }

  lemma {:induction false} FlipAdd(x: seq<real>, y: seq<real>, p: seq<bool>)
    requires |x| == |y| == |p|
    ensures Flip(Add(x, y), p) == Add(Flip(x, p), Flip(y, p))
  {
    var l := Flip(Add(x, y), p);
    var r := Add(Flip(x, p), Flip(y, p));
    forall i | 0 <= i < |x| ensures l[i] == r[i] {
      if p[i] {
        assert l[i] == -(x[i] + y[i]);
      }
    }
  }

  lemma {:induction false} NegMul(x: real, c: real)
    ensures (-x) * c == -(x * c)
  {
  }

  lemma {:induction false} FlipScale(x: seq<real>, c: real, p: seq<bool>)
    requires |x| == |p|
    ensures Flip(Scale(x, c), p) == Scale(Flip(x, p), c)
  {
    var l := Flip(Scale(x, c), p);
    var r := Scale(Flip(x, p), c);
    forall i | 0 <= i < |x| ensures l[i] == r[i] {
      if p[i] {
        NegMul(x[i], c);
      }
    }
  }

  lemma {:induction false} SquareNeg(x: real)
    ensures (-x) * (-x) == x * x
  {
  }

  lemma {:induction false} FlipSumSqTo(s: seq<real>, p: seq<bool>, n: nat)
    requires |p| == |s| && n <= |s|
    ensures SumSqTo(Flip(s, p), n) == SumSqTo(s, n)
  {
    if n > 0 {
      FlipSumSqTo(s, p, n - 1);
      if p[n - 1] {
        SquareNeg(s[n - 1]);
      }
    }
  }

  /** Flipping twice with the same hash restores the vector. */
  lemma {:induction false} SignFlipTwice(s: seq<real>, hash: int)
    ensures SignFlip(SignFlip(s, hash), hash) == s
  {
    FlipTwice(s, Pattern(hash, |s|));
  }

  /** Flipping a prefix gives the prefix of the flip. */
  lemma {:induction false} SignFlipPrefix(s: seq<real>, hash: int, m: nat)
    requires m <= |s|
    ensures SignFlip(s[..m], hash) == SignFlip(s, hash)[..m]
  {
    var p := Pattern(hash, |s|);
    PatternPrefix(hash, m, |s|);
    forall i | 0 <= i < m ensures SignFlip(s[..m], hash)[i] == SignFlip(s, hash)[..m][i] {
      assert s[..m][i] == s[i];
      assert p[..m][i] == p[i];
    }
  }

  /** The flip is linear: it commutes with addition. */
  lemma {:induction false} SignFlipAdd(x: seq<real>, y: seq<real>, hash: int)
    requires |x| == |y|
    ensures SignFlip(Add(x, y), hash) == Add(SignFlip(x, hash), SignFlip(y, hash))
  {
    FlipAdd(x, y, Pattern(hash, |x|));
  }

  /** The flip is linear: it commutes with scaling. */
  lemma {:induction false} SignFlipScale(x: seq<real>, c: real, hash: int)
    ensures SignFlip(Scale(x, c), hash) == Scale(SignFlip(x, hash), c)
  {
    FlipScale(x, c, Pattern(hash, |x|));
  }

  /** The flip keeps the sum of squares. */
  lemma {:induction false} SignFlipSumSq(s: seq<real>, hash: int)
    ensures SumSq(SignFlip(s, hash)) == SumSq(s)
  {
    FlipSumSqTo(s, Pattern(hash, |s|), |s|);
  }

  /** The second hash state from the seeds 0 and 1. */
  lemma {:induction false} SecondStates()
    ensures State(0, 2) == -1789000822 && State(1, 2) == -1399431117
  {
    ToInt32Unique((0 + Increment) * Multiplier, 182531539);
    ToInt32Unique((182531539 + Increment) * Multiplier, -1789000822);
    ToInt32Unique((1 + Increment) * Multiplier, 184196064);
    ToInt32Unique((184196064 + Increment) * Multiplier, -1399431117);
  }

  /** From state -1789000822 the rounded product has bit 31 clear. */
  lemma {:induction false} NegatesAtSeedZero()
    ensures Negates(-1789000822)
  {
    ExcessAt(1789000822 * Golden, 10);
  }

  /** From state -1399431117 the rounded product has bit 31 set. */
  lemma {:induction false} KeepsAtSeedOne()
    ensures !Negates(-1399431117)
  {
    ExcessAt(1399431117 * Golden, 9);
  }

  /** The seed matters: the seeds 0 and 1 decide element 1 differently. */
  lemma {:induction false} SeedSensitive()
    ensures Pattern(0, 2)[1] && !Pattern(1, 2)[1]
  {
    SecondStates();
    NegatesAtSeedZero();
    KeepsAtSeedOne();
  }

  /** So flipping with the seeds 0 and 1 gives different vectors whenever
      element 1 is not zero. */
  lemma {:induction false} SignFlipSeedSensitive(s: seq<real>)
    requires |s| >= 2 && s[1] != 0.0
    ensures SignFlip(s, 0)[1] == -s[1] && SignFlip(s, 1)[1] == s[1]
    ensures SignFlip(s, 0) != SignFlip(s, 1)
  {
    SeedSensitive();
    PatternPrefix(0, 2, |s|);
    PatternPrefix(1, 2, |s|);
    assert Pattern(0, |s|)[1] == Pattern(0, 2)[1];
    assert Pattern(1, |s|)[1] == Pattern(1, 2)[1];
  }

  /** signFlipVec: step the hash once per element and negate the element
      when bit 31 of the rounded product is clear. */
  method SignFlipVec(vec: array<real>, hash: int)
    modifies vec
    ensures vec[..] == SignFlip(old(vec[..]), hash)
  {
    ghost var orig := vec[..];
    var h := hash;
    var n := vec.Length;
    for i := 0 to n
      invariant h == State(hash, i)
      invariant forall t :: 0 <= t < n ==> vec[t] == (if t < i then SignFlip(orig, hash)[t] else orig[t])
    {
      h := h + Increment;
      h := h * Multiplier;
      h := ToInt32(h);
      if Bit31Clear(RoundToDouble(h * Golden)) {
        vec[i] := -vec[i];
      }
    }
  }
}
