/** The fixed filter bank network `FFBNet` (sketch.js, lines 5-34). A signal
    path (the RMS-normalised, sign-flipped input) passes `depth` layers; each
    layer transforms it and multiplies every element by one of two
    parameters. The choice is made by the sign of a switching path, which
    starts as the input and is projected once more at every layer (each layer
    with its own hash), so layer `i` sees `i + 1` projections in sequence. */
module Network {
  import opened Powers
  import opened Vectors
  import opened Hadamard
  import opened HashFlip
  import opened Projection

  // ---------------------------------------------------------------------
  // Parameter layout

  /** The offset a switching value selects within its parameter pair. */
  function SignBit(x: real): nat
  {
    if x < 0.0 then 0 else 1
  }

  /** The parameter read for layer `i`, coordinate `j` and sign bit `b`. */
  function ParamIndex(vecLen: nat, i: nat, j: nat, b: nat): nat
  {
    2 * (i * vecLen + j) + b
  }

  /** Every read of `recall` lies inside the `2 * vecLen * depth` parameters. */
  lemma {:induction false} ParamIndexInRange(vecLen: nat, depth: nat, i: nat, j: nat, b: nat)
    requires i < depth && j < vecLen && b < 2
    ensures ParamIndex(vecLen, i, j, b) < 2 * vecLen * depth
  {
    assert i * vecLen + j < (i + 1) * vecLen;
    assert (i + 1) * vecLen <= depth * vecLen;
  }

  lemma {:induction false} LayerOrder(vecLen: nat, i: nat, i2: nat, j: nat, j2: nat)
    requires i < i2 && j < vecLen
    ensures i * vecLen + j < i2 * vecLen + j2
  {
    assert i * vecLen + j < (i + 1) * vecLen;
    assert (i + 1) * vecLen <= i2 * vecLen;
  }

  /** No two (layer, coordinate, sign bit) triples share a parameter. */
  lemma {:induction false} ParamIndexInjective(vecLen: nat, i: nat, j: nat, b: nat, i2: nat, j2: nat, b2: nat)
    requires j < vecLen && j2 < vecLen && b < 2 && b2 < 2
    requires ParamIndex(vecLen, i, j, b) == ParamIndex(vecLen, i2, j2, b2)
    ensures i == i2 && j == j2 && b == b2
  {
    assert b == b2;
    if i < i2 {
      LayerOrder(vecLen, i, i2, j, j2);
    } else if i2 < i {
      LayerOrder(vecLen, i2, i, j2, j);
    }
  }

  /** `paIdx` advances by one pair per coordinate, so a layer starts where
      the previous one ended. */
  lemma {:induction false} ParamIndexNextLayer(vecLen: nat, i: nat)
    ensures ParamIndex(vecLen, i + 1, 0, 0) == ParamIndex(vecLen, i, 0, 0) + 2 * vecLen
  {
    assert (i + 1) * vecLen == i * vecLen + vecLen;
  }

  /** The same, read from layer `i` back to the one before it. */
  lemma {:induction false} ParamIndexPrevLayer(vecLen: nat, i: nat)
    requires i > 0
    ensures ParamIndex(vecLen, i - 1, 0, 0) + 2 * vecLen == ParamIndex(vecLen, i, 0, 0)
  {
    ParamIndexNextLayer(vecLen, i - 1);
  }

  // ---------------------------------------------------------------------
  // Specification of a layer and of the whole pass

  /** One layer's switching: element `j` of `r` times the parameter of the
      pair at `base + 2 * j` that the sign of `w[j]` selects. */
  function Gate(r: seq<real>, w: seq<real>, ps: seq<real>, base: nat): (g: seq<real>)
    requires |w| == |r| && base + 2 * |r| <= |ps|
    ensures |g| == |r|
  {
    seq(|r|, j requires 0 <= j < |r| => r[j] * ps[base + 2 * j + SignBit(w[j])])
  }

  /** With every parameter from `base` on equal to `c`, switching is plain
      scaling. */
  lemma {:induction false} GateUniform(r: seq<real>, w: seq<real>, ps: seq<real>, base: nat, c: real)
    requires |w| == |r| && base + 2 * |r| <= |ps|
    requires forall k :: base <= k < |ps| ==> ps[k] == c
    ensures Gate(r, w, ps, base) == Scale(r, c)
  {
    forall j | 0 <= j < |r| ensures Gate(r, w, ps, base)[j] == Scale(r, c)[j] {
      assert ps[base + 2 * j + SignBit(w[j])] == c;
    }
  }

  /** For a fixed switching path the gate is additive in the signal. */
  lemma {:induction false} GateAdd(a: seq<real>, b: seq<real>, w: seq<real>, ps: seq<real>, base: nat)
    requires |a| == |b| == |w| && base + 2 * |a| <= |ps|
    ensures Gate(Add(a, b), w, ps, base) == Add(Gate(a, w, ps, base), Gate(b, w, ps, base))
  {
    forall j | 0 <= j < |a|
      ensures Gate(Add(a, b), w, ps, base)[j] == Add(Gate(a, w, ps, base), Gate(b, w, ps, base))[j]
    {
      var p := ps[base + 2 * j + SignBit(w[j])];
      assert (a[j] + b[j]) * p == a[j] * p + b[j] * p;
    }
  }

  /** ... and homogeneous, so it is linear. */
  lemma {:induction false} GateScale(a: seq<real>, c: real, w: seq<real>, ps: seq<real>, base: nat)
    requires |a| == |w| && base + 2 * |a| <= |ps|
    ensures Gate(Scale(a, c), w, ps, base) == Scale(Gate(a, w, ps, base), c)
  {
    forall j | 0 <= j < |a|
      ensures Gate(Scale(a, c), w, ps, base)[j] == Scale(Gate(a, w, ps, base), c)[j]
    {
      var p := ps[base + 2 * j + SignBit(w[j])];
      assert a[j] * c * p == a[j] * p * c;
    }
  }

  /** The switching path after `layers` projections of `x`; layer `i`
      (counting from zero) projects with hash `hash + i + 1`. */
  ghost function Work(x: seq<real>, hash: int, layers: nat, sqrt: real -> real): (w: seq<real>)
    requires IsPow2(|x|) && PositiveRoot(sqrt)
    ensures |w| == |x|
    decreases layers
  {
    if layers == 0 then x else Rp(Work(x, hash, layers - 1, sqrt), hash + layers, sqrt)
  }

  /** The first layer of the parameters starts at 0 and layer `depth`, one
      past the last, at the end of the `2 * vecLen * depth` parameters. */
  lemma {:induction false} ParamIndexEnd(vecLen: nat, depth: nat)
    ensures ParamIndex(vecLen, 0, 0, 0) == 0
    ensures ParamIndex(vecLen, depth, 0, 0) == 2 * vecLen * depth
  {
  }

  /** Layers start in the order of their numbers. */
  lemma {:induction false} ParamIndexMonotone(vecLen: nat, i: nat, i2: nat)
    requires i <= i2
    ensures ParamIndex(vecLen, i, 0, 0) <= ParamIndex(vecLen, i2, 0, 0)
  {
    assert i * vecLen <= i2 * vecLen;
  }

  /** The signal after `i` layers, from signal `r0` and switching input
      `w0`: layer `i` (counting from one) transforms the signal with scale 2
      and gates it by the switching path `Work(w0, hash, i)` and the
      parameter pairs from `ParamIndex(|r0|, i - 1, 0, 0)` on. */
  ghost function Layers(r0: seq<real>, w0: seq<real>, ps: seq<real>, hash: int, i: nat, sqrt: real -> real): (r: seq<real>)
    requires |w0| == |r0| && IsPow2(|r0|) && PositiveRoot(sqrt)
    requires ParamIndex(|r0|, i, 0, 0) <= |ps|
    ensures |r| == |r0|
    decreases i
  {
    if i == 0 then r0
    else
      ParamIndexNextLayer(|r0|, i - 1);
      Gate(Wht(Layers(r0, w0, ps, hash, i - 1, sqrt), 2.0, sqrt), Work(w0, hash, i, sqrt), ps, ParamIndex(|r0|, i - 1, 0, 0))
  }

  /** The result of `recall(result, input)` for a net of `depth` layers over
      `vecLen` coordinates with parameters `ps` and hash `hash`. */
  ghost function Recalled(x: seq<real>, ps: seq<real>, hash: int, vecLen: nat, depth: nat, sqrt: real -> real): (r: seq<real>)
    requires IsPow2(vecLen) && vecLen <= |x| && PositiveRoot(sqrt) && |ps| == 2 * vecLen * depth
    ensures |r| == vecLen
  {
    ParamIndexEnd(vecLen, depth);
    var r0 := SignFlip(Adjusted(x, 1.0, sqrt)[..vecLen], hash);
    Wht(Layers(r0, x[..vecLen], ps, hash, depth, sqrt), 1.0, sqrt)
  }

  /** One layer step of `LayersAdd`: transform, then gate. */
  lemma {:induction false} GateAddAfterWht(la: seq<real>, lb: seq<real>, w: seq<real>, ps: seq<real>, base: nat, sqrt: real -> real)
    requires |la| == |lb| == |w| && IsPow2(|la|) && PositiveRoot(sqrt) && base + 2 * |la| <= |ps|
    ensures Gate(Wht(Add(la, lb), 2.0, sqrt), w, ps, base)
         == Add(Gate(Wht(la, 2.0, sqrt), w, ps, base), Gate(Wht(lb, 2.0, sqrt), w, ps, base))
  {
    WhtAdd(la, lb, 2.0, sqrt);
    GateAdd(Wht(la, 2.0, sqrt), Wht(lb, 2.0, sqrt), w, ps, base);
  }

  /** Switching is detached from the signal: for a fixed switching input the
      layers are additive in the signal. */
  lemma {:induction false} LayersAdd(a: seq<real>, b: seq<real>, w0: seq<real>, ps: seq<real>, hash: int, i: nat, sqrt: real -> real)
    requires |a| == |b| == |w0| && IsPow2(|a|) && PositiveRoot(sqrt)
    requires ParamIndex(|a|, i, 0, 0) <= |ps|
    ensures Layers(Add(a, b), w0, ps, hash, i, sqrt) == Add(Layers(a, w0, ps, hash, i, sqrt), Layers(b, w0, ps, hash, i, sqrt))
  {
    if i > 0 {
      ParamIndexPrevLayer(|a|, i);
      LayersAdd(a, b, w0, ps, hash, i - 1, sqrt);
      GateAddAfterWht(Layers(a, w0, ps, hash, i - 1, sqrt), Layers(b, w0, ps, hash, i - 1, sqrt),
                      Work(w0, hash, i, sqrt), ps, ParamIndex(|a|, i - 1, 0, 0), sqrt);
    }
  }

  /** One layer step of `LayersScale`: transform, then gate. */
  lemma {:induction false} GateScaleAfterWht(la: seq<real>, c: real, w: seq<real>, ps: seq<real>, base: nat, sqrt: real -> real)
    requires |la| == |w| && IsPow2(|la|) && PositiveRoot(sqrt) && base + 2 * |la| <= |ps|
    ensures Gate(Wht(Scale(la, c), 2.0, sqrt), w, ps, base) == Scale(Gate(Wht(la, 2.0, sqrt), w, ps, base), c)
  {
    WhtScale(la, c, 2.0, sqrt);
    GateScale(Wht(la, 2.0, sqrt), c, w, ps, base);
  }

  /** ... and homogeneous, so all layers together are linear in the signal. */
  lemma {:induction false} LayersScale(a: seq<real>, c: real, w0: seq<real>, ps: seq<real>, hash: int, i: nat, sqrt: real -> real)
    requires |a| == |w0| && IsPow2(|a|) && PositiveRoot(sqrt)
    requires ParamIndex(|a|, i, 0, 0) <= |ps|
    ensures Layers(Scale(a, c), w0, ps, hash, i, sqrt) == Scale(Layers(a, w0, ps, hash, i, sqrt), c)
  {
    if i > 0 {
      ParamIndexPrevLayer(|a|, i);
      LayersScale(a, c, w0, ps, hash, i - 1, sqrt);
      GateScaleAfterWht(Layers(a, w0, ps, hash, i - 1, sqrt), c, Work(w0, hash, i, sqrt), ps, ParamIndex(|a|, i - 1, 0, 0), sqrt);
    }
  }

  /** The unit-scaled transform applied `m` times. */
  ghost function WhtIter(r: seq<real>, m: nat, sqrt: real -> real): (out: seq<real>)
    requires IsPow2(|r|) && PositiveRoot(sqrt)
    ensures |out| == |r|
    decreases m
  {
    if m == 0 then r else Wht(WhtIter(r, m - 1, sqrt), 1.0, sqrt)
  }

  /** With the exact root an even number of unit transforms is the identity. */
  lemma {:induction false} WhtIterEven(r: seq<real>, k: nat, sqrt: real -> real)
    requires IsPow2(|r|) && PositiveRoot(sqrt) && ExactRootAt(sqrt, |r| as real)
    ensures WhtIter(r, 2 * k, sqrt) == r
  {
    if k > 0 {
      var e := WhtIter(r, 2 * k - 2, sqrt);
      calc {
        WhtIter(r, 2 * k, sqrt);
        Wht(WhtIter(r, 2 * k - 1, sqrt), 1.0, sqrt);
        Wht(Wht(e, 1.0, sqrt), 1.0, sqrt);
        { WhtTwice(e, sqrt); }
        e;
        { WhtIterEven(r, k - 1, sqrt); }
        r;
      }
    }
  }

  /** The factor 2 of each layer's transform makes up for parameters of
      one half: such a layer is the unit-scaled transform. */
  lemma {:induction false} HalfLayer(r: seq<real>, w: seq<real>, ps: seq<real>, base: nat, sqrt: real -> real)
    requires |w| == |r| && IsPow2(|r|) && PositiveRoot(sqrt) && base + 2 * |r| <= |ps|
    requires forall k :: base <= k < |ps| ==> ps[k] == 0.5
    ensures Gate(Wht(r, 2.0, sqrt), w, ps, base) == Wht(r, 1.0, sqrt)
  {
    var u := Wht(r, 1.0, sqrt);
    calc {
      Gate(Wht(r, 2.0, sqrt), w, ps, base);
      { GateUniform(Wht(r, 2.0, sqrt), w, ps, base, 0.5); }
      Scale(Wht(r, 2.0, sqrt), 0.5);
      { WhtScaleLinear(r, 2.0, sqrt); }
      Scale(Scale(u, 2.0), 0.5);
      { ScaleScale(u, 2.0, 0.5); }
      Scale(u, 2.0 * 0.5);
      { ScaleOne(u, 2.0 * 0.5); }
      u;
    }
  }

  /** With every parameter one half, the layers are plain unit transforms,
      one per layer. */
  lemma {:induction false} LayersHalf(r0: seq<real>, w0: seq<real>, ps: seq<real>, hash: int, i: nat, sqrt: real -> real)
    requires |w0| == |r0| && IsPow2(|r0|) && PositiveRoot(sqrt)
    requires ParamIndex(|r0|, i, 0, 0) <= |ps|
    requires forall k :: 0 <= k < |ps| ==> ps[k] == 0.5
    ensures Layers(r0, w0, ps, hash, i, sqrt) == WhtIter(r0, i, sqrt)
  {
    if i > 0 {
      var n := |r0|;
      ParamIndexNextLayer(n, i - 1);
      var prev := Layers(r0, w0, ps, hash, i - 1, sqrt);
      calc {
        Layers(r0, w0, ps, hash, i, sqrt);
        Gate(Wht(prev, 2.0, sqrt), Work(w0, hash, i, sqrt), ps, ParamIndex(n, i - 1, 0, 0));
        { HalfLayer(prev, Work(w0, hash, i, sqrt), ps, ParamIndex(n, i - 1, 0, 0), sqrt); }
        Wht(prev, 1.0, sqrt);
        { LayersHalf(r0, w0, ps, hash, i - 1, sqrt); }
        Wht(WhtIter(r0, i - 1, sqrt), 1.0, sqrt);
      }
    }
  }

  /** An odd number of half-parameter layers followed by one more unit
      transform gives back the signal: the transforms cancel in pairs. */
  lemma {:induction false} OddLayersHalf(r0: seq<real>, w0: seq<real>, ps: seq<real>, hash: int, depth: nat, sqrt: real -> real)
    requires |w0| == |r0| && IsPow2(|r0|) && PositiveRoot(sqrt) && ExactRootAt(sqrt, |r0| as real)
    requires ParamIndex(|r0|, depth, 0, 0) <= |ps|
    requires forall k :: 0 <= k < |ps| ==> ps[k] == 0.5
    requires depth % 2 == 1
    ensures Wht(Layers(r0, w0, ps, hash, depth, sqrt), 1.0, sqrt) == r0
  {
    calc {
      Wht(Layers(r0, w0, ps, hash, depth, sqrt), 1.0, sqrt);
      { LayersHalf(r0, w0, ps, hash, depth, sqrt); }
      WhtIter(r0, depth + 1, sqrt);
      { assert depth + 1 == 2 * ((depth + 1) / 2); }
      WhtIter(r0, 2 * ((depth + 1) / 2), sqrt);
      { WhtIterEven(r0, (depth + 1) / 2, sqrt); }
      r0;
    }
  }

  /** A net whose parameters are all one half (as the constructor leaves
      them) and whose depth is odd, like the sketch's depth of 5, recalls
      the RMS-normalised input with its signs flipped. */
  lemma {:induction false} InitialRecall(x: seq<real>, ps: seq<real>, hash: int, vecLen: nat, depth: nat, sqrt: real -> real)
    requires IsPow2(vecLen) && vecLen <= |x| && PositiveRoot(sqrt) && |ps| == 2 * vecLen * depth
    requires ExactRootAt(sqrt, vecLen as real)
    requires forall k :: 0 <= k < |ps| ==> ps[k] == 0.5
    requires depth % 2 == 1
    ensures Recalled(x, ps, hash, vecLen, depth, sqrt) == SignFlip(Adjusted(x, 1.0, sqrt)[..vecLen], hash)
  {
    ParamIndexEnd(vecLen, depth);
    OddLayersHalf(SignFlip(Adjusted(x, 1.0, sqrt)[..vecLen], hash), x[..vecLen], ps, hash, depth, sqrt);
  }

  // ---------------------------------------------------------------------
  // The imperative net

  /** The inner loop of `recall`: multiply each element by the parameter
      its switching value selects, stepping the parameter index by a pair. */
  method GateVec(result: array<real>, work: array<real>, params: array<real>, base: nat) returns (next: nat)
    requires work.Length == result.Length && base + 2 * result.Length <= params.Length
    requires result != work && result != params
    modifies result
    ensures next == base + 2 * result.Length
    ensures result[..] == Gate(old(result[..]), work[..], params[..], base)
  {
    ghost var orig := result[..];
    next := base;
    for j := 0 to result.Length
      invariant next == base + 2 * j
      invariant forall t :: 0 <= t < result.Length ==>
        result[t] == (if t < j then Gate(orig, work[..], params[..], base)[t] else orig[t])
    {
      var signBit := if work[j] < 0.0 then 0 else 1;
      result[j] := result[j] * params[next + signBit];
      next := next + 2;
    }
  }

  /** One pass of the outer loop of `recall`: project the switching path with
      `hash`, transform the signal with scale 2 and gate it with the pair of
      parameters per coordinate from `base` on. */
  method Layer(result: array<real>, work: array<real>, params: array<real>, base: nat, hash: int, sqrt: real -> real)
    returns (next: nat)
    requires work.Length == result.Length && IsPow2(result.Length) && PositiveRoot(sqrt)
    requires base + 2 * result.Length <= params.Length
    requires result != work && result != params && work != params
    modifies result, work
    ensures next == base + 2 * result.Length
    ensures work[..] == Rp(old(work[..]), hash, sqrt)
    ensures result[..] == Gate(Wht(old(result[..]), 2.0, sqrt), work[..], params[..], base)
  {
    RpVec(work, hash, sqrt);
    WhtScVec(result, 2.0, sqrt);
    next := GateVec(result, work, params, base);
  }

  /** The state after layer `i + 1` in terms of the state after `i`
      layers: project the switching path `w`, then transform the signal `r`
      with scale 2 and gate it with the parameters of layer `i`. */
  lemma {:induction false} LayersNext(r0: seq<real>, w0: seq<real>, ps: seq<real>, hash: int, i: nat, sqrt: real -> real,
                                      r: seq<real>, w: seq<real>, r': seq<real>, w': seq<real>)
    requires |w0| == |r0| && IsPow2(|r0|) && PositiveRoot(sqrt)
    requires ParamIndex(|r0|, i + 1, 0, 0) <= |ps|
    requires r == Layers(r0, w0, ps, hash, i, sqrt) && w == Work(w0, hash, i, sqrt)
    requires w' == Rp(w, hash + (i + 1), sqrt)
    requires ParamIndex(|r0|, i, 0, 0) + 2 * |r0| <= |ps| && |w'| == |r|
    requires r' == Gate(Wht(r, 2.0, sqrt), w', ps, ParamIndex(|r0|, i, 0, 0))
    ensures w' == Work(w0, hash, i + 1, sqrt)
    ensures r' == Layers(r0, w0, ps, hash, i + 1, sqrt)
  {
    ParamIndexNextLayer(|r0|, i);
  }

  /** Layer `i + 1` in terms of the state after `i` layers. */
  method NextLayer(result: array<real>, work: array<real>, params: array<real>, base: nat, layerHash: int, sqrt: real -> real,
                   ghost r0: seq<real>, ghost w0: seq<real>, ghost hash: int, ghost i: nat)
    returns (next: nat)
    requires work.Length == result.Length == |r0| == |w0| && IsPow2(result.Length) && PositiveRoot(sqrt)
    requires base == ParamIndex(|r0|, i, 0, 0) && ParamIndex(|r0|, i + 1, 0, 0) <= params.Length
    requires result != work && result != params && work != params
    requires layerHash == hash + (i + 1)
    requires work[..] == Work(w0, hash, i, sqrt)
    requires result[..] == Layers(r0, w0, params[..], hash, i, sqrt)
    modifies result, work
    ensures next == ParamIndex(|r0|, i + 1, 0, 0)
    ensures work[..] == Work(w0, hash, i + 1, sqrt)
    ensures result[..] == Layers(r0, w0, params[..], hash, i + 1, sqrt)
  {
    ParamIndexNextLayer(|r0|, i);
    ghost var r := result[..];
    ghost var w := work[..];
    next := Layer(result, work, params, base, layerHash, sqrt);
    LayersNext(r0, w0, params[..], hash, i, sqrt, r, w, result[..], work[..]);
  }

  /** The outer loop of `recall`: `depth` layers, layer `i` projecting the
      switching path with `hash + i + 1` and reading the parameter pairs from
      `paIdx = 2 * i * vecLen` on. */
  method RunLayers(result: array<real>, work: array<real>, params: array<real>,
                   vecLen: nat, depth: nat, hash: int, sqrt: real -> real)
    requires result.Length == vecLen && work.Length == vecLen && IsPow2(vecLen) && PositiveRoot(sqrt)
    requires params.Length == 2 * vecLen * depth
    requires result != work && result != params && work != params
    modifies result, work
    ensures ParamIndex(vecLen, depth, 0, 0) == params.Length
    ensures result[..] == Layers(old(result[..]), old(work[..]), params[..], hash, depth, sqrt)
    ensures work[..] == Work(old(work[..]), hash, depth, sqrt)
  {
    ghost var r0 := result[..];
    ghost var w0 := work[..];
    ParamIndexEnd(vecLen, depth);
    var paIdx := 0;
    for i := 0 to depth
      invariant paIdx == ParamIndex(vecLen, i, 0, 0) && paIdx <= params.Length
      invariant work[..] == Work(w0, hash, i, sqrt)
      invariant result[..] == Layers(r0, w0, params[..], hash, i, sqrt)
    {
      ParamIndexMonotone(vecLen, i + 1, depth);
      paIdx := NextLayer(result, work, params, paIdx, hash + (i + 1), sqrt, r0, w0, hash, i);
    }
  }

  class FFBNet {
    const vecLen: nat
    const depth: nat
    const hash: int
    const params: array<real>
    const work: array<real>

    /** The shape the constructor establishes and nothing changes. */
    ghost predicate Valid()
    {
      IsPow2(vecLen) && params.Length == 2 * vecLen * depth && work.Length == vecLen && params != work
    }

    /** A net with `depth` layers over vectors of `vecLen` elements, every
        parameter one half and a zeroed switching buffer. */
    constructor(vecLen: nat, depth: nat, hash: int)
      requires IsPow2(vecLen)
      ensures Valid()
      ensures this.vecLen == vecLen && this.depth == depth && this.hash == hash
      ensures fresh(params) && fresh(work)
      ensures forall k :: 0 <= k < params.Length ==> params[k] == 0.5
      ensures forall k :: 0 <= k < work.Length ==> work[k] == 0.0
    {
      this.vecLen := vecLen;
      this.depth := depth;
      this.hash := hash;
      params := new real[2 * vecLen * depth](_ => 0.0);
      work := new real[vecLen](_ => 0.0);
      new;
      for i := 0 to params.Length
        invariant forall k :: 0 <= k < i ==> params[k] == 0.5
        invariant forall k :: 0 <= k < work.Length ==> work[k] == 0.0
      {
        params[i] := 0.5;
      }
    }

    /** recall: copy the input to the switching path, normalise and flip it
        into the signal path, run the layers and transform once more. The
        parameters are not written, and the switching path depends only on
        the input and the hash. */
    method Recall(result: array<real>, input: array<real>, sqrt: real -> real)
      requires Valid() && PositiveRoot(sqrt)
      requires result.Length == vecLen && vecLen <= input.Length
      requires result != work && result != params && input != work
      modifies result, work
      ensures result[..] == Recalled(old(input[..]), params[..], hash, vecLen, depth, sqrt)
      ensures work[..] == Work(old(input[..vecLen]), hash, depth, sqrt)
    {
      ghost var x := input[..];
      CopyVec(work, input);
      AdjustVec(result, input, 1.0, sqrt);
      SignFlipVec(result, hash);
      RunLayers(result, work, params, vecLen, depth, hash, sqrt);
      WhtScVec(result, 1.0, sqrt);
    }
  }
}
