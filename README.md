# Fixed filter bank network with switching by hashing — a Dafny model

`sketch.js` trains a small "fixed filter bank" neural network (`FFBNet`) by
hill climbing. The network works on vectors whose length is a power of two.

A recall does the following:

- copies the input into a switching path;
- normalises the input to unit RMS and sign-flips it by a hash, giving the
  signal path;
- runs `depth` layers. In each layer the switching path is projected once
  more, on top of the earlier layers' projections, with that layer's own
  hash: a hash sign flip, then a Walsh–Hadamard transform. The signal
  is transformed with scale 2. Every element is then multiplied by one of
  its two parameters; the sign of the matching switching value picks which
  one. Switching is detached from the signal: for a fixed input, the layers
  are linear (additive and homogeneous) in the signal;
- transforms the result once more.

The training loop of `draw` runs 100 rounds per frame:

- mutate 10 random parameters by small bounded steps;
- sum the squared-L2 autoassociative cost over eight examples;
- keep the mutation only when the cost beats the best so far, and otherwise
  undo it.

## The model

- Numbers are reals. `sqrt` is a parameter of every operation that takes a
  root. The operations only require it to be positive on positive
  arguments. The lemmas about numeric meaning (Parseval, self-inverse,
  round trips) also require it to be exact at the length used.
- The 32-bit hash of `signFlipVec` is modelled with JavaScript's number
  semantics written out. `+` and `*` are exact on the 32-bit states the loop
  holds (lemma `NextStateExact`). `& 0xffffffff` is `ToInt32`. The product
  with `0x9E3779B9` can exceed 2^53, so it is first rounded to the nearest
  double, ties to even, before bit 31 is tested.
- Every in-place routine is a method on `array<real>`:
  - `whtScVec` (its three nested loops);
  - `signFlipVec`, `rpVec`, `copyVec`, `scaleVec`, `sumSqVec`, `adjustVec`
    and `costL2`;
  - the recall loop;
  - `Mutator.mutate` and `Mutator.undo`.

  Each is proved against a functional specification:
  - `H`, the recursive butterfly reference transform, and `Wht`;
  - `SignFlip`, `Rp`, `Scale`, `SumSq`, `Adjusted` and `Diff`;
  - `Layers`, `Work` and `Recalled`;
  - `Mutated`, `Log` and `Undone`.

  The properties of the source are proved about those functions.
- `FFBNet`, `Mutator` and the globals of the sketch (`HillClimber`) are
  classes whose methods modify the arrays they own. The random positions and
  steps of `mutate`, and the examples that `setup` computes, are parameters.

Modules: `Powers` (powers of two, multiples), `Vectors`, `Hadamard`,
`HashFlip`, `Projection`, `Network`, `Mutation` and `Training`.

## Model

| member | source | states |
|---|---|---|
| Vectors.CopyVec | sketch.js:76-80 | the destination ends up holding the first `c.Length` elements of the source as they were before the call |
| Vectors.ScaleVec | sketch.js:82-86 | `r` becomes `x * sc` over `r`'s length, including when `r` and `x` are the same array |
| Vectors.SumSqVec | sketch.js:88-94 | the result is the sum of squares of the vector and is never negative |
| Vectors.SumSqNonNegative | sketch.js:88-94 | a sum of squares is never negative |
| Vectors.SumSqZeroIff | sketch.js:88-94 | a sum of squares is zero exactly when every element is zero |
| Vectors.SumSqScale | sketch.js:82-94 | scaling a vector by `c` multiplies its sum of squares by `c^2` |
| Vectors.SumSqAppend | sketch.js:88-94 | the sum of squares of a concatenation is the sum of the parts' sums |
| Vectors.AdjustVec | sketch.js:96-101 | `r` becomes the prefix of `x` rescaled by `scale / sqrt(meanSquare(x) + 1e-20)`; an empty `x` leaves `r` empty |
| Vectors.AdjustedMeanSquare | sketch.js:96-101 | with an exact root, the adjusted vector's sum of squares times `(m + 1e-20)` equals `scale^2` times the input's sum of squares, where `m` is the input's mean square: the RMS is brought to `scale` up to the guard |
| Vectors.CostL2 | sketch.js:103-111 | the cost is the sum of squared differences over `v`'s length, and it is zero exactly when `v` equals the prefix of the target |
| Vectors.CostZeroIff | sketch.js:103-111 | the squared-difference cost is zero if and only if the vector equals the target's prefix |
| Hadamard.ButterflyBlock | sketch.js:43-50 | the innermost loop replaces the block at `base` by the sums and differences of its two halves and leaves everything else alone |
| Hadamard.StridePass | sketch.js:41-52 | one pass of the middle loop applies the butterfly to every block of width `2 * hs` |
| Hadamard.PassesBlocks | sketch.js:40-54 | after `e` passes, every block of width `2^e` holds its reference transform of order `e` |
| Hadamard.PassesWhole | sketch.js:40-54 | all passes of the outer loop compute the recursive reference transform `H` of the whole vector |
| Hadamard.WhtScVec | sketch.js:36-56 | the array becomes the reference transform of its old contents times `sc / sqrt(n)`, for every power-of-two length |
| Hadamard.HAdd | sketch.js:36-56 | the unscaled transform of a sum is the sum of the transforms |
| Hadamard.HSub | sketch.js:36-56 | the unscaled transform of a difference is the difference of the transforms |
| Hadamard.HScale | sketch.js:36-56 | the unscaled transform commutes with scaling |
| Hadamard.HTwice | sketch.js:36-56 | applying the unscaled butterfly network twice multiplies the vector by `n` |
| Hadamard.HSumSq | sketch.js:36-56 | the unscaled transform multiplies the sum of squares by `n` (Parseval) |
| Hadamard.WhtScaleLinear | sketch.js:55 | `whtScVec(v, sc)` is `sc` times `whtScVec(v, 1)` |
| Hadamard.WhtAdd | sketch.js:36-56 | the scaled transform is additive |
| Hadamard.WhtScale | sketch.js:36-56 | the scaled transform is homogeneous: scaling the input scales the output by the same factor |
| Hadamard.WhtTwice | sketch.js:36-56 | with an exact root, `whtScVec(·, 1)` applied twice gives back the vector: it is its own inverse |
| Hadamard.WhtSumSq | sketch.js:36-56 | with an exact root, `whtScVec(·, sc)` multiplies the sum of squares by `sc^2`, so with `sc = 1` it keeps the vector's length |
| HashFlip.ToInt32 | sketch.js:63 | `hash & 0xffffffff` gives a signed 32-bit value congruent to the hash modulo 2^32 |
| HashFlip.ToInt32Unique | sketch.js:63 | that value is the only signed 32-bit value congruent to the hash |
| HashFlip.NextStateExact | sketch.js:61-62 | from a 32-bit state, the product `(hash + 0x3C6EF35F) * 0x19660D` stays below 2^53 in magnitude, so double arithmetic computes it exactly |
| HashFlip.RoundMagnitudeNearest | sketch.js:64 | rounding the product `hash * 0x9E3779B9` to a double keeps it when it is below 2^53; otherwise the result is a multiple of the spacing of doubles there (a value a double can hold), at most half a spacing away, and on a tie the even multiple |
| HashFlip.FirstStepExact | sketch.js:61-62 | the first product `(hash + 0x3C6EF35F) * 0x19660D` is exact for every integral starting hash from -6425177261 to 4397368815, and for the next one up the product is an odd number of at least 2^53, which rounding to a double changes |
| HashFlip.Flip | sketch.js:64-66 | each element is kept or negated, and nothing else |
| HashFlip.PatternPrefix | sketch.js:59-67 | whether element `i` is negated depends only on the hash and `i`, not on the vector's length |
| HashFlip.SignFlipVec | sketch.js:58-68 | the array becomes the sign flip of its old contents, as decided by the hash recurrence element by element |
| HashFlip.SignFlipTwice | sketch.js:58-68 | flipping twice with the same hash restores the vector |
| HashFlip.SignFlipPrefix | sketch.js:58-68 | the flip of a prefix is the prefix of the flip |
| HashFlip.SignFlipAdd | sketch.js:58-68 | the sign flip commutes with addition |
| HashFlip.SignFlipScale | sketch.js:58-68 | the sign flip commutes with scaling |
| HashFlip.ExcessAt | sketch.js:64 | a magnitude in `[2^(e-1) * 2^53, 2^e * 2^53)` loses exactly `e` low bits when stored as a double |
| HashFlip.SecondStates | sketch.js:61-63 | from the seeds 0 and 1 the second hash states are -1789000822 and -1399431117 |
| HashFlip.NegatesAtSeedZero | sketch.js:64-66 | from the state -1789000822 bit 31 of the rounded product is clear, so the element is negated |
| HashFlip.KeepsAtSeedOne | sketch.js:64-66 | from the state -1399431117 bit 31 of the rounded product is set, so the element is kept |
| HashFlip.SeedSensitive | sketch.js:58-68 | the pattern depends on the seed: the seeds 0 and 1 decide element 1 differently |
| HashFlip.SignFlipSeedSensitive | sketch.js:58-68 | hence the seeds 0 and 1 flip any vector whose element 1 is non-zero into different vectors |
| HashFlip.SignFlipSumSq | sketch.js:58-68 | the sign flip keeps the sum of squares |
| Projection.RpVec | sketch.js:70-74 | the array becomes the sign flip followed by the unit-scaled transform of its old contents |
| Projection.RpSumSq | sketch.js:70-74 | with an exact root, the random projection keeps the sum of squares |
| Projection.RpInverse | sketch.js:70-74 | with an exact root, transforming the projection once more and flipping with the same hash gives back the vector |
| Projection.RpAdd | sketch.js:70-74 | the random projection is additive |
| Projection.RpScale | sketch.js:70-74 | the random projection is homogeneous, so with `RpAdd` it is linear |
| Network.ParamIndexInRange | sketch.js:22-30 | every parameter read by `recall` (layer `i < depth`, coordinate `j < vecLen`, sign bit 0 or 1) lies inside the `2 * vecLen * depth` parameters |
| Network.ParamIndexInjective | sketch.js:22-30 | no two (layer, coordinate, sign bit) triples read the same parameter |
| Network.ParamIndexNextLayer | sketch.js:22-30 | `paIdx` starts each layer exactly where the previous layer ended |
| Network.ParamIndexPrevLayer | sketch.js:22-30 | the same, read from a layer back to the one before it |
| Network.GateVec | sketch.js:26-30 | the inner loop multiplies each element by the parameter that the sign of its switching value selects, and advances `paIdx` by two per element |
| Network.GateUniform | sketch.js:26-30 | when all the parameters from `base` on are equal, switching is plain scaling whatever the switching path |
| Network.GateAdd | sketch.js:26-30 | for a fixed switching path the gate is additive in the signal |
| Network.GateScale | sketch.js:26-30 | for a fixed switching path the gate is homogeneous in the signal |
| Network.GateAddAfterWht | sketch.js:25-30 | one layer (transform with scale 2, then gate) is additive in the signal |
| Network.GateScaleAfterWht | sketch.js:25-30 | one layer (transform with scale 2, then gate) is homogeneous in the signal |
| Network.Layer | sketch.js:24-30 | one outer iteration projects the switching path, transforms the signal with scale 2 and gates it by the new switching path |
| Network.LayersNext | sketch.js:23-30 | the state after layer `i + 1` is one more layer applied to the state after `i` layers, with hash `hash + i + 1` and the parameters of layer `i` |
| Network.NextLayer | sketch.js:23-30 | one outer iteration takes the specification of `i` layers to that of `i + 1` layers |
| Network.RunLayers | sketch.js:22-31 | the outer loop leaves `paIdx` at the end of the parameters and the signal and switching paths at their `depth`-layer specifications |
| Network.LayersAdd | sketch.js:1-3 | switching detached from the signal: for a fixed input, all layers together are additive in the signal |
| Network.LayersScale | sketch.js:1-3 | switching detached from the signal: for a fixed input, all layers together are homogeneous in the signal, so with `LayersAdd` linear |
| Network.HalfLayer | sketch.js:13-30 | with every parameter one half, the scale 2 of a layer's transform cancels and the layer is the unit transform |
| Network.WhtIterEven | sketch.js:25-32 | with an exact root, an even number of unit transforms is the identity |
| Network.LayersHalf | sketch.js:13-31 | with every parameter one half, `i` layers are `i` unit transforms, whatever the switching |
| Network.OddLayersHalf | sketch.js:23-32 | with every parameter one half and an odd depth, the layers and the final transform cancel in pairs |
| Network.InitialRecall | sketch.js:7-33 | a freshly constructed net of odd depth, like the sketch's depth 5, recalls the RMS-normalised, sign-flipped input |
| Network.FFBNet.constructor | sketch.js:7-16 | a net with the given shape, every one of its `2 * vecLen * depth` parameters one half and a zeroed switching buffer |
| Network.FFBNet.Recall | sketch.js:18-33 | `result` becomes the recall of the input under the current parameters: normalise, flip, `depth` layers, final transform. The switching buffer ends at the `depth`-fold projection of the input, and the parameters are unchanged |
| Mutation.Edit | sketch.js:125-130 | the new value is the old one plus the step exactly when that stays strictly inside (-1, 1), and otherwise the old value; a value inside (-1, 1) stays inside |
| Mutation.MutatedFrame | sketch.js:119-132 | `mutate` changes only the positions it logs |
| Mutation.MutatedInRange | sketch.js:119-132 | parameters that start inside (-1, 1) stay inside after any mutation |
| Mutation.UndoneMutated | sketch.js:119-137 | replaying the log from the last entry down to entry `k` takes the mutated vector back to its state before edit `k` |
| Mutation.UndoAfterMutate | sketch.js:119-137 | `undo` right after `mutate` restores the vector exactly, even when a position was drawn more than once |
| Mutation.Mutator.constructor | sketch.js:114-118 | a mutator with a log of `size` entries and the given precision |
| Mutation.Mutator.Mutate | sketch.js:119-132 | the vector becomes the result of the edits, one after another; `pIdx` logs the positions and `previous` logs the value each position held just before its edit |
| Mutation.Mutator.Undo | sketch.js:133-137 | the logged values are written back from the last entry to the first, and writes outside the array are ignored |
| Training.SumCostZeroIff | sketch.js:181-185 | the summed cost is never negative, and it is zero exactly when every recall equals its example |
| Training.RecallsUnique | sketch.js:182-185 | the recalls of the examples are determined by the examples and the parameters |
| Training.BatchCostZeroIff | sketch.js:181-185 | the batch cost of a net is never negative, and it is zero exactly when the net recalls every example perfectly |
| Training.HillClimber.constructor | sketch.js:141-172 | the globals: a net of 256 coordinates, 5 layers and hash 123456 with all parameters one half, a mutator of 10 edits with precision 25, the eight given examples and an infinite `parentCost` |
| Training.HillClimber.RecallCost | sketch.js:183-184 | `work` holds the recall of the example, and the result is its squared-L2 cost |
| Training.HillClimber.AddCost | sketch.js:182-185 | one more example's recall and cost are added to the running recalls and cost |
| Training.HillClimber.Cost | sketch.js:181-185 | the result is the batch cost of the net's recalls of all examples under the current parameters |
| Training.HillClimber.Step | sketch.js:179-191 | one round mutates the parameters and costs the mutated net. A cost strictly below `parentCost` is kept together with the mutation; otherwise the parameters are restored exactly and `parentCost` is unchanged. `parentCost` becomes finite, never rises, is at most this round's cost and stays the batch cost of the parameters held. Parameters inside (-1, 1) stay inside |
| Training.HillClimber.Draw | sketch.js:179-191 | after 100 rounds, `parentCost` is finite, no higher than before, and still the batch cost of the parameters the net holds; parameters inside (-1, 1) stay inside |

## Left out

- Floating point: the source stores vectors and parameters in
  `Float32Array`s and computes in doubles. The model computes in exact
  reals, so rounding, overflow and NaN are not modelled. The one exception
  is the hash decision, whose double rounding is modelled.
- The square root is a parameter `sqrt`. Only positivity is assumed for the
  operations; exactness is assumed only by the lemmas that state numeric
  identities.
- Randomness: the positions `int(random(vec.length))` and the steps
  `±2 * exp(random(-precision, 0))` that `mutate` draws are parameters. The
  model allows any in-range position and any real step, a superset of what
  the source draws. `precision` is stored but plays no other part.
- The p5 drawing code is not part of this model: `createCanvas`, `color`,
  `textSize`, `background`, `loadPixels`, and the plotting of examples and
  recalls in `draw` (lines 192 onward).
- `setup`'s training data (lines 154-172) is a parameter of the
  `HillClimber` constructor: eight examples of 256 values. The sines of the
  Lissajous curves are not computed. The source writes indices 0-253 of
  each example and leaves the last two at zero.
- HashFlip.SignFlipVec: the first hash step is computed exactly. The source
  computes it exactly too while `|hash + 0x3C6EF35F| * 0x19660D < 2^53`,
  that is for every integral starting hash from -6425177261 to 4397368815
  (lemma `FirstStepExact`), and rounds the product as a double beyond that.
  The sketch's hashes, 123456 to 123461, lie well inside. Non-integral
  hashes are not modelled.
- Reads past the end of a JavaScript array give `undefined`, which turns
  into NaN. The model requires the lengths that every call in the sketch
  provides:
  - Vectors.CopyVec, Vectors.ScaleVec, Vectors.AdjustVec and Vectors.CostL2
    require the second vector to be at least as long as the first;
  - Network.FFBNet.Recall requires an input of at least `vecLen` elements.
- Hadamard.WhtScVec requires a power-of-two length, as the constructor's
  comment demands of `vecLen`. For any other positive length the source's
  loop reads past the end. Length 0 is the exception: the outer loop never
  runs and the scaling touches no element, so the source leaves an empty
  vector unchanged; the `requires` excludes that case.
- Network.FFBNet.Recall requires `result`, the net's `work` buffer and its
  parameters to be distinct arrays, and the input not to be `work`. The
  source does not check this, and with such aliasing it computes something
  else.
- Training.HillClimber.Step and Training.HillClimber.Draw do not state what
  `work` and the net's switching buffer hold afterwards: the last recall and
  its switching path. The display code recomputes both.
