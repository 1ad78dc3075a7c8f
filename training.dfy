/** The hill climber of `draw` (sketch.js, lines 141-146 and 179-191): mutate
    the parameters of the net, measure the autoassociative cost over the
    training examples, and keep the mutation only when the cost strictly
    improves on the best cost so far. */
module Training {
  import opened Powers
  import opened Vectors
  import opened Network
  import opened Mutation

  /** `parentCost`, which starts at `Number.POSITIVE_INFINITY`. */
  datatype Cost = Infinite | Finite(value: real)

  /** `cost < parentCost`. */
  predicate Below(c: real, p: Cost)
  {
    p.Infinite? || c < p.value
  }

  /** `a <= b` for costs. */
  predicate NoMore(a: Cost, b: Cost)
  {
    b.Infinite? || (a.Finite? && a.value <= b.value)
  }

  /** The recalls `rs` fit the examples `xs` they are compared with. */
  predicate Comparable(rs: seq<seq<real>>, xs: seq<seq<real>>)
  {
    |rs| <= |xs| && forall j :: 0 <= j < |rs| ==> |rs[j]| <= |xs[j]|
  }

  /** The summed cost `costL2(rs[j], xs[j])` of the first `k` recalls. */
  function SumCost(rs: seq<seq<real>>, xs: seq<seq<real>>, k: nat): real
    requires Comparable(rs, xs) && k <= |rs|
  {
    if k == 0 then 0.0 else SumCost(rs, xs, k - 1) + SumSq(Diff(rs[k - 1], xs[k - 1]))
  }

  /** The summed cost of the first `k` recalls depends on those recalls
      only. */
  lemma {:induction false} SumCostSame(rs: seq<seq<real>>, qs: seq<seq<real>>, xs: seq<seq<real>>, k: nat)
    requires Comparable(rs, xs) && Comparable(qs, xs) && k <= |rs| && k <= |qs|
    requires forall j :: 0 <= j < k ==> rs[j] == qs[j]
    ensures SumCost(rs, xs, k) == SumCost(qs, xs, k)
  {
    if k > 0 {
      SumCostSame(rs, qs, xs, k - 1);
    }
  }

  /** The summed cost is never negative, and it is zero exactly when every
      recall equals its example. */
  lemma {:induction false} SumCostZeroIff(rs: seq<seq<real>>, xs: seq<seq<real>>, k: nat)
    requires Comparable(rs, xs) && k <= |rs|
    ensures SumCost(rs, xs, k) >= 0.0
    ensures SumCost(rs, xs, k) == 0.0 <==> forall j :: 0 <= j < k ==> rs[j] == xs[j][..|rs[j]|]
  {
    if k > 0 {
      SumCostZeroIff(rs, xs, k - 1);
      SumSqNonNegative(Diff(rs[k - 1], xs[k - 1]));
      CostZeroIff(rs[k - 1], xs[k - 1]);
    }
  }

  predicate Examples(xs: seq<seq<real>>, vecLen: nat)
  {
    forall j :: 0 <= j < |xs| ==> vecLen <= |xs[j]|
  }

  /** `r` is what `recall` gives for the input `x`. The quantifier over
      the one value `y == x` fires only where a recall of `x` is mentioned,
      which keeps the definition of recall out of the proofs that only pass
      this fact on. */
  ghost predicate IsRecall(r: seq<real>, x: seq<real>, ps: seq<real>, hash: int, vecLen: nat, depth: nat, sqrt: real -> real)
    requires IsPow2(vecLen) && PositiveRoot(sqrt) && |ps| == 2 * vecLen * depth
  {
    forall y {:trigger Recalled(y, ps, hash, vecLen, depth, sqrt)} :: y == x && vecLen <= |y| ==>
      r == Recalled(y, ps, hash, vecLen, depth, sqrt)
  }

  /** `rs` holds what `recall` gives for each of the first `|rs|` examples
      of `xs`. */
  ghost predicate Recalls(rs: seq<seq<real>>, xs: seq<seq<real>>, ps: seq<real>, hash: int, vecLen: nat, depth: nat, sqrt: real -> real)
    requires IsPow2(vecLen) && PositiveRoot(sqrt) && |ps| == 2 * vecLen * depth
  {
    && |rs| <= |xs|
    && forall j :: 0 <= j < |rs| ==> vecLen <= |xs[j]| && |rs[j]| == vecLen && IsRecall(rs[j], xs[j], ps, hash, vecLen, depth, sqrt)
  }

  /** Appending the recall of the next example keeps `Recalls`. */
  lemma {:induction false} RecallsExtend(rs: seq<seq<real>>, r: seq<real>, xs: seq<seq<real>>, ps: seq<real>, hash: int, vecLen: nat, depth: nat, sqrt: real -> real)
    requires IsPow2(vecLen) && PositiveRoot(sqrt) && |ps| == 2 * vecLen * depth
    requires Recalls(rs, xs, ps, hash, vecLen, depth, sqrt) && |rs| < |xs|
    requires vecLen <= |xs[|rs|]| && |r| == vecLen && IsRecall(r, xs[|rs|], ps, hash, vecLen, depth, sqrt)
    ensures Recalls(rs + [r], xs, ps, hash, vecLen, depth, sqrt)
  {
    var rs' := rs + [r];
    forall j | 0 <= j < |rs'|
      ensures vecLen <= |xs[j]| && |rs'[j]| == vecLen && IsRecall(rs'[j], xs[j], ps, hash, vecLen, depth, sqrt)
    {
      if j < |rs| {
        assert rs'[j] == rs[j];
      }
    }
  }

  /** The recalls are determined by the examples and the net. */
  lemma {:induction false} RecallsUnique(rs: seq<seq<real>>, qs: seq<seq<real>>, xs: seq<seq<real>>, ps: seq<real>, hash: int, vecLen: nat, depth: nat, sqrt: real -> real)
    requires IsPow2(vecLen) && PositiveRoot(sqrt) && |ps| == 2 * vecLen * depth
    requires Examples(xs, vecLen)
    requires Recalls(rs, xs, ps, hash, vecLen, depth, sqrt) && Recalls(qs, xs, ps, hash, vecLen, depth, sqrt)
    requires |rs| == |qs|
    ensures rs == qs
  {
    forall j | 0 <= j < |rs| ensures rs[j] == qs[j] {
      assert IsRecall(rs[j], xs[j], ps, hash, vecLen, depth, sqrt);
      assert IsRecall(qs[j], xs[j], ps, hash, vecLen, depth, sqrt);
      assert rs[j] == Recalled(xs[j], ps, hash, vecLen, depth, sqrt);
    }
  }

  /** The batch cost of a net whose recalls of all examples are `rs` is
      never negative, and it is zero exactly when the net recalls every
      example perfectly. */
  lemma {:induction false} BatchCostZeroIff(rs: seq<seq<real>>, xs: seq<seq<real>>, ps: seq<real>, hash: int, vecLen: nat, depth: nat, sqrt: real -> real)
    requires IsPow2(vecLen) && PositiveRoot(sqrt) && |ps| == 2 * vecLen * depth
    requires Examples(xs, vecLen)
    requires Recalls(rs, xs, ps, hash, vecLen, depth, sqrt) && |rs| == |xs|
    ensures Comparable(rs, xs)
    ensures SumCost(rs, xs, |xs|) >= 0.0
    ensures SumCost(rs, xs, |xs|) == 0.0 <==>
      forall j :: 0 <= j < |xs| ==> Recalled(xs[j], ps, hash, vecLen, depth, sqrt) == xs[j][..vecLen]
  {
    SumCostZeroIff(rs, xs, |xs|);
    forall j | 0 <= j < |xs|
      ensures Recalled(xs[j], ps, hash, vecLen, depth, sqrt) == rs[j]
    {
      assert IsRecall(rs[j], xs[j], ps, hash, vecLen, depth, sqrt);
    }
  }

  /** The globals of the sketch: a net of 256 coordinates and 5 layers with
      hash 123456, a mutator of 10 edits with precision 25, eight training
      examples and 100 hill-climbing steps per frame. */
  const VecLen: nat := 256
  const Depth: nat := 5
  const NetHash: int := 123456
  const MutationSize: nat := 10
  const Precision: real := 25.0
  const ExampleCount: nat := 8
  const StepsPerFrame: nat := 100

  /** The state `draw` works on: the net `parentNet`, the mutator `mut`, the
      recall buffer `work`, the training examples `ex` and `parentCost`, the
      best cost so far. */
  class HillClimber {
    var parentCost: Cost
    /** What the net recalls for each example at the cost `parentCost`. */
    ghost var parentRecalls: seq<seq<real>>
    const net: FFBNet
    const mut: Mutator
    const work: array<real>
    const ex: seq<array<real>>
    /** The contents of the examples, which nothing writes after setup. */
    ghost const data: seq<seq<real>>

    /** The buffers are as large as `recall` and `mutate` need and no two
        buffers that are written share storage. */
    ghost predicate Shape()
    {
      && net.Valid()
      && mut.previous.Length == mut.pIdx.Length
      && work.Length == net.vecLen
      && work != net.params && work != net.work
      && mut.previous != net.params && mut.previous != net.work && mut.previous != work
      && |ex| == |data|
      && forall j :: 0 <= j < |ex| ==>
           && net.vecLen <= ex[j].Length == |data[j]|
           && ex[j] != net.params && ex[j] != net.work && ex[j] != work && ex[j] != mut.previous
    }

    /** The example arrays hold the examples. */
    ghost predicate Held()
      reads ex
    {
      forall j :: 0 <= j < |ex| && j < |data| ==> ex[j][..] == data[j]
    }

    ghost predicate Valid()
      reads ex
    {
      Shape() && Held()
    }

    /** `parentCost`, once finite, is the batch cost of the current
        parameters, whose recalls of the examples are `parentRecalls`. */
    ghost predicate Consistent(sqrt: real -> real)
      requires Shape() && PositiveRoot(sqrt)
      reads this, net.params
    {
      parentCost.Finite? ==>
        && |parentRecalls| == |data|
        && Recalls(parentRecalls, data, net.params[..], net.hash, net.vecLen, net.depth, sqrt)
        && parentCost.value == SumCost(parentRecalls, data, |data|)
    }

    /** The globals as the sketch declares them, with the examples filled
        in by `setup` from `examples`. */
    constructor(examples: seq<seq<real>>)
      requires |examples| == ExampleCount
      requires forall j :: 0 <= j < |examples| ==> |examples[j]| == VecLen
      ensures Valid() && data == examples && parentCost == Infinite
      ensures net.vecLen == VecLen && net.depth == Depth && net.hash == NetHash
      ensures mut.previous.Length == MutationSize && mut.precision == Precision
      ensures forall k :: 0 <= k < net.params.Length ==> net.params[k] == 0.5
    {
      var n := new FFBNet(VecLen, Depth, NetHash);
      var m := new Mutator(MutationSize, Precision);
      var w := new real[VecLen](_ => 0.0);
      var arrays: seq<array<real>> := [];
      for j := 0 to |examples|
        invariant |arrays| == j
        invariant forall i :: 0 <= i < j ==>
          && arrays[i].Length == VecLen && arrays[i][..] == examples[i]
          && arrays[i] != n.params && arrays[i] != n.work && arrays[i] != w && arrays[i] != m.previous
        invariant forall k :: 0 <= k < n.params.Length ==> n.params[k] == 0.5
      {
        var a := new real[VecLen](k requires 0 <= k < VecLen => examples[j][k]);
        arrays := arrays + [a];
      }
      parentCost := Infinite;
      parentRecalls := [];
      net := n;
      mut := m;
      work := w;
      ex := arrays;
      data := examples;
    }

    /** One pass of the inner loop of `draw`: recall the example `x` into
        `work` and return the cost of the recall. */
    method RecallCost(x: array<real>, sqrt: real -> real) returns (c: real)
      requires net.Valid() && PositiveRoot(sqrt)
      requires work.Length == net.vecLen <= x.Length
      requires work != net.params && work != net.work && x != net.work && x != work
      modifies work, net.work
      ensures IsRecall(work[..], x[..], net.params[..], net.hash, net.vecLen, net.depth, sqrt)
      ensures c == SumSq(Diff(work[..], x[..]))
    {
      net.Recall(work, x, sqrt);
      c := CostL2(work, x);
    }

    /** Recall example `j` and add its cost to `cost`, the cost of the
        recalls `rs` of the examples before it. */
    method AddCost(j: nat, cost: real, sqrt: real -> real, ghost rs: seq<seq<real>>) returns (cost': real, ghost rs': seq<seq<real>>)
      requires Shape() && Held() && PositiveRoot(sqrt) && j < |ex|
      requires |rs| == j && Recalls(rs, data, net.params[..], net.hash, net.vecLen, net.depth, sqrt)
      requires cost == SumCost(rs, data, j)
      modifies work, net.work
      ensures |rs'| == j + 1 && Recalls(rs', data, net.params[..], net.hash, net.vecLen, net.depth, sqrt)
      ensures cost' == SumCost(rs', data, j + 1)
    {
      var c := RecallCost(ex[j], sqrt);
      rs' := rs + [work[..]];
      RecallsExtend(rs, work[..], data, net.params[..], net.hash, net.vecLen, net.depth, sqrt);
      SumCostSame(rs, rs', data, j);
      cost' := cost + c;
    }

    /** The inner loop of `draw`: recall every example into `work` and sum
        the costs of the recalls, which are `rs`. */
    method Cost(sqrt: real -> real) returns (cost: real, ghost rs: seq<seq<real>>)
      requires Shape() && Held() && PositiveRoot(sqrt)
      modifies work, net.work
      ensures |rs| == |data| && Recalls(rs, data, net.params[..], net.hash, net.vecLen, net.depth, sqrt)
      ensures cost == SumCost(rs, data, |data|)
    {
      cost := 0.0;
      rs := [];
      for j := 0 to |ex|
        invariant |rs| == j && Recalls(rs, data, net.params[..], net.hash, net.vecLen, net.depth, sqrt)
        invariant cost == SumCost(rs, data, j)
      {
        cost, rs := AddCost(j, cost, sqrt, rs);
      }
    }

    /** One round of the hill climb in `draw`: mutate the parameters with
        the edits `positions` and `steps`, measure the batch cost `cost`,
        and keep the mutation when it beats `parentCost`, undoing it
        otherwise. `rs` are the recalls of the mutated net. */
    method Step(positions: seq<int>, steps: seq<real>, sqrt: real -> real) returns (cost: real, ghost rs: seq<seq<real>>)
      requires Shape() && Held() && PositiveRoot(sqrt) && Consistent(sqrt)
      requires |positions| == |steps| == mut.previous.Length
      requires Positions(positions, net.params.Length)
      modifies this, net.params, net.work, mut.previous, mut.pIdx, work
      ensures Held() && Consistent(sqrt)
      ensures |rs| == |data|
      ensures Recalls(rs, data, Mutated(old(net.params[..]), positions, steps, |positions|), net.hash, net.vecLen, net.depth, sqrt)
      ensures cost == SumCost(rs, data, |data|)
      ensures Below(cost, old(parentCost)) ==>
        parentCost == Finite(cost) && net.params[..] == Mutated(old(net.params[..]), positions, steps, |positions|)
      ensures !Below(cost, old(parentCost)) ==>
        parentCost == old(parentCost) && net.params[..] == old(net.params[..])
      ensures parentCost.Finite? && NoMore(parentCost, old(parentCost)) && NoMore(parentCost, Finite(cost))
      ensures InRange(old(net.params[..])) ==> InRange(net.params[..])
    {
      ghost var p0 := net.params[..];
      mut.Mutate(net.params, positions, steps);
      cost, rs := Cost(sqrt);
      if Below(cost, parentCost) {
        parentCost := Finite(cost);
        parentRecalls := rs;
      } else {
        mut.Undo(net.params);
        UndoAfterMutate(p0, positions, steps);
      }
      if InRange(p0) {
        MutatedInRange(p0, positions, steps, |positions|);
      }
    }

    /** The training part of `draw`: `StepsPerFrame` rounds of the hill
        climb, round `i` with the edits `positions[i]` and `steps[i]`. The
        best cost never rises, is finite afterwards, and stays the batch cost
        of the parameters the net holds. */
    method Draw(positions: seq<seq<int>>, steps: seq<seq<real>>, sqrt: real -> real)
      requires Shape() && Held() && PositiveRoot(sqrt) && Consistent(sqrt)
      requires |positions| == |steps| == StepsPerFrame
      requires forall i :: 0 <= i < StepsPerFrame ==>
        |positions[i]| == |steps[i]| == mut.previous.Length && Positions(positions[i], net.params.Length)
      modifies this, net.params, net.work, mut.previous, mut.pIdx, work
      ensures Held() && Consistent(sqrt)
      ensures parentCost.Finite? && NoMore(parentCost, old(parentCost))
      ensures InRange(old(net.params[..])) ==> InRange(net.params[..])
    {
      ghost var c0 := parentCost;
      ghost var inRange := InRange(net.params[..]);
      for i := 0 to StepsPerFrame
        invariant Held() && Consistent(sqrt)
        invariant 0 < i ==> parentCost.Finite?
        invariant NoMore(parentCost, c0)
        invariant inRange ==> InRange(net.params[..])
      {
        var cost;
        ghost var rs;
        cost, rs := Step(positions[i], steps[i], sqrt);
      }
    }
  }
}
