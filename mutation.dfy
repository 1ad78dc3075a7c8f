/** The `Mutator` of the hill climber (sketch.js, lines 113-138): a bounded
    random edit of a few positions of the parameter array, logged so that it
    can be rolled back. The random positions and signed step sizes are
    parameters of `Mutate`. */
module Mutation {

  /** The new value `mutate` stores at a position holding `v` for the step
      `m`: the step is dropped when it would reach 1 or -1. */
  function Edit(v: real, m: real): (r: real)
    ensures r == v || r == v + m
    ensures r == v + m <==> (-1.0 < v + m < 1.0 || m == 0.0)
    ensures -1.0 < v < 1.0 ==> -1.0 < r < 1.0
  {
    var vm := if v + m >= 1.0 then v else v + m;
    if vm <= -1.0 then v else vm
  }

  predicate InRange(s: seq<real>)
  {
    forall k :: 0 <= k < |s| ==> -1.0 < s[k] < 1.0
  }

  predicate Positions(ps: seq<int>, n: nat)
  {
    forall i :: 0 <= i < |ps| ==> 0 <= ps[i] < n
  }

  /** The vector after the first `k` edits of `mutate`: edit `i` changes
      position `ps[i]` by the step `ms[i]`. */
  function Mutated(s: seq<real>, ps: seq<int>, ms: seq<real>, k: nat): (r: seq<real>)
    requires |ps| == |ms| && k <= |ps| && Positions(ps, |s|)
    ensures |r| == |s|
  {
    if k == 0 then s
    else
      var t := Mutated(s, ps, ms, k - 1);
      t[ps[k - 1] := Edit(t[ps[k - 1]], ms[k - 1])]
  }

  /** The log `previous` of `mutate`: entry `i` is the value position
      `ps[i]` held just before edit `i`. */
  function Log(s: seq<real>, ps: seq<int>, ms: seq<real>): (r: seq<real>)
    requires |ps| == |ms| && Positions(ps, |s|)
    ensures |r| == |ps|
  {
    seq(|ps|, i requires 0 <= i < |ps| => Mutated(s, ps, ms, i)[ps[i]])
  }

  /** A write to a `Float32Array`: an index outside the array changes
      nothing. */
  function Write(v: seq<real>, p: int, x: real): (r: seq<real>)
    ensures |r| == |v|
    ensures forall k :: 0 <= k < |v| ==> r[k] == (if k == p then x else v[k])
  {
    if 0 <= p < |v| then v[p := x] else v
  }

  /** The vector after `undo` has replayed the log entries from the last
      down to entry `i`. */
  function Undone(v: seq<real>, idx: seq<int>, prev: seq<real>, i: nat): (r: seq<real>)
    requires |idx| == |prev| && i <= |idx|
    ensures |r| == |v|
    decreases |idx| - i
  {
    if i == |idx| then v else Write(Undone(v, idx, prev, i + 1), idx[i], prev[i])
  }

  /** Replaying the log from the last entry down to entry `k` takes the
      fully mutated vector back to the vector after `k` edits. */
  lemma {:induction false} UndoneMutated(s: seq<real>, ps: seq<int>, ms: seq<real>, k: nat)
    requires |ps| == |ms| && k <= |ps| && Positions(ps, |s|)
    ensures Undone(Mutated(s, ps, ms, |ps|), ps, Log(s, ps, ms), k) == Mutated(s, ps, ms, k)
    decreases |ps| - k
  {
    if k < |ps| {
      UndoneMutated(s, ps, ms, k + 1);
      var t := Mutated(s, ps, ms, k);
      var p := ps[k];
      assert Log(s, ps, ms)[k] == t[p];
      assert Mutated(s, ps, ms, k + 1) == t[p := Edit(t[p], ms[k])];
      assert t[p := Edit(t[p], ms[k])][p := t[p]] == t;
    }
  }

  /** `undo` right after `mutate` restores the vector exactly, even when a
      position was drawn more than once. */
  lemma {:induction false} UndoAfterMutate(s: seq<real>, ps: seq<int>, ms: seq<real>)
    requires |ps| == |ms| && Positions(ps, |s|)
    ensures Undone(Mutated(s, ps, ms, |ps|), ps, Log(s, ps, ms), 0) == s
  {
    UndoneMutated(s, ps, ms, 0);
  }

  /** `mutate` changes only the positions it logs. */
  lemma {:induction false} MutatedFrame(s: seq<real>, ps: seq<int>, ms: seq<real>, k: nat, q: int)
    requires |ps| == |ms| && k <= |ps| && Positions(ps, |s|)
    requires 0 <= q < |s| && forall i :: 0 <= i < k ==> ps[i] != q
    ensures Mutated(s, ps, ms, k)[q] == s[q]
  {
    if k > 0 {
      MutatedFrame(s, ps, ms, k - 1, q);
    }
  }

  /** Starting inside (-1, 1), every value stays inside it. */
  lemma {:induction false} MutatedInRange(s: seq<real>, ps: seq<int>, ms: seq<real>, k: nat)
    requires |ps| == |ms| && k <= |ps| && Positions(ps, |s|)
    requires InRange(s)
    ensures InRange(Mutated(s, ps, ms, k))
  {
    if k > 0 {
      MutatedInRange(s, ps, ms, k - 1);
    }
  }

  class Mutator {
    const previous: array<real>
    const pIdx: array<int>
    const precision: real

    /** A mutator for `size` edits: an empty log of `size` entries. */
    constructor(size: nat, precision: real)
      ensures previous.Length == size && pIdx.Length == size && this.precision == precision
      ensures fresh(previous) && fresh(pIdx)
      ensures forall i :: 0 <= i < size ==> previous[i] == 0.0 && pIdx[i] == 0
    {
      previous := new real[size](_ => 0.0);
      pIdx := new int[size](_ => 0);
      this.precision := precision;
    }

    /** mutate: edit `previous.Length` positions of `vec` one after another,
        logging each position and its old value. The position of edit `i` is
        `positions[i]` and its signed step `steps[i]`, which the source draws
        as `int(random(vec.length))` and `±2 * exp(random(-precision, 0))`. */
    method Mutate(vec: array<real>, positions: seq<int>, steps: seq<real>)
      requires |positions| == |steps| == previous.Length == pIdx.Length
      requires Positions(positions, vec.Length)
      requires vec != previous
      modifies vec, previous, pIdx
      ensures vec[..] == Mutated(old(vec[..]), positions, steps, |positions|)
      ensures pIdx[..] == positions
      ensures previous[..] == Log(old(vec[..]), positions, steps)
    {
      ghost var s := vec[..];
      for i := 0 to previous.Length
        invariant vec[..] == Mutated(s, positions, steps, i)
        invariant forall k :: 0 <= k < i ==> pIdx[k] == positions[k]
        invariant forall k :: 0 <= k < i ==> previous[k] == Log(s, positions, steps)[k]
      {
        var rpos := positions[i];
        var v := vec[rpos];
        pIdx[i] := rpos;
        previous[i] := v;
        var m := steps[i];
        var vm := v + m;
        if vm >= 1.0 {
          vm := v;
        }
        if vm <= -1.0 {
          vm := v;
        }
        vec[rpos] := vm;
      }
    }

    /** undo: write the logged values back, from the last entry to the
        first. */
    method Undo(vec: array<real>)
      requires previous.Length == pIdx.Length
      requires vec != previous
      modifies vec
      ensures vec[..] == Undone(old(vec[..]), pIdx[..], previous[..], 0)
    {
      ghost var v := vec[..];
      var i := previous.Length;
      while i > 0
        invariant 0 <= i <= previous.Length
        invariant vec[..] == Undone(v, pIdx[..], previous[..], i)
      {
        i := i - 1;
        if 0 <= pIdx[i] < vec.Length {
          vec[pIdx[i]] := previous[i];
        }
      }
    }
  }
}
