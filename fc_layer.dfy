/** `FullyConnectedLayer`: a weight matrix of `numNodes` rows and `numInputs + 1` columns
    (the extra column meant for a bias input fixed at `-1`), a cached input vector and an
    output vector that every forward pass overwrites in place. It is built on the older
    `util.matrix` and `util.vector` packages. */
module FullyConnected {
  import opened Optional
  import opened Grids
  import opened Cells
  import opened LegacyLinalg
  import MathUtil

  /** `sum += row[j] * x[j]` for `j` from `0` to `n - 1`, left to right. */
  function WeightedSum(row: seq<real>, x: seq<real>, n: nat): real
    requires n <= |row| && n <= |x|
  {
    if n == 0 then 0.0 else WeightedSum(row, x, n - 1) + row[n - 1] * x[n - 1]
  }

  /** The weighted sum reads only the first `n` weights and inputs: in particular the bias
      column beyond them plays no part. */
  lemma {:induction false} WeightedSumReadsPrefix(row: seq<real>, row': seq<real>, x: seq<real>, x': seq<real>, n: nat)
    requires n <= |row| && n <= |x| && n <= |row'| && n <= |x'|
    requires row[..n] == row'[..n] && x[..n] == x'[..n]
    ensures WeightedSum(row, x, n) == WeightedSum(row', x', n)
  {
    if n > 0 {
      assert row[..n - 1] == row[..n][..n - 1] && row'[..n - 1] == row'[..n][..n - 1];
      assert x[..n - 1] == x[..n][..n - 1] && x'[..n - 1] == x'[..n][..n - 1];
      assert row[n - 1] == row[..n][n - 1] && x[n - 1] == x[..n][n - 1];
      WeightedSumReadsPrefix(row, row', x, x', n - 1);
    }
  }

  /** Appending the bias input `-1` subtracts the bias weight. */
  lemma WeightedSumWithBias(row: seq<real>, x: seq<real>, n: nat)
    requires n < |row| && n == |x|
    ensures WeightedSum(row, x + [-1.0], n + 1) == WeightedSum(row, x, n) - row[n]
  {
    WeightedSumReadsPrefix(row, row, x + [-1.0], x, n);
  }

  /** The layer. `lastInput` is the one field that forward passes reassign. */
  class FullyConnectedLayer {
    const weights: Matrix
    var lastInput: Vec
    const lastOutput: Vec

    /** The weights have the declared shape, one output per node, and the cached input is
        never longer than a weight row. */
    predicate Valid()
      reads this
    {
      weights.Valid() && weights.cols >= 1 &&
      lastOutput.Length() == weights.rows && lastInput.Length() <= weights.cols &&
      lastInput.data != lastOutput.data
    }

    /** The input length the next forward pass accepts. */
    predicate Accepts(n: nat)
      reads this
    {
      n == lastInput.Length() - 1
    }

    /** The cached input still ends in the bias input `-1` under a full weight row. */
    predicate BiasKept()
      reads this, lastInput.data
    {
      lastInput.Length() == weights.cols >= 1 && lastInput.data[weights.cols - 1] == -1.0
    }

    /** `new FullyConnectedLayer(numNodes, numInputs)`: random weights with a bias column,
        and a cached input whose last entry is `-1`. */
    constructor (numNodes: nat, numInputs: nat)
      ensures Valid() && BiasKept() && Accepts(numInputs)
      ensures weights.rows == numNodes && weights.cols == numInputs + 1
      ensures fresh(weights) && fresh(weights.data) && fresh(lastInput) && fresh(lastInput.data)
      ensures fresh(lastOutput) && fresh(lastOutput.data)
    {
      weights := new Matrix.Random(numNodes, numInputs + 1);
      var input := new Vec.Random(numInputs + 1);
      lastInput := input;
      lastOutput := new Vec.Random(numNodes);
      new;
      input.Set(input.Length() - 1, -1.0);
    }

    /** `forwardPropagation(input)` as written: `null` unless the input is one entry shorter
        than the cached input; otherwise the cached input becomes `input` itself and output
        `i` is the sigmoid of row `i` of the weights against it. The bias column is never
        read, and the length just accepted is refused from then on. */
    method ForwardPropagation(input: Vec, exp: real -> real) returns (r: Option<Vec>)
      requires Valid() && MathUtil.ExpPositive(exp)
      requires input.data != lastOutput.data
      modifies this, lastOutput.data
      ensures Valid()
      ensures !old(Accepts(input.Length())) ==> r.None? && lastInput == old(lastInput) && unchanged(lastOutput.data)
      ensures old(Accepts(input.Length())) ==> r == Some(lastOutput) && lastInput == input && !Accepts(input.Length())
      ensures old(Accepts(input.Length())) ==> forall i :: 0 <= i < lastOutput.Length() ==>
        lastOutput.data[i] == MathUtil.SigmoidOf(WeightedSum(GridOf(weights.data)[i], input.data[..], input.Length()), exp)
    {
      if input.Length() != lastInput.Length() - 1 {
        return None;
      }
      lastInput := input;
      ComputeOutputs(exp);
      return Some(lastOutput);
    }

    /** The forward pass with the bias kept: the input is copied into the cached input in
        front of its bias entry `-1`, so output `i` is the sigmoid of row `i` against the
        input minus the bias weight of row `i`, and the layer keeps accepting inputs of the
        same length. */
    method ForwardPropagationKeepingBias(input: Vec, exp: real -> real) returns (r: Option<Vec>)
      requires Valid() && BiasKept() && MathUtil.ExpPositive(exp)
      requires input.data != lastOutput.data
      modifies lastInput.data, lastOutput.data
      ensures Valid() && BiasKept() && lastInput == old(lastInput)
      ensures !Accepts(input.Length()) ==> r.None? && unchanged(lastInput.data) && unchanged(lastOutput.data)
      ensures Accepts(input.Length()) ==> r == Some(lastOutput) && lastInput.data[..] == old(input.data[..]) + [-1.0]
      ensures Accepts(input.Length()) ==> forall i :: 0 <= i < lastOutput.Length() ==>
        lastOutput.data[i] == MathUtil.SigmoidOf(
          WeightedSum(GridOf(weights.data)[i], old(input.data[..]), input.Length()) - weights.data[i, input.Length()], exp)
    {
      if input.Length() != lastInput.Length() - 1 {
        return None;
      }
      CopyPrefix(input.data, lastInput.data);
      ghost var w := GridOf(weights.data);
      ghost var x := lastInput.data[..];
      assert x == old(input.data[..]) + [-1.0] by {
        assert x[..input.Length()] == old(input.data[..]);
        assert x[input.Length()..] == [-1.0];
        assert x == x[..input.Length()] + x[input.Length()..];
      }
      ComputeOutputs(exp);
      forall a | 0 <= a < lastOutput.Length()
        ensures WeightedSum(w[a], x, |x|) == WeightedSum(w[a], old(input.data[..]), input.Length()) - weights.data[a, input.Length()]
      {
        WeightedSumWithBias(w[a], old(input.data[..]), input.Length());
      }
      return Some(lastOutput);
    }

    /** The loop of the forward pass: output `i` becomes the sigmoid of row `i` of the
        weights against the cached input. */
    method ComputeOutputs(exp: real -> real)
      requires Valid() && MathUtil.ExpPositive(exp)
      modifies lastOutput.data
      ensures forall i :: 0 <= i < lastOutput.Length() ==>
        lastOutput.data[i] == MathUtil.SigmoidOf(WeightedSum(GridOf(weights.data)[i], lastInput.data[..], lastInput.Length()), exp)
    {
      ghost var w := GridOf(weights.data);
      ghost var x := lastInput.data[..];
      var i := 0;
      while i < lastOutput.Length()
        invariant i <= lastOutput.Length()
        invariant GridOf(weights.data) == w && lastInput.data[..] == x
        invariant forall a :: 0 <= a < i ==> lastOutput.data[a] == MathUtil.SigmoidOf(WeightedSum(w[a], x, |x|), exp)
      {
        var sum := 0.0;
        var j := 0;
        while j < lastInput.Length()
          invariant j <= lastInput.Length() && sum == WeightedSum(w[i], x, j)
        {
          sum := sum + weights.GetDataAtPos(i, j) * lastInput.GetValue(j);
          j := j + 1;
        }
        lastOutput.Set(i, MathUtil.SigmoidOf(sum, exp));
        i := i + 1;
      }
    }

    /** `propagateBackwards(delta)`: always `null`. */
    method PropagateBackwards(delta: Vec) returns (r: Option<Vec>)
      ensures r.None?
    {
      return None;
    }
  }

  /** A layer of one node over one input accepts a one-entry vector once and refuses the
      same length on the next call. */
  method SecondForwardRefused(exp: real -> real) returns (first: Option<Vec>, second: Option<Vec>)
    requires MathUtil.ExpPositive(exp)
    ensures first.Some? && second.None?
  {
    var layer := new FullyConnectedLayer(1, 1);
    var input := new Vec.Random(1);
    first := layer.ForwardPropagation(input, exp);
    second := layer.ForwardPropagation(input, exp);
  }

  /** With the bias kept, the same layer accepts the one-entry vector on both calls. */
  method SecondForwardKeepingBiasAccepted(exp: real -> real) returns (first: Option<Vec>, second: Option<Vec>)
    requires MathUtil.ExpPositive(exp)
    ensures first.Some? && second.Some?
  {
    var layer := new FullyConnectedLayer(1, 1);
    var input := new Vec.Random(1);
    first := layer.ForwardPropagationKeepingBias(input, exp);
    second := layer.ForwardPropagationKeepingBias(input, exp);
  }
}
