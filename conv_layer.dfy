/** `ConvolutionLayer`: "same"-padded cross-correlation of feature maps with a set of
    kernels, stride one, with a forward cache used by the backward pass. A Java
    `Matrix[]` is a sequence of matrices; a field that Java leaves `null` until the first
    forward pass is `None`. */
module Convolution {
  import opened Grids
  import opened Cells
  import opened Optional
  import opened JavaArith
  import opened Linalg

  /** The padding `(k - 1) / 2` for a kernel of `k` rows, in Java's truncating division: a
      kernel without rows gets no padding rather than `-1`. */
  function Padding(kernelRows: nat): (p: nat)
    ensures kernelRows > 0 ==> 2 * p <= kernelRows - 1 < 2 * p + 2
    ensures kernelRows == 0 ==> p == 0
  {
    JavaDiv(kernelRows - 1, 2)
  }

  /** The output length `n + 2p - k + 1` along one dimension, where `p` comes from the
      kernel's rows and `k` is the kernel's extent along that dimension. */
  function OutputLength(n: nat, p: nat, k: nat): int {
    n + 2 * p - k + 1
  }

  /** An odd kernel size keeps the length: the "same" convolution the padding is chosen for. */
  lemma OddKernelKeepsLength(n: nat, k: nat)
    requires k % 2 == 1
    ensures OutputLength(n, Padding(k), k) == n
  {
  }

  /** An even kernel size shrinks the length by one. */
  lemma EvenKernelShrinks(n: nat, k: nat)
    requires k > 0 && k % 2 == 0
    ensures OutputLength(n, Padding(k), k) == n - 1
  {
  }

  /** What `convolve(input, kernel)` needs to run without an exception: non-negative output
      dimensions, and, when any window is visited, a kernel that the static
      `sumAndMultiply` can walk, i.e. a square one or one without entries. */
  predicate Convolvable(input: Matrix, kernel: Matrix) {
    var p := Padding(kernel.rows);
    input.Valid() && kernel.Valid() &&
    OutputLength(input.rows, p, kernel.rows) >= 0 && OutputLength(input.cols, p, kernel.cols) >= 0 &&
    (kernel.rows < input.rows + 2 * p && kernel.cols < input.cols + 2 * p ==>
       kernel.rows == kernel.cols || kernel.rows == 0 || kernel.cols == 0)
  }

  /** The response at `(i, j)`: the window of `padded` at `(i, j)` multiplied entry-wise with
      the kernel and summed. */
  function WindowProduct(padded: Grid, kernel: Grid, i: nat, j: nat, kRows: nat, kCols: nat): real
    requires i + kRows <= |padded| && forall r :: i <= r < i + kRows ==> j + kCols <= |padded[r]|
    requires IsShape(kernel, kRows, kCols)
  {
    Dot(Window(padded, i, j, kRows, kCols), kernel, kRows, kCols)
  }

  /** `out` is what `convolve(input, kernel)` returns: its shape follows the padding
      arithmetic, and every cell whose window ends strictly inside the padded input holds
      that window's product. The loops stop one window early, so the last row and the last
      column of `out` are never written and keep their random values. */
  predicate IsConvolution(out: Matrix, input: Matrix, kernel: Matrix)
    reads out.data, input.data, kernel.data
  {
    var p := Padding(kernel.rows);
    input.Valid() && kernel.Valid() && out.Valid() &&
    out.rows == OutputLength(input.rows, p, kernel.rows) && out.cols == OutputLength(input.cols, p, kernel.cols) &&
    var padded := Grids.Pad(GridOf(input.data), input.rows, input.cols, p);
    forall i, j :: 0 <= i && 0 <= j && i + kernel.rows < input.rows + 2 * p && j + kernel.cols < input.cols + 2 * p ==>
      out.data[i, j] == WindowProduct(padded, GridOf(kernel.data), i, j, kernel.rows, kernel.cols)
  }

  /** `convolve(input, kernel)`. */
  method Convolve(input: Matrix, kernel: Matrix) returns (result: Matrix)
    requires Convolvable(input, kernel)
    ensures fresh(result) && fresh(result.data)
    ensures IsConvolution(result, input, kernel)
  {
    var p := Padding(kernel.rows);
    var padded := input.Pad(p);
    var rowLength := input.rows + 2 * p - kernel.rows + 1;
    var columnLength := input.cols + 2 * p - kernel.cols + 1;
    result := new Matrix.Random(rowLength, columnLength);
    ghost var g := GridOf(padded.data);
    ghost var k := GridOf(kernel.data);
    var i := 0;
    while i + kernel.rows < padded.rows
      invariant GridOf(padded.data) == g && k == GridOf(kernel.data)
      invariant forall a, b :: 0 <= a < i && a + kernel.rows < padded.rows && 0 <= b && b + kernel.cols < padded.cols ==>
        result.data[a, b] == WindowProduct(g, k, a, b, kernel.rows, kernel.cols)
    {
      ConvolveRow(padded, kernel, result, i);
      i := i + 1;
    }
  }

  /** One pass of the inner loop of `convolve`: row `i` of `result` receives the product of
      every window starting in row `i` of `padded`, and no other row changes. */
  method ConvolveRow(padded: Matrix, kernel: Matrix, result: Matrix, i: nat)
    requires padded.Valid() && kernel.Valid() && result.Valid()
    requires result.data != padded.data && result.data != kernel.data
    requires i + kernel.rows < padded.rows
    requires result.rows + kernel.rows == padded.rows + 1 && result.cols + kernel.cols == padded.cols + 1
    requires kernel.cols < padded.cols ==> kernel.rows == kernel.cols || kernel.rows == 0 || kernel.cols == 0
    modifies result.data
    ensures forall a, b :: 0 <= a < result.rows && 0 <= b < result.cols && a != i ==>
      result.data[a, b] == old(result.data[a, b])
    ensures forall b :: 0 <= b && b + kernel.cols < padded.cols ==>
      result.data[i, b] == WindowProduct(GridOf(padded.data), GridOf(kernel.data), i, b, kernel.rows, kernel.cols)
  {
    ghost var g := GridOf(padded.data);
    ghost var k := GridOf(kernel.data);
    var j := 0;
    while j + kernel.cols < padded.cols
      invariant GridOf(padded.data) == g && k == GridOf(kernel.data)
      invariant forall a, b :: 0 <= a < result.rows && 0 <= b < result.cols && a != i ==>
        result.data[a, b] == old(result.data[a, b])
      invariant forall b :: 0 <= b < j && b + kernel.cols < padded.cols ==>
        result.data[i, b] == WindowProduct(g, k, i, b, kernel.rows, kernel.cols)
    {
      var sub := padded.SubMatrix(i, j, kernel.rows, kernel.cols);
      assert sub.Some?;
      var res := Linalg.SumAndMultiply(sub.value, kernel);
      result.Set(i, j, res);
      j := j + 1;
    }
  }

  /** With a `1` x `1` kernel holding `1`, every cell the loops write copies the input. */
  lemma UnitKernelCopies(g: Grid, rows: nat, cols: nat, i: nat, j: nat)
    requires IsShape(g, rows, cols) && i + 1 < rows && j + 1 < cols
    ensures WindowProduct(Grids.Pad(g, rows, cols, Padding(1)), Grids.Filled(1, 1, 1.0), i, j, 1, 1) == g[i][j]
  {
    var w := Window(Grids.Pad(g, rows, cols, 0), i, j, 1, 1);
    var h := Hadamard(w, Grids.Filled(1, 1, 1.0), 1, 1);
    assert w[0][0] == g[i][j];
    assert Padding(1) == 0;
    assert |h| == 1 && |h[0]| == 1 && h[0][0] == g[i][j] * 1.0;
    assert Grids.Sum(h[..0]) == 0.0 && Grids.SeqSum(h[0][..0]) == 0.0;
    assert Grids.Sum(h) == h[0][0];
  }

  /** An all-ones kernel sums each window. */
  lemma OnesKernelSums(padded: Grid, i: nat, j: nat, kRows: nat, kCols: nat)
    requires i + kRows <= |padded| && forall r :: i <= r < i + kRows ==> j + kCols <= |padded[r]|
    ensures WindowProduct(padded, Grids.Filled(kRows, kCols, 1.0), i, j, kRows, kCols) == Grids.Sum(Window(padded, i, j, kRows, kCols))
  {
    DotWithOnes(Window(padded, i, j, kRows, kCols), kRows, kCols);
  }

  /** The two loops of `forwardPropagation`: kernel by kernel, every input convolved with
      the kernel, appended in that order. */
  method ConvolveEach(inputs: seq<Matrix>, kernels: seq<Matrix>) returns (maps: seq<Matrix>)
    requires forall i, j :: 0 <= i < |kernels| && 0 <= j < |inputs| ==> Convolvable(inputs[j], kernels[i])
    ensures |maps| == |kernels| * |inputs|
    ensures forall k :: 0 <= k < |maps| ==> fresh(maps[k]) && fresh(maps[k].data)
    ensures forall i, j :: 0 <= i < |kernels| && 0 <= j < |inputs| ==>
      Slot(i, j, |inputs|) < |maps| && IsConvolution(maps[Slot(i, j, |inputs|)], inputs[j], kernels[i])
  {
    maps := [];
    ghost var blocks: seq<seq<Matrix>> := [];
    var i := 0;
    while i < |kernels|
      invariant 0 <= i <= |kernels| && |blocks| == i && maps == Concat(blocks)
      invariant forall k :: 0 <= k < |maps| ==> fresh(maps[k]) && fresh(maps[k].data)
      invariant forall a :: 0 <= a < i ==> |blocks[a]| == |inputs|
      invariant forall a, b :: 0 <= a < i && 0 <= b < |inputs| ==> IsConvolution(blocks[a][b], inputs[b], kernels[a])
    {
      var row := ConvolveAll(inputs, kernels[i]);
      ghost var done := blocks;
      maps := maps + row;
      blocks := blocks + [row];
      assert blocks[..|blocks| - 1] == done;
      i := i + 1;
    }
    ConcatConvolutions(maps, blocks, inputs, kernels);
  }

  /** The blocks of convolutions laid end to end: the convolution of input `b` with
      kernel `a` sits at slot `(a, b)`. */
  lemma ConcatConvolutions(maps: seq<Matrix>, blocks: seq<seq<Matrix>>, inputs: seq<Matrix>, kernels: seq<Matrix>)
    requires |blocks| == |kernels| && maps == Concat(blocks)
    requires forall a :: 0 <= a < |blocks| ==> |blocks[a]| == |inputs|
    requires forall a, b :: 0 <= a < |kernels| && 0 <= b < |inputs| ==> IsConvolution(blocks[a][b], inputs[b], kernels[a])
    ensures |maps| == |kernels| * |inputs|
    ensures forall a, b :: 0 <= a < |kernels| && 0 <= b < |inputs| ==>
      Slot(a, b, |inputs|) < |maps| && IsConvolution(maps[Slot(a, b, |inputs|)], inputs[b], kernels[a])
  {
    ConcatSlot(blocks, |inputs|);
    SlotIsIndex(|kernels|, 0, |inputs|);
  }

  /** The inner loop of `forwardPropagation`: every input convolved with one kernel. */
  method ConvolveAll(inputs: seq<Matrix>, kernel: Matrix) returns (row: seq<Matrix>)
    requires forall j :: 0 <= j < |inputs| ==> Convolvable(inputs[j], kernel)
    ensures |row| == |inputs|
    ensures forall b :: 0 <= b < |row| ==> fresh(row[b]) && fresh(row[b].data) && IsConvolution(row[b], inputs[b], kernel)
  {
    row := [];
    var j := 0;
    while j < |inputs|
      invariant 0 <= j <= |inputs| && |row| == j
      invariant forall b :: 0 <= b < j ==> fresh(row[b]) && fresh(row[b].data) && IsConvolution(row[b], inputs[b], kernel)
    {
      var m := Convolve(inputs[j], kernel);
      row := row + [m];
      j := j + 1;
    }
  }

  /** The layer: the inputs and kernels of the last forward pass. */
  class ConvolutionLayer {
    var input: Option<seq<Matrix>>
    var kernels: Option<seq<Matrix>>

    /** `new ConvolutionLayer()`: nothing cached yet. */
    constructor ()
      ensures input.None? && kernels.None?
    {
      input := None;
      kernels := None;
    }

    /** `forwardPropagation(inputs, kernels)`: caches both arrays and returns
        `|kernels| * |inputs|` maps, the map at slot `i * |inputs| + j` being the convolution
        of input `j` with kernel `i`. */
    method ForwardPropagation(inputs: seq<Matrix>, kernels: seq<Matrix>) returns (maps: seq<Matrix>)
      requires forall i, j :: 0 <= i < |kernels| && 0 <= j < |inputs| ==> Convolvable(inputs[j], kernels[i])
      modifies this
      ensures this.input == Some(inputs) && this.kernels == Some(kernels)
      ensures |maps| == |kernels| * |inputs|
      ensures forall k :: 0 <= k < |maps| ==> fresh(maps[k]) && fresh(maps[k].data)
      ensures forall i, j :: 0 <= i < |kernels| && 0 <= j < |inputs| ==>
        Slot(i, j, |inputs|) < |maps| && IsConvolution(maps[Slot(i, j, |inputs|)], inputs[j], kernels[i])
    {
      this.input := Some(inputs);
      this.kernels := Some(kernels);
      maps := ConvolveEach(inputs, kernels);
    }

    /** `backwardsPropagation(delta)`: `null` unless there is one delta per forward output;
        otherwise one gradient matrix per cached input, each shaped like its input. Each
        gradient starts from a randomly filled matrix and receives, for every window the
        loops visit and every kernel, a block of a kernel gradient that itself starts from
        random values, so only the shapes are determined. */
    method BackwardsPropagation(delta: seq<Matrix>) returns (r: Option<seq<Matrix>>)
      requires input.Some? && kernels.Some?
      requires |delta| == |input.value| * |kernels.value| ==> BackwardReady(input.value, kernels.value, delta)
      ensures r.None? <==> |delta| != |input.value| * |kernels.value|
      ensures r.Some? ==> |r.value| == |input.value|
      ensures r.Some? ==> forall i :: 0 <= i < |r.value| ==>
        fresh(r.value[i]) && fresh(r.value[i].data) && r.value[i].Valid() &&
        r.value[i].rows == input.value[i].rows && r.value[i].cols == input.value[i].cols
    {
      var inputs := input.value;
      if |delta| != |inputs| * |kernels.value| {
        return None;
      }
      var deltaInput: seq<Matrix> := [];
      var i := 0;
      while i < |inputs|
        invariant i <= |inputs| && |deltaInput| == i
        invariant forall a :: 0 <= a < i ==>
          fresh(deltaInput[a]) && fresh(deltaInput[a].data) && deltaInput[a].Valid() &&
          deltaInput[a].rows == inputs[a].rows && deltaInput[a].cols == inputs[a].cols
      {
        var di := InputGradient(inputs, kernels.value, delta, i);
        deltaInput := deltaInput + [di];
        i := i + 1;
      }
      return Some(deltaInput);
    }
  }

  /** What the backward pass needs to run without an exception: valid matrices, square
      kernels no larger than the first one (whose extent bounds the window loops), and for
      every input whose windows are visited, deltas large enough to be read at every
      window's corner. */
  predicate BackwardReady(inputs: seq<Matrix>, kernels: seq<Matrix>, delta: seq<Matrix>) {
    (forall m :: m in inputs ==> m.Valid()) &&
    (|inputs| > 0 ==> |kernels| > 0) &&
    (|kernels| > 0 ==>
       (forall l :: 0 <= l < |kernels| ==>
          kernels[l].Valid() && kernels[l].rows == kernels[l].cols && kernels[l].rows <= kernels[0].rows) &&
       forall i, l :: 0 <= i < |inputs| && 0 <= l < |kernels| ==>
         Slot(i, l, |kernels|) < |delta| && delta[Slot(i, l, |kernels|)].Valid() &&
         (kernels[0].rows < inputs[i].rows && kernels[0].rows < inputs[i].cols ==>
            inputs[i].rows - kernels[0].rows <= delta[Slot(i, l, |kernels|)].rows &&
            inputs[i].cols - kernels[0].rows <= delta[Slot(i, l, |kernels|)].cols))
  }

  /** The body of the outer loop of `backwardsPropagation` for input `i`. */
  method InputGradient(inputs: seq<Matrix>, kernels: seq<Matrix>, delta: seq<Matrix>, i: nat) returns (di: Matrix)
    requires i < |inputs| && BackwardReady(inputs, kernels, delta)
    ensures fresh(di) && fresh(di.data) && di.Valid()
    ensures di.rows == inputs[i].rows && di.cols == inputs[i].cols
  {
    var input := inputs[i];
    di := new Matrix.Random(input.rows, input.cols);
    var size := kernels[0].rows;
    var row := 0;
    while row + size < input.rows
      invariant fresh(di.data)
    {
      var column := 0;
      while column + size < input.cols
        invariant fresh(di.data)
      {
        var l := 0;
        while l < |kernels|
          invariant fresh(di.data)
        {
          var kernel := kernels[l];
          var deltaKernel := new Matrix.Random(kernel.rows, kernel.cols);
          var region := input.SubMatrix(row, column, kernel.rows, kernel.cols);
          assert region.Some?;
          SlotIsIndex(i, l, |kernels|);
          var d := delta[Slot(i, l, |kernels|)].Get(row, column);
          region.value.MultiplyScalar(d);
          deltaKernel.AddMatrix(region.value);
          CopyBlock(deltaKernel.data, 0, 0, di.data, row, column, kernel.rows, kernel.rows);
          l := l + 1;
        }
        column := column + 1;
      }
      row := row + 1;
    }
  }
}
