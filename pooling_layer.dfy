/** `PoolingLayer`: 2 x 2 max-pooling with stride 2, with the inputs and outputs of the
    last forward pass kept for the backward pass. */
module Pooling {
  import opened Grids
  import opened Cells
  import opened Optional
  import opened JavaArith
  import opened Linalg

  /** The output length `(n - p) / s + 1` for pool size and stride 2, in Java's truncating
      division: half the input length, except that a length of 1 gives 1. */
  function PooledLength(n: nat): (r: nat)
    ensures n != 1 ==> 2 * r <= n < 2 * r + 2
    ensures n == 1 ==> r == 1
  {
    JavaDivRemainder(n - 2, 2);
    JavaDiv(n - 2, 2) + 1
  }

  /** The output index `(i - p) / s + 1` of the window starting at offset `i`: exactly half
      an even offset, so the window at `2 * a` is written to `a`; offset 1 gives 1. */
  function OutputIndex(i: nat): (r: int)
    ensures i % 2 == 0 ==> 2 * r == i
    ensures i % 2 == 1 && i > 1 ==> 2 * r + 1 == i
    ensures i == 1 ==> r == 1
  {
    JavaDivRemainder(i - 2, 2);
    JavaDiv(i - 2, 2) + 1
  }

  /** The loops visit the windows at even offsets `i` with `i + 2 < n`; each lands inside the
      output. */
  lemma VisitedWindowInOutput(n: nat, a: nat)
    requires 2 * a + 2 < n
    ensures a < PooledLength(n)
  {
  }

  /** For an even length the strict loop bound skips the last window, so the last output
      row (or column) is never written... */
  lemma EvenLengthSkipsLastWindow(n: nat, a: nat)
    requires n >= 2 && n % 2 == 0 && 2 * a + 2 < n
    ensures a < PooledLength(n) - 1
  {
  }

  /** ...while for an odd length of at least 3 every output row receives a window. */
  lemma OddLengthCoversOutput(n: nat, a: nat)
    requires n >= 3 && n % 2 == 1 && a < PooledLength(n)
    ensures 2 * a + 2 < n
  {
  }

  /** The maximum of a 2 x 2 grid as `maxValue` finds it, starting from the top-left entry. */
  function Max2(w: Grid): real
    requires IsShape(w, 2, 2)
  {
    MaxFrom(w, w[0][0])
  }

  /** The first cell of a 2 x 2 grid, in row-major order, that holds its maximum: the cell
      `indexOfValue(maxValue())` reports. */
  function ArgMax2(w: Grid): (r: (nat, nat))
    requires IsShape(w, 2, 2)
    ensures r.0 < 2 && r.1 < 2
  {
    var m := Max2(w);
    if w[0][0] == m then (0, 0)
    else if w[0][1] == m then (0, 1)
    else if w[1][0] == m then (1, 0)
    else (1, 1)
  }

  /** `Max2` bounds every entry and is attained at `ArgMax2`, and no earlier cell attains it. */
  lemma ArgMax2IsMax(w: Grid)
    requires IsShape(w, 2, 2)
    ensures forall a, b :: 0 <= a < 2 && 0 <= b < 2 ==> w[a][b] <= Max2(w)
    ensures w[ArgMax2(w).0][ArgMax2(w).1] == Max2(w)
    ensures forall a, b :: 0 <= a < 2 && 0 <= b < 2 && RowMajorBefore(a, b, ArgMax2(w).0, ArgMax2(w).1) ==>
      w[a][b] != Max2(w)
  {
    MaxFromBounds(w, w[0][0]);
    MaxFromEntryIsEntry(w, 0, 0);
  }

  /** The first row-major occurrence of the maximum is `ArgMax2`. */
  lemma FirstMaxIsArgMax2(w: Grid, x: nat, y: nat)
    requires IsShape(w, 2, 2) && x < 2 && y < 2 && w[x][y] == Max2(w)
    requires forall a, b :: 0 <= a < 2 && 0 <= b < 2 && RowMajorBefore(a, b, x, y) ==> w[a][b] != Max2(w)
    ensures (x, y) == ArgMax2(w)
  {
    ArgMax2IsMax(w);
  }

  /** The value `maxPool` writes for the window whose top-left corner is `(i, j)`. */
  function PoolMax(g: Grid, i: nat, j: nat): real
    requires i + 2 <= |g| && forall r :: i <= r < i + 2 ==> j + 2 <= |g[r]|
  {
    Max2(Window(g, i, j, 2, 2))
  }

  /** `PoolMax` is the largest of the four entries of its window and is one of them. */
  lemma PoolMaxIsWindowMax(g: Grid, i: nat, j: nat)
    requires i + 2 <= |g| && forall r :: i <= r < i + 2 ==> j + 2 <= |g[r]|
    ensures forall r, c :: i <= r < i + 2 && j <= c < j + 2 ==> g[r][c] <= PoolMax(g, i, j)
    ensures exists r, c :: i <= r < i + 2 && j <= c < j + 2 && g[r][c] == PoolMax(g, i, j)
  {
    var w := Window(g, i, j, 2, 2);
    ArgMax2IsMax(w);
    assert forall r, c :: i <= r < i + 2 && j <= c < j + 2 ==> g[r][c] == w[r - i][c - j];
    assert w[ArgMax2(w).0][ArgMax2(w).1] == g[i + ArgMax2(w).0][j + ArgMax2(w).1];
  }

  /** `out` is what `maxPool(input)` returns: its shape follows the pooling arithmetic and
      cell `(a, b)` holds the maximum of the window at `(2a, 2b)` whenever the loops visit
      that window. The strict loop bounds skip the last window along each dimension, whose
      output cells keep their random values. */
  ghost predicate IsPooling(out: Matrix, input: Matrix)
    reads out.data, input.data
  {
    input.Valid() && out.Valid() &&
    out.rows == PooledLength(input.rows) && out.cols == PooledLength(input.cols) &&
    forall a, b :: 0 <= a && 0 <= b && 2 * a + 2 < input.rows && 2 * b + 2 < input.cols ==>
      out.data[a, b] == PoolMax(GridOf(input.data), 2 * a, 2 * b)
  }

  /** `maxPool(input)`. */
  method MaxPool(input: Matrix) returns (result: Matrix)
    requires input.Valid()
    ensures fresh(result) && fresh(result.data)
    ensures IsPooling(result, input)
  {
    var rowLength := PooledLength(input.rows);
    var columnLength := PooledLength(input.cols);
    result := new Matrix.Random(rowLength, columnLength);
    ghost var g := GridOf(input.data);
    var i := 0;
    while i + 2 < input.rows
      invariant i % 2 == 0
      invariant forall a, b :: 0 <= a && 2 * a < i && 2 * a + 2 < input.rows && 0 <= b && 2 * b + 2 < input.cols ==>
        result.data[a, b] == PoolMax(g, 2 * a, 2 * b)
    {
      PoolRow(input, result, i / 2);
      i := i + 2;
    }
  }

  /** One pass of the outer loop of `maxPool`, for the windows starting in input row
      `2 * row`: output row `row` receives their maxima, and no other row changes. */
  method PoolRow(input: Matrix, result: Matrix, row: nat)
    requires input.Valid() && result.Valid() && result.data != input.data
    requires 2 * row + 2 < input.rows
    requires result.rows == PooledLength(input.rows) && result.cols == PooledLength(input.cols)
    modifies result.data
    ensures forall a, b :: 0 <= a < result.rows && 0 <= b < result.cols && a != row ==>
      result.data[a, b] == old(result.data[a, b])
    ensures forall b :: 0 <= b && 2 * b + 2 < input.cols ==>
      result.data[row, b] == PoolMax(GridOf(input.data), 2 * row, 2 * b)
  {
    ghost var g := GridOf(input.data);
    var i := 2 * row;
    var j := 0;
    var col := 0;
    while j + 2 < input.cols
      invariant j == 2 * col
      invariant forall a, b :: 0 <= a < result.rows && 0 <= b < result.cols && a != row ==>
        result.data[a, b] == old(result.data[a, b])
      invariant forall b :: 0 <= b < col && 2 * b + 2 < input.cols ==>
        result.data[row, b] == PoolMax(g, i, 2 * b)
    {
      PoolWindow(input, result, row, col);
      j := j + 2;
      col := col + 1;
    }
  }

  /** The body of the inner loop of `maxPool`, for the window at `(2 * row, 2 * col)`:
      its maximum goes to output cell `((i - p) / s + 1, (j - p) / s + 1)`, which is
      `(row, col)`, and no other cell changes. */
  method PoolWindow(input: Matrix, result: Matrix, row: nat, col: nat)
    requires input.Valid() && result.Valid() && result.data != input.data
    requires 2 * row + 2 < input.rows && 2 * col + 2 < input.cols
    requires result.rows == PooledLength(input.rows) && result.cols == PooledLength(input.cols)
    modifies result.data
    ensures row < result.rows && col < result.cols
    ensures result.data[row, col] == PoolMax(GridOf(input.data), 2 * row, 2 * col)
    ensures forall a, b :: 0 <= a < result.rows && 0 <= b < result.cols && (a != row || b != col) ==>
      result.data[a, b] == old(result.data[a, b])
  {
    var i, j := 2 * row, 2 * col;
    var sub := input.SubMatrix(i, j, 2, 2);
    assert sub.Some?;
    var m := sub.value.MaxValue();
    assert m == PoolMax(GridOf(input.data), i, j);
    VisitedWindowInOutput(input.rows, row);
    VisitedWindowInOutput(input.cols, col);
    var a, b := OutputIndex(i), OutputIndex(j);
    assert a == row && b == col;
    result.Set(a, b, m);
  }

  /** What `backwardsPropagation` needs, once its guard has passed, to run without an
      exception: valid matrices, and deltas large enough to be read at
      `(j / 2 + 1, k / 2 + 1)` for every window `(j, k)` the loops visit. Without it the
      read `deltaMatrix.get(j / s + 1, k / s + 1)` throws an uncaught
      `ArrayIndexOutOfBoundsException`. A delta shaped like the output never suffices
      for an input with an odd side of at least 3 (see `OddSideOverrunsDelta`), so the
      pass as written rejects all such inputs. */
  predicate BackwardReady(inputs: seq<Matrix>, delta: seq<Matrix>) {
    (forall m :: m in inputs ==> m.Valid()) &&
    (forall m :: m in delta ==> m.Valid()) &&
    forall i, l :: 0 <= i < |inputs| && 0 <= l < |delta| && inputs[i].rows >= 3 && inputs[i].cols >= 3 ==>
      (inputs[i].rows - 1) / 2 < delta[l].rows && (inputs[i].cols - 1) / 2 < delta[l].cols
  }

  /** What the routed backward pass needs: one delta per input, shaped like the output
      that input pooled to. */
  predicate RouteReady(inputs: seq<Matrix>, delta: seq<Matrix>) {
    |delta| >= |inputs| &&
    forall i :: 0 <= i < |inputs| ==>
      inputs[i].Valid() && delta[i].Valid() &&
      delta[i].rows == PooledLength(inputs[i].rows) && delta[i].cols == PooledLength(inputs[i].cols)
  }

  /** The gradient the pooling backward pass is meant to produce for one input: the delta of
      window `(a, b)` goes to the first cell of that window holding its maximum, and every
      other cell, including those of the windows the loops skip, is zero. */
  function Routed(g: Grid, d: Grid, rows: nat, cols: nat, r: nat, c: nat): real
    requires IsShape(g, rows, cols) && IsShape(d, PooledLength(rows), PooledLength(cols))
    requires r < rows && c < cols
  {
    var a := Half(r);
    var b := Half(c);
    if 2 * a + 2 < rows && 2 * b + 2 < cols && ArgMax2(Window(g, 2 * a, 2 * b, 2, 2)) == (r - 2 * a, c - 2 * b)
    then d[a][b] else 0.0
  }

  /** `n / 2`, the index of the window (along one dimension) that offset `n` falls in. */
  function Half(n: nat): (h: nat)
    ensures 2 * h <= n < 2 * h + 2
  {
    if n < 2 then 0 else Half(n - 2) + 1
  }

  /** The whole routed gradient of one input. */
  function RoutedGradient(g: Grid, d: Grid, rows: nat, cols: nat): (h: Grid)
    requires IsShape(g, rows, cols) && IsShape(d, PooledLength(rows), PooledLength(cols))
    ensures IsShape(h, rows, cols)
  {
    seq(rows, r requires 0 <= r < rows => seq(cols, c requires 0 <= c < cols => Routed(g, d, rows, cols, r, c)))
  }

  /** The `ArgMax2` cell of the window at `(i, j)` holds that window's `PoolMax`. */
  lemma ArgMaxHoldsPoolMax(g: Grid, i: nat, j: nat)
    requires i + 2 <= |g| && forall r :: i <= r < i + 2 ==> j + 2 <= |g[r]|
    ensures var x := ArgMax2(Window(g, i, j, 2, 2)); g[i + x.0][j + x.1] == PoolMax(g, i, j)
  {
    var w := Window(g, i, j, 2, 2);
    ArgMax2IsMax(w);
    assert w[ArgMax2(w).0][ArgMax2(w).1] == g[i + ArgMax2(w).0][j + ArgMax2(w).1];
  }

  /** Inside a visited window the routed gradient holds the window's delta at its
      `ArgMax2` cell and zero at its other three cells. */
  lemma RoutedGradientInWindow(g: Grid, d: Grid, rows: nat, cols: nat, a: nat, b: nat)
    requires IsShape(g, rows, cols) && IsShape(d, PooledLength(rows), PooledLength(cols))
    requires 2 * a + 2 < rows && 2 * b + 2 < cols
    ensures a < |d| && b < |d[a]|
    ensures var h := RoutedGradient(g, d, rows, cols); var x := ArgMax2(Window(g, 2 * a, 2 * b, 2, 2));
      forall p, q :: 0 <= p < 2 && 0 <= q < 2 ==> h[2 * a + p][2 * b + q] == if (p, q) == x then d[a][b] else 0.0
  {
    RoutedInWindow(g, d, rows, cols, a, b);
    var h := RoutedGradient(g, d, rows, cols);
    assert forall r, c :: 2 * a <= r < 2 * a + 2 && 2 * b <= c < 2 * b + 2 ==> h[r][c] == Routed(g, d, rows, cols, r, c);
  }

  /** The routed gradient of a visited window sums to that window's delta: max-pooling
      passes each delta on undivided. */
  lemma RoutedGradientKeepsDelta(g: Grid, d: Grid, rows: nat, cols: nat, a: nat, b: nat)
    requires IsShape(g, rows, cols) && IsShape(d, PooledLength(rows), PooledLength(cols))
    requires 2 * a + 2 < rows && 2 * b + 2 < cols
    ensures Sum(Window(RoutedGradient(g, d, rows, cols), 2 * a, 2 * b, 2, 2)) == d[a][b]
  {
    RoutedGradientInWindow(g, d, rows, cols, a, b);
    WindowOneHotSum(RoutedGradient(g, d, rows, cols), 2 * a, 2 * b, ArgMax2(Window(g, 2 * a, 2 * b, 2, 2)), d[a][b]);
  }

  /** A 2 x 2 window that is zero except at one cell sums to that cell. */
  lemma WindowOneHotSum(h: Grid, i: nat, j: nat, x: (nat, nat), val: real)
    requires i + 2 <= |h| && forall r :: i <= r < i + 2 ==> j + 2 <= |h[r]|
    requires x.0 < 2 && x.1 < 2
    requires forall p, q :: 0 <= p < 2 && 0 <= q < 2 ==> h[i + p][j + q] == if (p, q) == x then val else 0.0
    ensures Sum(Window(h, i, j, 2, 2)) == val
  {
    var v := Window(h, i, j, 2, 2);
    Sum2x2(v);
    assert v[0][0] == (if x == (0, 0) then val else 0.0) by { assert v[0][0] == h[i + 0][j + 0]; }
    assert v[0][1] == (if x == (0, 1) then val else 0.0) by { assert v[0][1] == h[i + 0][j + 1]; }
    assert v[1][0] == (if x == (1, 0) then val else 0.0) by { assert v[1][0] == h[i + 1][j + 0]; }
    assert v[1][1] == (if x == (1, 1) then val else 0.0) by { assert v[1][1] == h[i + 1][j + 1]; }
  }

  /** The sum of a 2 x 2 grid is the sum of its four entries. */
  lemma Sum2x2(v: Grid)
    requires IsShape(v, 2, 2)
    ensures Sum(v) == v[0][0] + v[0][1] + v[1][0] + v[1][1]
  {
    assert v[..2] == v && v[..1][..0] == [] && v[..1][0] == v[0];
    assert Sum(v[..1]) == SeqSum(v[0]);
    SeqSum2(v[0]);
    SeqSum2(v[1]);
  }

  /** The sum of a two-entry row. */
  lemma SeqSum2(s: seq<real>)
    requires |s| == 2
    ensures SeqSum(s) == s[0] + s[1]
  {
    assert s[..1][..0] == [] && s[..1][0] == s[0];
    assert SeqSum(s[..1]) == s[0];
  }

  /** Cells outside every visited window get no gradient. */
  lemma RoutedGradientOutsideWindows(g: Grid, d: Grid, rows: nat, cols: nat, r: nat, c: nat)
    requires IsShape(g, rows, cols) && IsShape(d, PooledLength(rows), PooledLength(cols))
    requires r < rows && c < cols && (2 * Half(r) + 2 >= rows || 2 * Half(c) + 2 >= cols)
    ensures RoutedGradient(g, d, rows, cols)[r][c] == 0.0
  {
  }

  /** A 4 x 4 input of zeros and a 2 x 2 delta holding one at its top-left cell: the
      routed gradient is one at the first window's top-left cell, so it is not the
      all-zero result of the pass as written (see `ZeroInputGradients`). */
  lemma RoutedGradientNotZero()
    ensures RoutedGradient(Grids.Filled(4, 4, 0.0), [[1.0, 0.0], [0.0, 0.0]], 4, 4)[0][0] == 1.0
    ensures RoutedGradient(Grids.Filled(4, 4, 0.0), [[1.0, 0.0], [0.0, 0.0]], 4, 4) != Grids.Filled(4, 4, 0.0)
  {
    var g := Grids.Filled(4, 4, 0.0);
    assert PooledLength(4) == 2;
    var w := Window(g, 0, 0, 2, 2);
    assert w[0][0] == 0.0;
    ArgMax2IsMax(w);
    assert ArgMax2(w) == (0, 0);
    assert Grids.Filled(4, 4, 0.0)[0][0] == 0.0;
  }

  /** For an input with an odd number `n >= 3` of rows, the last window the loops visit
      starts at row `n - 3`, and the pass as written reads the delta at row
      `(n - 3) / 2 + 1`, which is `PooledLength(n)`: one past the last row of a delta
      shaped like the output. So no such delta is ready for the pass. */
  lemma {:induction false} OddSideOverrunsDelta(inputs: seq<Matrix>, delta: seq<Matrix>, i: nat, l: nat)
    requires i < |inputs| && l < |delta|
    requires inputs[i].rows >= 3 && inputs[i].cols >= 3 && inputs[i].rows % 2 == 1
    requires delta[l].rows == PooledLength(inputs[i].rows)
    ensures (inputs[i].rows - 3) % 2 == 0 && (inputs[i].rows - 3) + 2 < inputs[i].rows
    ensures (inputs[i].rows - 3) / 2 + 1 == delta[l].rows
    ensures !BackwardReady(inputs, delta)
  {
    var n := inputs[i].rows;
    assert 2 * delta[l].rows <= n < 2 * delta[l].rows + 2;
    assert (n - 1) / 2 == delta[l].rows;
  }

  /** The layer: the inputs and outputs of the last forward pass. */
  class PoolingLayer {
    var inputs: Option<seq<Matrix>>
    var output: Option<seq<Matrix>>

    /** `new PoolingLayer()`: nothing cached yet. */
    constructor ()
      ensures inputs.None? && output.None?
    {
      inputs := None;
      output := None;
    }

    /** `forwardPropagation(matrices)`: pools every matrix and caches the inputs and the
        outputs. */
    method ForwardPropagation(matrices: seq<Matrix>) returns (out: seq<Matrix>)
      requires forall m :: m in matrices ==> m.Valid()
      modifies this
      ensures inputs == Some(matrices) && output == Some(out)
      ensures |out| == |matrices|
      ensures forall i :: 0 <= i < |out| ==> fresh(out[i]) && fresh(out[i].data) && IsPooling(out[i], matrices[i])
    {
      inputs := Some(matrices);
      out := [];
      var i := 0;
      while i < |matrices|
        invariant i <= |matrices| && |out| == i && inputs == Some(matrices)
        invariant forall a :: 0 <= a < i ==> fresh(out[a]) && fresh(out[a].data) && IsPooling(out[a], matrices[a])
      {
        var m := MaxPool(matrices[i]);
        out := out + [m];
        i := i + 1;
      }
      output := Some(out);
    }

    /** `backwardsPropagation(delta)` as written: `null` when the first delta is not shaped
        like the first output; otherwise one zero-filled matrix per cached input. The loops
        write the deltas into a copy of each window, never into the returned matrices. */
    method BackwardsPropagation(delta: seq<Matrix>) returns (r: Option<seq<Matrix>>)
      requires inputs.Some? && output.Some? && |output.value| > 0 && |delta| > 0
      requires delta[0].rows == output.value[0].rows && delta[0].cols == output.value[0].cols ==>
        BackwardReady(inputs.value, delta)
      ensures r.None? <==> delta[0].rows != output.value[0].rows || delta[0].cols != output.value[0].cols
      ensures r.Some? ==> |r.value| == |inputs.value|
      ensures r.Some? ==> forall i :: 0 <= i < |r.value| ==>
        fresh(r.value[i]) && fresh(r.value[i].data) && r.value[i].Valid() &&
        r.value[i].rows == inputs.value[i].rows && r.value[i].cols == inputs.value[i].cols &&
        GridOf(r.value[i].data) == Grids.Filled(inputs.value[i].rows, inputs.value[i].cols, 0.0)
    {
      if delta[0].rows != output.value[0].rows || delta[0].cols != output.value[0].cols {
        return None;
      }
      var matrices := inputs.value;
      var newInputs: seq<Matrix> := [];
      var i := 0;
      while i < |matrices|
        invariant i <= |matrices| && |newInputs| == i
        invariant forall a :: 0 <= a < i ==>
          fresh(newInputs[a]) && fresh(newInputs[a].data) && newInputs[a].Valid() &&
          newInputs[a].rows == matrices[a].rows && newInputs[a].cols == matrices[a].cols &&
          GridOf(newInputs[a].data) == Grids.Filled(matrices[a].rows, matrices[a].cols, 0.0)
      {
        var m := InputGradient(matrices, delta, i);
        newInputs := newInputs + [m];
        i := i + 1;
      }
      return Some(newInputs);
    }

    /** The backward pass with the deltas routed into the returned matrices: the gradient
        of input `i` is `RoutedGradient` of that input and of delta `i`, which has the shape
        of output `i`. */
    method RoutedBackwardsPropagation(delta: seq<Matrix>) returns (r: Option<seq<Matrix>>)
      requires inputs.Some? && output.Some? && |output.value| > 0 && |delta| > 0
      requires delta[0].rows == output.value[0].rows && delta[0].cols == output.value[0].cols ==>
        RouteReady(inputs.value, delta)
      ensures r.None? <==> delta[0].rows != output.value[0].rows || delta[0].cols != output.value[0].cols
      ensures r.Some? ==> |r.value| == |inputs.value| && RouteReady(inputs.value, delta)
      ensures r.Some? ==> forall i :: 0 <= i < |r.value| ==>
        fresh(r.value[i]) && fresh(r.value[i].data) && r.value[i].Valid() &&
        r.value[i].rows == inputs.value[i].rows && r.value[i].cols == inputs.value[i].cols &&
        GridOf(r.value[i].data) ==
          RoutedGradient(GridOf(inputs.value[i].data), GridOf(delta[i].data), inputs.value[i].rows, inputs.value[i].cols)
    {
      if delta[0].rows != output.value[0].rows || delta[0].cols != output.value[0].cols {
        return None;
      }
      var matrices := inputs.value;
      var newInputs: seq<Matrix> := [];
      var i := 0;
      while i < |matrices|
        invariant i <= |matrices| && |newInputs| == i
        invariant forall a :: 0 <= a < i ==>
          fresh(newInputs[a]) && fresh(newInputs[a].data) && newInputs[a].Valid() &&
          newInputs[a].rows == matrices[a].rows && newInputs[a].cols == matrices[a].cols &&
          GridOf(newInputs[a].data) ==
            RoutedGradient(GridOf(matrices[a].data), GridOf(delta[a].data), matrices[a].rows, matrices[a].cols)
      {
        var m := RouteGradient(matrices[i], delta[i]);
        newInputs := newInputs + [m];
        i := i + 1;
      }
      return Some(newInputs);
    }
  }

  /** The two backward passes on a 4 x 4 input of zeros and a 2 x 2 delta holding one at
      its top-left cell: the pass as written accepts the delta and returns zeros, the
      routed pass returns the one at the top-left cell. */
  method ZeroInputGradients() returns (asWritten: Option<seq<Matrix>>, routed: Option<seq<Matrix>>)
    ensures asWritten.Some? && |asWritten.value| == 1 && asWritten.value[0].Valid()
    ensures GridOf(asWritten.value[0].data) == Grids.Filled(4, 4, 0.0)
    ensures routed.Some? && |routed.value| == 1 && routed.value[0].Valid()
    ensures routed.value[0].rows == 4 && routed.value[0].cols == 4 && routed.value[0].data[0, 0] == 1.0
  {
    var input := new Matrix.Filled(4, 4, 0.0);
    var layer := new PoolingLayer();
    var out := layer.ForwardPropagation([input]);
    var delta := TopLeftOne();
    assert PooledLength(4) == 2;
    assert BackwardReady([input], [delta]);
    asWritten := layer.BackwardsPropagation([delta]);
    routed := layer.RoutedBackwardsPropagation([delta]);
    RoutedGradientNotZero();
    assert routed.value[0].data[0, 0] == GridOf(routed.value[0].data)[0][0];
  }

  /** A new 2 x 2 matrix holding one at its top-left cell and zeros elsewhere. */
  method TopLeftOne() returns (m: Matrix)
    ensures fresh(m) && fresh(m.data) && m.Valid() && m.rows == 2 && m.cols == 2
    ensures GridOf(m.data) == [[1.0, 0.0], [0.0, 0.0]]
  {
    m := new Matrix.Filled(2, 2, 0.0);
    assert forall r, c :: 0 <= r < 2 && 0 <= c < 2 ==> m.data[r, c] == GridOf(m.data)[r][c] == 0.0;
    m.Set(0, 0, 1.0);
    assert GridOf(m.data)[0] == [1.0, 0.0] && GridOf(m.data)[1] == [0.0, 0.0];
  }

  /** The body of the outer loop of `backwardsPropagation` as written, for input `i`. */
  method InputGradient(inputs: seq<Matrix>, delta: seq<Matrix>, i: nat) returns (gradient: Matrix)
    requires i < |inputs| && BackwardReady(inputs, delta)
    ensures fresh(gradient) && fresh(gradient.data) && gradient.Valid()
    ensures gradient.rows == inputs[i].rows && gradient.cols == inputs[i].cols
    ensures GridOf(gradient.data) == Grids.Filled(inputs[i].rows, inputs[i].cols, 0.0)
  {
    var input := inputs[i];
    gradient := new Matrix.Random(input.rows, input.cols);
    gradient.FillZeros();
    var j := 0;
    while j + 2 < input.rows
      invariant j % 2 == 0
      invariant GridOf(gradient.data) == Grids.Filled(input.rows, input.cols, 0.0)
    {
      var k := 0;
      while k + 2 < input.cols
        invariant k % 2 == 0
        invariant GridOf(gradient.data) == Grids.Filled(input.rows, input.cols, 0.0)
      {
        var sub := input.SubMatrix(j, k, 2, 2);
        assert sub.Some?;
        var window := sub.value;
        WriteDeltas(window, delta, j, k);
        k := k + 2;
      }
      j := j + 2;
    }
  }

  /** The innermost loop of `backwardsPropagation` as written: for every delta in turn,
      the entry of that delta at `(j / 2 + 1, k / 2 + 1)` overwrites the cell holding the
      maximum of `window`, a copy of the input's window. Only the copy changes. */
  method WriteDeltas(window: Matrix, delta: seq<Matrix>, j: nat, k: nat)
    requires window.Valid() && window.rows == 2 && window.cols == 2
    requires forall d :: 0 <= d < |delta| ==>
      delta[d].Valid() && j / 2 + 1 < delta[d].rows && k / 2 + 1 < delta[d].cols && delta[d].data != window.data
    modifies window.data
    ensures forall r, c :: 0 <= r < 2 && 0 <= c < 2 ==>
      (window.data[r, c] == old(window.data[r, c]) ||
       exists d :: 0 <= d < |delta| && window.data[r, c] == old(delta[d].Get(j / 2 + 1, k / 2 + 1)))
    ensures |delta| > 0 ==>
      exists r, c :: 0 <= r < 2 && 0 <= c < 2 && window.data[r, c] == old(delta[|delta| - 1].Get(j / 2 + 1, k / 2 + 1))
  {
    var l := 0;
    while l < |delta|
      invariant l <= |delta|
      invariant forall r, c :: 0 <= r < 2 && 0 <= c < 2 ==>
        (window.data[r, c] == old(window.data[r, c]) ||
         exists d :: 0 <= d < l && window.data[r, c] == old(delta[d].Get(j / 2 + 1, k / 2 + 1)))
      invariant l > 0 ==>
        exists r, c :: 0 <= r < 2 && 0 <= c < 2 && window.data[r, c] == old(delta[l - 1].Get(j / 2 + 1, k / 2 + 1))
    {
      var maxValue := window.MaxValue();
      var maxIndex := window.IndexOfValue(maxValue);
      assert maxIndex.Some?;
      assert delta[l].data != window.data;
      var value := delta[l].Get(j / 2 + 1, k / 2 + 1);
      assert value == old(delta[l].Get(j / 2 + 1, k / 2 + 1));
      var (x, y) := maxIndex.value;
      label Before:
      window.Set(x, y, value);
      forall r, c | 0 <= r < 2 && 0 <= c < 2 && window.data[r, c] != old(window.data[r, c])
        ensures exists d :: 0 <= d < l + 1 && window.data[r, c] == old(delta[d].Get(j / 2 + 1, k / 2 + 1))
      {
        if r != x || c != y {
          assert window.data[r, c] == old@Before(window.data[r, c]);
        }
      }
      l := l + 1;
    }
  }

  /** The routed gradient of one input, built as the loops of `backwardsPropagation` visit
      the windows. */
  method RouteGradient(input: Matrix, delta: Matrix) returns (gradient: Matrix)
    requires input.Valid() && delta.Valid()
    requires delta.rows == PooledLength(input.rows) && delta.cols == PooledLength(input.cols)
    ensures fresh(gradient) && fresh(gradient.data) && gradient.Valid()
    ensures gradient.rows == input.rows && gradient.cols == input.cols
    ensures GridOf(gradient.data) == RoutedGradient(GridOf(input.data), GridOf(delta.data), input.rows, input.cols)
  {
    gradient := new Matrix.Random(input.rows, input.cols);
    gradient.FillZeros();
    ghost var g := GridOf(input.data);
    ghost var d := GridOf(delta.data);
    assert forall r, c :: 0 <= r < input.rows && 0 <= c < input.cols ==>
      gradient.data[r, c] == GridOf(gradient.data)[r][c] == 0.0;
    var j := 0;
    var row := 0;
    while j + 2 < input.rows
      invariant j == 2 * row && j <= input.rows
      invariant forall r, c :: 0 <= r < input.rows && 0 <= c < input.cols ==>
        gradient.data[r, c] == if r < j then Routed(g, d, input.rows, input.cols, r, c) else 0.0
    {
      RouteRow(input, delta, gradient, row);
      j := j + 2;
      row := row + 1;
    }
    forall r, c | j <= r < input.rows && 0 <= c < input.cols
      ensures Routed(g, d, input.rows, input.cols, r, c) == 0.0
    {
      assert 2 * Half(r) + 2 >= input.rows;
    }
    GridOfCells(gradient.data, RoutedGradient(g, d, input.rows, input.cols));
  }

  /** One pass of the outer loop of the routed backward pass, for the windows starting in
      input row `2 * row`: rows `2 * row` and `2 * row + 1` of `gradient`, zero before,
      receive their routed deltas, and no other row changes. */
  method RouteRow(input: Matrix, delta: Matrix, gradient: Matrix, row: nat)
    requires input.Valid() && delta.Valid() && gradient.Valid()
    requires gradient.data != input.data && gradient.data != delta.data
    requires delta.rows == PooledLength(input.rows) && delta.cols == PooledLength(input.cols)
    requires gradient.rows == input.rows && gradient.cols == input.cols
    requires 2 * row + 2 < input.rows
    requires forall r, c :: 2 * row <= r < 2 * row + 2 && 0 <= c < input.cols ==> gradient.data[r, c] == 0.0
    modifies gradient.data
    ensures forall r, c :: 0 <= r < input.rows && 0 <= c < input.cols && (r < 2 * row || r >= 2 * row + 2) ==>
      gradient.data[r, c] == old(gradient.data[r, c])
    ensures forall r, c :: 2 * row <= r < 2 * row + 2 && 0 <= c < input.cols ==>
      gradient.data[r, c] == Routed(GridOf(input.data), GridOf(delta.data), input.rows, input.cols, r, c)
  {
    ghost var g := GridOf(input.data);
    ghost var d := GridOf(delta.data);
    var j := 2 * row;
    var k := 0;
    var col := 0;
    while k + 2 < input.cols
      invariant k == 2 * col && k <= input.cols
      invariant forall r, c :: 0 <= r < input.rows && 0 <= c < input.cols && (r < j || r >= j + 2) ==>
        gradient.data[r, c] == old(gradient.data[r, c])
      invariant forall r, c :: j <= r < j + 2 && 0 <= c < input.cols ==>
        gradient.data[r, c] == if c < k then Routed(g, d, input.rows, input.cols, r, c) else 0.0
    {
      label before:
      var x := RouteWindow(input, delta, gradient, row, col);
      RoutedInWindow(g, d, input.rows, input.cols, row, col);
      assert d[row][col] == delta.data[row, col];
      forall r, c | j <= r < j + 2 && k <= c < k + 2
        ensures gradient.data[r, c] == Routed(g, d, input.rows, input.cols, r, c)
      {
        if r == j + x.0 && c == k + x.1 {
          assert gradient.data[r, c] == d[row][col];
        } else {
          assert gradient.data[r, c] == old@before(gradient.data[r, c]) == 0.0;
        }
      }
      k := k + 2;
      col := col + 1;
    }
    forall r, c | j <= r < j + 2 && k <= c < input.cols
      ensures Routed(g, d, input.rows, input.cols, r, c) == 0.0
    {
      assert 2 * Half(c) + 2 >= input.cols;
    }
  }

  /** The body of the inner loop of the routed backward pass, for the window at
      `(2 * row, 2 * col)`: the window's delta goes to the first cell holding its maximum,
      and no other cell changes. */
  method RouteWindow(input: Matrix, delta: Matrix, gradient: Matrix, row: nat, col: nat) returns (x: (nat, nat))
    requires input.Valid() && delta.Valid() && gradient.Valid()
    requires gradient.data != input.data && gradient.data != delta.data
    requires delta.rows == PooledLength(input.rows) && delta.cols == PooledLength(input.cols)
    requires gradient.rows == input.rows && gradient.cols == input.cols
    requires 2 * row + 2 < input.rows && 2 * col + 2 < input.cols
    modifies gradient.data
    ensures x == ArgMax2(Window(GridOf(input.data), 2 * row, 2 * col, 2, 2))
    ensures row < delta.rows && col < delta.cols && x.0 < 2 && x.1 < 2
    ensures gradient.data[2 * row + x.0, 2 * col + x.1] == delta.data[row, col]
    ensures forall r, c :: 0 <= r < input.rows && 0 <= c < input.cols && (r != 2 * row + x.0 || c != 2 * col + x.1) ==>
      gradient.data[r, c] == old(gradient.data[r, c])
  {
    var j := 2 * row;
    var k := 2 * col;
    x := WindowArgMax(input, j, k);
    var value := DeltaOfWindow(input, delta, row, col);
    gradient.Set(j + x.0, k + x.1, value);
  }

  /** `delta.get((j - p) / s + 1, (k - p) / s + 1)` for the window at
      `(j, k) == (2 * row, 2 * col)`: the delta at `(row, col)`. */
  method DeltaOfWindow(input: Matrix, delta: Matrix, row: nat, col: nat) returns (value: real)
    requires input.Valid() && delta.Valid()
    requires delta.rows == PooledLength(input.rows) && delta.cols == PooledLength(input.cols)
    requires 2 * row + 2 < input.rows && 2 * col + 2 < input.cols
    ensures row < delta.rows && col < delta.cols && value == delta.data[row, col]
  {
    VisitedWindowInOutput(input.rows, row);
    VisitedWindowInOutput(input.cols, col);
    var a, b := OutputIndex(2 * row), OutputIndex(2 * col);
    assert a == row && b == col;
    value := delta.Get(a, b);
  }

  /** `subMatrix(j, k, 2, 2).indexOfValue(maxValue())`: the window's `ArgMax2`. */
  method WindowArgMax(input: Matrix, j: nat, k: nat) returns (x: (nat, nat))
    requires input.Valid() && j + 2 <= input.rows && k + 2 <= input.cols
    ensures x == ArgMax2(Window(GridOf(input.data), j, k, 2, 2))
  {
    var sub := input.SubMatrix(j, k, 2, 2);
    assert sub.Some?;
    var window := sub.value;
    var maxValue := window.MaxValue();
    var maxIndex := window.IndexOfValue(maxValue);
    assert maxIndex.Some?;
    ghost var w := Window(GridOf(input.data), j, k, 2, 2);
    assert forall a, b :: 0 <= a < 2 && 0 <= b < 2 ==> window.data[a, b] == w[a][b];
    FirstMaxIsArgMax2(w, maxIndex.value.0, maxIndex.value.1);
    x := maxIndex.value;
  }

  /** Within the window at `(2 * row, 2 * col)`, `Routed` is the window's delta at its
      `ArgMax2` cell and zero elsewhere. */
  lemma RoutedInWindow(g: Grid, d: Grid, rows: nat, cols: nat, row: nat, col: nat)
    requires IsShape(g, rows, cols) && IsShape(d, PooledLength(rows), PooledLength(cols))
    requires 2 * row + 2 < rows && 2 * col + 2 < cols
    ensures row < |d| && col < |d[row]|
    ensures forall r, c :: 2 * row <= r < 2 * row + 2 && 2 * col <= c < 2 * col + 2 ==>
      Routed(g, d, rows, cols, r, c) ==
        if ArgMax2(Window(g, 2 * row, 2 * col, 2, 2)) == (r - 2 * row, c - 2 * col) then d[row][col] else 0.0
  {
    VisitedWindowInOutput(rows, row);
    VisitedWindowInOutput(cols, col);
    forall r, c | 2 * row <= r < 2 * row + 2 && 2 * col <= c < 2 * col + 2
      ensures Routed(g, d, rows, cols, r, c) ==
        if ArgMax2(Window(g, 2 * row, 2 * col, 2, 2)) == (r - 2 * row, c - 2 * col) then d[row][col] else 0.0
    {
      assert Half(r) == row && Half(c) == col;
    }
  }
}
