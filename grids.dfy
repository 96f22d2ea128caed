/** Pure reference definitions for the matrix code. A matrix value is a sequence of
    rows (`Grid`); its dimensions are stated separately with `IsShape`, because a
    matrix with no rows still has a column count. Folds are left folds in row-major
    order, the order in which the nested `for` loops of the matrix classes visit
    the cells. */
module Grids {
  type Grid = seq<seq<real>>

  /** `g` has `rows` rows of `cols` entries each. */
  predicate IsShape(g: Grid, rows: int, cols: int) {
    |g| == rows && forall i :: 0 <= i < |g| ==> |g[i]| == cols
  }

  /** A `rows` x `cols` matrix with every entry `v`. */
  function Filled(rows: nat, cols: nat, v: real): (g: Grid)
    ensures IsShape(g, rows, cols)
  {
    seq(rows, _ => seq(cols, _ => v))
  }

  /** `g` surrounded by `p` rows and columns of zeros on every side. */
  function Pad(g: Grid, rows: nat, cols: nat, p: int): (h: Grid)
    requires IsShape(g, rows, cols)
    requires rows + 2 * p >= 0 && cols + 2 * p >= 0
    ensures IsShape(h, rows + 2 * p, cols + 2 * p)
  {
    seq(rows + 2 * p, i requires 0 <= i < rows + 2 * p =>
      seq(cols + 2 * p, j requires 0 <= j < cols + 2 * p =>
        if p <= i < p + rows && p <= j < p + cols then g[i - p][j - p] else 0.0))
  }

  /** The `height` x `width` block of `g` whose top-left corner is `(row, col)`. */
  function Window(g: Grid, row: nat, col: nat, height: nat, width: nat): (h: Grid)
    requires row + height <= |g|
    requires forall i :: row <= i < row + height ==> col + width <= |g[i]|
    ensures IsShape(h, height, width)
  {
    seq(height, a requires 0 <= a < height =>
      seq(width, b requires 0 <= b < width => g[row + a][col + b]))
  }

  /** Entry-wise sum of two matrices of the same shape. */
  function AddGrid(a: Grid, b: Grid, rows: nat, cols: nat): (h: Grid)
    requires IsShape(a, rows, cols) && IsShape(b, rows, cols)
    ensures IsShape(h, rows, cols)
  {
    seq(rows, i requires 0 <= i < rows => seq(cols, j requires 0 <= j < cols => a[i][j] + b[i][j]))
  }

  /** Entry-wise difference of two matrices of the same shape. */
  function SubGrid(a: Grid, b: Grid, rows: nat, cols: nat): (h: Grid)
    requires IsShape(a, rows, cols) && IsShape(b, rows, cols)
    ensures IsShape(h, rows, cols)
  {
    seq(rows, i requires 0 <= i < rows => seq(cols, j requires 0 <= j < cols => a[i][j] - b[i][j]))
  }

  /** Entry-wise (Hadamard) product of two matrices of the same shape. */
  function Hadamard(a: Grid, b: Grid, rows: nat, cols: nat): (h: Grid)
    requires IsShape(a, rows, cols) && IsShape(b, rows, cols)
    ensures IsShape(h, rows, cols)
  {
    seq(rows, i requires 0 <= i < rows => seq(cols, j requires 0 <= j < cols => a[i][j] * b[i][j]))
  }

  /** Left-to-right sum of a row, as `sum += x` computes it. */
  function SeqSum(s: seq<real>): real {
    if |s| == 0 then 0.0 else SeqSum(s[..|s| - 1]) + s[|s| - 1]
  }

  /** Row-major sum of all entries. */
  function Sum(g: Grid): real {
    if |g| == 0 then 0.0 else Sum(g[..|g| - 1]) + SeqSum(g[|g| - 1])
  }

  /** Sum of the entry-wise products: what `sumAndMultiply` computes. */
  function Dot(a: Grid, b: Grid, rows: nat, cols: nat): real
    requires IsShape(a, rows, cols) && IsShape(b, rows, cols)
  {
    Sum(Hadamard(a, b, rows, cols))
  }

  /** `Math.max` on reals. */
  function Max(a: real, b: real): real {
    if a >= b then a else b
  }

  /** The larger of two integers. */
  function MaxInt(a: int, b: int): int {
    if a >= b then a else b
  }

  /** The running maximum `m = max(m, x)` over a sequence, starting from `m`. */
  function SeqMaxFrom(s: seq<real>, m: real): real {
    if |s| == 0 then m else Max(SeqMaxFrom(s[..|s| - 1], m), s[|s| - 1])
  }

  /** The running maximum over all entries in row-major order, starting from `m`. */
  function MaxFrom(g: Grid, m: real): real {
    if |g| == 0 then m else SeqMaxFrom(g[|g| - 1], MaxFrom(g[..|g| - 1], m))
  }

  /** `v` is an entry of `g`. */
  predicate Occurs(g: Grid, v: real) {
    exists i, j :: 0 <= i < |g| && 0 <= j < |g[i]| && g[i][j] == v
  }

  /** Cell `(i, j)` comes strictly before cell `(p, q)` in row-major order. */
  predicate RowMajorBefore(i: int, j: int, p: int, q: int) {
    i < p || (i == p && j < q)
  }

  // ---- Properties of the reference definitions ----

  /** Taking the block at `(p, p)` of the original size gives the padded matrix back. */
  lemma WindowOfPad(g: Grid, rows: nat, cols: nat, p: nat)
    requires IsShape(g, rows, cols)
    ensures Window(Pad(g, rows, cols, p), p, p, rows, cols) == g
  {
    var w := Window(Pad(g, rows, cols, p), p, p, rows, cols);
    forall i | 0 <= i < rows
      ensures w[i] == g[i]
    {
      assert |w[i]| == |g[i]|;
    }
  }

  /** Every cell of the padded matrix outside the copied block is zero. */
  lemma PadBorderIsZero(g: Grid, rows: nat, cols: nat, p: nat, i: nat, j: nat)
    requires IsShape(g, rows, cols)
    requires i < rows + 2 * p && j < cols + 2 * p
    requires i < p || i >= p + rows || j < p || j >= p + cols
    ensures Pad(g, rows, cols, p)[i][j] == 0.0
  {
  }

  /** The whole matrix is a window of itself. */
  lemma WindowWhole(g: Grid, rows: nat, cols: nat)
    requires IsShape(g, rows, cols)
    ensures Window(g, 0, 0, rows, cols) == g
  {
    var w := Window(g, 0, 0, rows, cols);
    forall i | 0 <= i < rows
      ensures w[i] == g[i]
    {
      assert |w[i]| == |g[i]|;
    }
  }

  /** Subtracting `b` undoes adding `b`. */
  lemma SubUndoesAdd(a: Grid, b: Grid, rows: nat, cols: nat)
    requires IsShape(a, rows, cols) && IsShape(b, rows, cols)
    ensures SubGrid(AddGrid(a, b, rows, cols), b, rows, cols) == a
  {
    var s := SubGrid(AddGrid(a, b, rows, cols), b, rows, cols);
    forall i | 0 <= i < rows
      ensures s[i] == a[i]
    {
      assert |s[i]| == |a[i]|;
    }
  }

  /** The row sum of an entry-wise sum is the sum of the row sums. */
  lemma {:induction false} SeqSumAdd(s: seq<real>, t: seq<real>)
    requires |s| == |t|
    ensures SeqSum(seq(|s|, k requires 0 <= k < |s| => s[k] + t[k])) == SeqSum(s) + SeqSum(t)
  {
    var u := seq(|s|, k requires 0 <= k < |s| => s[k] + t[k]);
    if |s| > 0 {
      var n := |s| - 1;
      var u' := seq(n, k requires 0 <= k < n => s[..n][k] + t[..n][k]);
      assert u[..n] == u';
      SeqSumAdd(s[..n], t[..n]);
    }
  }

  /** `Sum` is additive over entry-wise addition. */
  lemma {:induction false} SumAdd(a: Grid, b: Grid, rows: nat, cols: nat)
    requires IsShape(a, rows, cols) && IsShape(b, rows, cols)
    ensures Sum(AddGrid(a, b, rows, cols)) == Sum(a) + Sum(b)
  {
    var c := AddGrid(a, b, rows, cols);
    if rows > 0 {
      var n := rows - 1;
      assert c[..n] == AddGrid(a[..n], b[..n], n, cols);
      SumAdd(a[..n], b[..n], n, cols);
      var last := seq(cols, k requires 0 <= k < cols => a[n][k] + b[n][k]);
      assert c[n] == last;
      SeqSumAdd(a[n], b[n]);
    }
  }

  /** A row of zeros sums to zero. */
  lemma {:induction false} SeqSumZeros(s: seq<real>)
    requires forall k :: 0 <= k < |s| ==> s[k] == 0.0
    ensures SeqSum(s) == 0.0
  {
    if |s| > 0 {
      SeqSumZeros(s[..|s| - 1]);
    }
  }

  /** A matrix of zeros sums to zero. */
  lemma {:induction false} SumZeros(rows: nat, cols: nat)
    ensures Sum(Filled(rows, cols, 0.0)) == 0.0
  {
    if rows > 0 {
      assert Filled(rows, cols, 0.0)[..rows - 1] == Filled(rows - 1, cols, 0.0);
      SumZeros(rows - 1, cols);
      SeqSumZeros(Filled(rows, cols, 0.0)[rows - 1]);
    }
  }

  /** The inner product with a matrix of ones is the plain sum. */
  lemma DotWithOnes(a: Grid, rows: nat, cols: nat)
    requires IsShape(a, rows, cols)
    ensures Dot(a, Filled(rows, cols, 1.0), rows, cols) == Sum(a)
  {
    var h := Hadamard(a, Filled(rows, cols, 1.0), rows, cols);
    forall i | 0 <= i < rows
      ensures h[i] == a[i]
    {
      assert |h[i]| == |a[i]|;
    }
    assert h == a;
  }

  /** The running maximum bounds its start value and every element from above. */
  lemma {:induction false} SeqMaxFromBounds(s: seq<real>, m: real)
    ensures SeqMaxFrom(s, m) >= m
    ensures forall k :: 0 <= k < |s| ==> SeqMaxFrom(s, m) >= s[k]
  {
    if |s| > 0 {
      SeqMaxFromBounds(s[..|s| - 1], m);
      assert forall k :: 0 <= k < |s| - 1 ==> s[..|s| - 1][k] == s[k];
    }
  }

  /** The running maximum is its start value or one of the elements. */
  lemma {:induction false} SeqMaxFromAttained(s: seq<real>, m: real)
    ensures SeqMaxFrom(s, m) == m || exists k :: 0 <= k < |s| && s[k] == SeqMaxFrom(s, m)
  {
    if |s| > 0 {
      var n := |s| - 1;
      SeqMaxFromAttained(s[..n], m);
      if SeqMaxFrom(s, m) != s[n] && SeqMaxFrom(s, m) != m {
        var k :| 0 <= k < n && s[..n][k] == SeqMaxFrom(s[..n], m);
        assert s[k] == SeqMaxFrom(s, m);
      }
    }
  }

  /** The row-major running maximum bounds its start value and every entry. */
  lemma {:induction false} MaxFromBounds(g: Grid, m: real)
    ensures MaxFrom(g, m) >= m
    ensures forall i, j :: 0 <= i < |g| && 0 <= j < |g[i]| ==> MaxFrom(g, m) >= g[i][j]
  {
    if |g| > 0 {
      var n := |g| - 1;
      MaxFromBounds(g[..n], m);
      SeqMaxFromBounds(g[n], MaxFrom(g[..n], m));
      assert forall i :: 0 <= i < n ==> g[..n][i] == g[i];
    }
  }

  /** The row-major running maximum is its start value or one of the entries. */
  lemma {:induction false} MaxFromAttained(g: Grid, m: real)
    ensures MaxFrom(g, m) == m || Occurs(g, MaxFrom(g, m))
  {
    if |g| > 0 {
      var n := |g| - 1;
      var prev := MaxFrom(g[..n], m);
      SeqMaxFromAttained(g[n], prev);
      if MaxFrom(g, m) == prev {
        MaxFromAttained(g[..n], m);
        if prev != m {
          var i, j :| 0 <= i < n && 0 <= j < |g[..n][i]| && g[..n][i][j] == prev;
          assert g[i][j] == MaxFrom(g, m);
        }
      } else {
        var k :| 0 <= k < |g[n]| && g[n][k] == MaxFrom(g, m);
        assert g[n][k] == MaxFrom(g, m);
      }
    }
  }

  /** When the start value is an entry, the running maximum is an entry. */
  lemma MaxFromEntryIsEntry(g: Grid, i: nat, j: nat)
    requires i < |g| && j < |g[i]|
    ensures Occurs(g, MaxFrom(g, g[i][j]))
  {
    MaxFromAttained(g, g[i][j]);
  }

  /** A vector as a one-column matrix. */
  function Column(s: seq<real>): (g: Grid)
    ensures IsShape(g, |s|, 1)
  {
    seq(|s|, k requires 0 <= k < |s| => [s[k]])
  }

  /** Summing a one-column matrix gives the sum of the vector. */
  lemma {:induction false} SumOfColumn(s: seq<real>)
    ensures Sum(Column(s)) == SeqSum(s)
  {
    if |s| > 0 {
      var n := |s| - 1;
      assert Column(s)[..n] == Column(s[..n]);
      SumOfColumn(s[..n]);
      assert SeqSum([s[n]]) == s[n] by {
        assert [s[n]][..0] == [];
      }
    }
  }

  /** A running maximum that starts above every entry never moves. */
  lemma {:induction false} MaxFromAllBelow(g: Grid, m: real)
    requires forall i, j :: 0 <= i < |g| && 0 <= j < |g[i]| ==> g[i][j] <= m
    ensures MaxFrom(g, m) == m
  {
    if |g| > 0 {
      var n := |g| - 1;
      assert forall i, j :: 0 <= i < n && 0 <= j < |g[..n][i]| ==> g[..n][i][j] == g[i][j];
      MaxFromAllBelow(g[..n], m);
      SeqMaxFromAllBelow(g[n], m);
    }
  }

  /** The same for one row. */
  lemma {:induction false} SeqMaxFromAllBelow(s: seq<real>, m: real)
    requires forall k :: 0 <= k < |s| ==> s[k] <= m
    ensures SeqMaxFrom(s, m) == m
  {
    if |s| > 0 {
      SeqMaxFromAllBelow(s[..|s| - 1], m);
    }
  }

  // ---- The index map `i * rows + j` of `toVec`, written without a product ----

  /** `i * rows`, by repeated addition, so that proofs about the index map stay linear. */
  function RowStart(i: nat, rows: nat): nat {
    if i == 0 then 0 else RowStart(i - 1, rows) + rows
  }

  /** Slot `i * rows + j` of the index map. */
  function Slot(i: nat, j: nat, rows: nat): nat {
    RowStart(i, rows) + j
  }

  /** `Slot` is the product form the source computes. */
  lemma {:induction false} SlotIsIndex(i: nat, j: nat, rows: nat)
    ensures Slot(i, j, rows) == i * rows + j
  {
    if i > 0 {
      SlotIsIndex(i - 1, j, rows);
      assert (i - 1) * rows + rows == i * rows;
    }
  }

  /** Row starts grow with the row. */
  lemma {:induction false} RowStartMonotone(p: nat, i: nat, rows: nat)
    requires p <= i
    ensures RowStart(p, rows) <= RowStart(i, rows)
  {
    if p < i {
      RowStartMonotone(p, i - 1, rows);
    }
  }

  /** With more columns per row, every row starts further on. */
  lemma {:induction false} RowStartWider(i: nat, rows: nat, cols: nat)
    requires rows <= cols
    ensures RowStart(i, rows) <= RowStart(i, cols)
  {
    if i > 0 {
      RowStartWider(i - 1, rows, cols);
    }
  }

  /** Two cells `(p, q)` and `(i, j)`, `p < i`, that share a slot: the earlier cell lies
      at least `rows` columns further right, and exactly `rows` further when it is one
      row up. */
  lemma SlotCollision(p: nat, q: nat, i: nat, j: nat, rows: nat)
    requires p < i && Slot(p, q, rows) == Slot(i, j, rows)
    ensures q >= rows + j
    ensures p + 1 == i ==> q == rows + j
  {
    RowStartMonotone(p, i - 1, rows);
  }

  /** Every slot the index map reaches lies inside a vector of `rows * cols` entries. */
  lemma SlotInRange(i: nat, j: nat, rows: nat, cols: nat)
    requires i < rows && j < cols && rows <= cols
    ensures Slot(i, j, rows) < rows * cols
  {
    RowStartMonotone(i, rows - 1, rows);
    RowStartWider(rows - 1, rows, cols);
    SlotIsIndex(rows, 0, cols);
  }

  /** Every cell of a `depth` x `rows` block lands below the block's end. */
  lemma SlotBelow(i: nat, j: nat, depth: nat, rows: nat)
    requires i < depth && j < rows
    ensures Slot(i, j, rows) < RowStart(depth, rows)
  {
    RowStartMonotone(i + 1, depth, rows);
  }

  /** Cells whose column is below `rows` never share a slot. */
  lemma SlotInjective(i: nat, j: nat, p: nat, q: nat, rows: nat)
    requires j < rows && q < rows && Slot(i, j, rows) == Slot(p, q, rows)
    ensures i == p && j == q
  {
    if i < p {
      RowStartMonotone(i + 1, p, rows);
    } else if p < i {
      RowStartMonotone(p + 1, i, rows);
    }
  }

  /** The blocks laid end to end. */
  function Concat<T>(blocks: seq<seq<T>>): seq<T> {
    if |blocks| == 0 then [] else Concat(blocks[..|blocks| - 1]) + blocks[|blocks| - 1]
  }

  /** Laid end to end, `depth` blocks of `rows` entries each put entry `j` of block `i`
      at slot `(i, j)`. */
  lemma {:induction false} ConcatSlot<T>(blocks: seq<seq<T>>, rows: nat)
    requires forall i :: 0 <= i < |blocks| ==> |blocks[i]| == rows
    ensures |Concat(blocks)| == RowStart(|blocks|, rows)
    ensures forall i, j :: 0 <= i < |blocks| && 0 <= j < rows ==>
      Slot(i, j, rows) < |Concat(blocks)| && Concat(blocks)[Slot(i, j, rows)] == blocks[i][j]
  {
    if |blocks| > 0 {
      var n := |blocks| - 1;
      var front := blocks[..n];
      ConcatSlot(front, rows);
      forall i, j | 0 <= i < |blocks| && 0 <= j < rows
        ensures Slot(i, j, rows) < |Concat(blocks)| && Concat(blocks)[Slot(i, j, rows)] == blocks[i][j]
      {
        if i < n {
          assert front[i] == blocks[i];
        }
      }
    }
  }

  /** Every slot below the end of a `depth` x `rows` block is the slot of one of its cells. */
  lemma {:induction false} SlotsCover(k: nat, depth: nat, rows: nat)
    requires k < RowStart(depth, rows)
    ensures exists i: nat, j: nat :: i < depth && j < rows && Slot(i, j, rows) == k
  {
    if k < RowStart(depth - 1, rows) {
      SlotsCover(k, depth - 1, rows);
      var i: nat, j: nat :| i < depth - 1 && j < rows && Slot(i, j, rows) == k;
      assert i < depth;
    } else {
      assert Slot(depth - 1, k - RowStart(depth - 1, rows), rows) == k;
    }
  }

  /** For a square `n` x `n` matrix every one of the `n * n` slots of the vector is the
      slot of one cell ... */
  lemma SquareSlotsCover(k: nat, n: nat)
    requires k < n * n
    ensures exists i: nat, j: nat :: i < n && j < n && Slot(i, j, n) == k
  {
    SlotIsIndex(n, 0, n);
    SlotsCover(k, n, n);
  }

  /** ... and no two cells share a slot, so the index map is a bijection. */
  lemma SquareSlotsInjective(n: nat)
    ensures forall i: nat, j: nat, p: nat, q: nat :: i < n && j < n && p < n && q < n && Slot(i, j, n) == Slot(p, q, n) ==> i == p && j == q
    ensures forall i: nat, j: nat :: i < n && j < n ==> Slot(i, j, n) < n * n
  {
    SlotIsIndex(n, 0, n);
    forall i: nat, j: nat, p: nat, q: nat | i < n && j < n && p < n && q < n && Slot(i, j, n) == Slot(p, q, n)
      ensures i == p && j == q
    {
      SlotInjective(i, j, p, q, n);
    }
    forall i: nat, j: nat | i < n && j < n
      ensures Slot(i, j, n) < n * n
    {
      SlotBelow(i, j, n, n);
    }
  }

  /** A `depth` x `rows` x `cols` block has `depth * rows * cols` slots. */
  lemma BlockSize(depth: nat, rows: nat, cols: nat)
    ensures RowStart(RowStart(depth, rows), cols) == depth * rows * cols
  {
    SlotIsIndex(depth, 0, rows);
    SlotIsIndex(depth * rows, 0, cols);
  }

  /** The three-dimensional index map `(i * rows + j) * cols + k` of `reshape` is injective
      on a `rows` x `cols` layer shape. */
  lemma BlockSlotsInjective(i: nat, j: nat, k: nat, a: nat, b: nat, c: nat, rows: nat, cols: nat)
    requires j < rows && b < rows && k < cols && c < cols
    requires Slot(Slot(i, j, rows), k, cols) == Slot(Slot(a, b, rows), c, cols)
    ensures i == a && j == b && k == c
  {
    SlotInjective(Slot(i, j, rows), k, Slot(a, b, rows), c, cols);
    SlotInjective(i, j, a, b, rows);
  }

  // ---- The matrix product of `multiplyMatrices` ----

  /** `sum over k < n of g[i][k] * g[k][j]`: entry `(i, j)` of the product of `g` with itself,
      summed over the first `n` terms. */
  function RowTimesColumn(g: Grid, i: nat, j: nat, n: nat): real
    requires i < |g| && n <= |g[i]| && n <= |g|
    requires forall k :: 0 <= k < n ==> j < |g[k]|
  {
    if n == 0 then 0.0 else RowTimesColumn(g, i, j, n - 1) + g[i][n - 1] * g[n - 1][j]
  }

  /** The `n` x `n` identity matrix. */
  function Identity(n: nat): (g: Grid)
    ensures IsShape(g, n, n)
  {
    seq(n, i requires 0 <= i < n => seq(n, j requires 0 <= j < n => if i == j then 1.0 else 0.0))
  }

  /** The partial sums of the identity times itself pick out the diagonal. */
  lemma {:induction false} IdentityRowTimesColumn(m: nat, i: nat, j: nat, n: nat)
    requires i < m && j < m && n <= m
    ensures RowTimesColumn(Identity(m), i, j, n) == if i == j && i < n then 1.0 else 0.0
  {
    if n > 0 {
      IdentityRowTimesColumn(m, i, j, n - 1);
    }
  }

  /** The identity matrix is its own square. */
  lemma IdentitySquare(n: nat, i: nat, j: nat)
    requires i < n && j < n
    ensures RowTimesColumn(Identity(n), i, j, n) == Identity(n)[i][j]
  {
    IdentityRowTimesColumn(n, i, j, n);
  }
}
