/** The older `util.matrix` and `util.vector` packages, kept beside `util.math` and used by
    the fully connected layer. They differ from the newer package in `maxValue` (which starts
    from `Double.MIN_VALUE`), in an unchecked `multiply(Matrix)`, in a guarded
    `copyFromVector`, and in a `dsigmoid` that builds a new matrix or vector. */
module LegacyLinalg {
  import opened Grids
  import opened Cells
  import opened Optional
  import MathUtil

  /** `2^n`. */
  function Pow2(n: nat): (r: real)
    ensures r >= 1.0
  {
    if n == 0 then 1.0 else 2.0 * Pow2(n - 1)
  }

  /** `Double.MIN_VALUE`, the smallest positive double, `2^-1074`. */
  function MinValue(): (v: real)
    ensures 0.0 < v <= 1.0
  {
    var p := Pow2(1074);
    assert 1.0 / p <= 1.0 by { assert 1.0 / p * p == 1.0; }
    1.0 / p
  }

  /** `dsigmoid` on one entry: `y * (1 - y)`, the slope of the logistic function at the
      point whose image is `y`; for an image in `(0, 1)` it lies in `(0, 1/4]`. */
  function DsigmoidOf(y: real): (d: real)
    ensures 0.0 < y < 1.0 ==> 0.0 < d <= 0.25
  {
    var e := y - 0.5;
    assert e * e >= 0.0;
    assert y * (1.0 - y) == 0.25 - e * e;
    MathUtil.Product(y, 1.0 - y)
  }

  /** Applied to a sigmoid output, `dsigmoid` is the derivative of the sigmoid at the input. */
  lemma DsigmoidOfSigmoid(x: real, exp: real -> real)
    requires MathUtil.ExpPositive(exp)
    ensures DsigmoidOf(MathUtil.SigmoidOf(x, exp)) == MathUtil.SigmoidDerivativeOf(x, exp)
  {
  }

  /** A `rows` x `cols` matrix of doubles, updated in place. */
  class Matrix {
    const rows: nat
    const cols: nat
    const data: array2<real>

    /** The backing array has the declared dimensions. */
    predicate Valid() {
      data.Length0 == rows && data.Length1 == cols
    }

    /** `new Matrix(rows, cols)`: the entries are Gaussian noise, so nothing is known of them. */
    constructor Random(rows: nat, cols: nat)
      ensures Valid() && this.rows == rows && this.cols == cols && fresh(data)
    {
      this.rows := rows;
      this.cols := cols;
      data := new real[rows, cols];
    }

    /** `new Matrix(rows, cols, value)`: every entry is `value`. */
    constructor Filled(rows: nat, cols: nat, value: real)
      ensures Valid() && this.rows == rows && this.cols == cols && fresh(data)
      ensures GridOf(data) == Grids.Filled(rows, cols, value)
    {
      this.rows := rows;
      this.cols := cols;
      data := new real[rows, cols];
      new;
      Fill(value);
    }

    /** Every entry becomes `0`. */
    method FillZeros()
      requires Valid()
      modifies data
      ensures GridOf(data) == Grids.Filled(rows, cols, 0.0)
    {
      MapCells(data, _ => 0.0);
      GridOfCells(data, Grids.Filled(rows, cols, 0.0));
    }

    /** Every entry becomes `value`. */
    method Fill(value: real)
      requires Valid()
      modifies data
      ensures GridOf(data) == Grids.Filled(rows, cols, value)
    {
      MapCells(data, _ => value);
      GridOfCells(data, Grids.Filled(rows, cols, value));
    }

    /** `add(double)`: the scalar is added to every entry. */
    method AddScalar(scalar: real)
      requires Valid()
      modifies data
      ensures forall i, j :: 0 <= i < rows && 0 <= j < cols ==> data[i, j] == old(data[i, j]) + scalar
    {
      MapCells(data, x => x + scalar);
    }

    /** `add(Matrix)`: element-wise sum; a matrix of another shape is refused and nothing
        changes. `other` may be this matrix itself. */
    method AddMatrix(other: Matrix)
      requires Valid() && other.Valid()
      modifies data
      ensures other.rows != rows || other.cols != cols ==> unchanged(data)
      ensures other.rows == rows && other.cols == cols ==>
        GridOf(data) == AddGrid(old(GridOf(data)), old(GridOf(other.data)), rows, cols)
    {
      if other.rows != rows || other.cols != cols {
        return;
      }
      ghost var g, h := GridOf(data), GridOf(other.data);
      ZipCells(data, other.data, (x, y) => x + y);
      GridOfCells(data, AddGrid(g, h, rows, cols));
    }

    /** `pad(p)`: a new matrix, `2p` larger in each dimension, holding this matrix in its
        middle and zeros around it. */
    method Pad(p: nat) returns (m: Matrix)
      requires Valid()
      ensures fresh(m) && fresh(m.data) && m.Valid()
      ensures m.rows == rows + 2 * p && m.cols == cols + 2 * p
      ensures GridOf(m.data) == Grids.Pad(GridOf(data), rows, cols, p)
    {
      m := new Matrix.Random(rows + 2 * p, cols + 2 * p);
      m.FillZeros();
      assert forall i, j :: 0 <= i < m.rows && 0 <= j < m.cols ==> m.data[i, j] == GridOf(m.data)[i][j] == 0.0;
      CopyBlock(data, 0, 0, m.data, p, p, rows, cols);
      forall i, j | 0 <= i < m.rows && 0 <= j < m.cols
        ensures m.data[i, j] == Grids.Pad(GridOf(data), rows, cols, p)[i][j]
      {
        if !(p <= i < p + rows && p <= j < p + cols) {
          PadBorderIsZero(GridOf(data), rows, cols, p, i, j);
        }
      }
      GridOfCells(m.data, Grids.Pad(GridOf(data), rows, cols, p));
    }

    /** `subtract(m)`: a new matrix, this minus `other`, or `None` when the shapes differ. */
    method Subtract(other: Matrix) returns (r: Option<Matrix>)
      requires Valid() && other.Valid()
      ensures r.None? <==> other.rows != rows || other.cols != cols
      ensures r.Some? ==> fresh(r.value) && fresh(r.value.data) && r.value.Valid()
      ensures r.Some? ==> r.value.rows == rows && r.value.cols == cols
      ensures r.Some? ==> GridOf(r.value.data) == SubGrid(GridOf(data), GridOf(other.data), rows, cols)
    {
      r := SubtractMatrices(this, other);
    }

    /** `exp()`: the exponential function is applied to every entry. */
    method Exp(exp: real -> real)
      requires Valid() && MathUtil.ExpPositive(exp)
      modifies data
      ensures forall i, j :: 0 <= i < rows && 0 <= j < cols ==> data[i, j] == MathUtil.ExpOf(old(data[i, j]), exp)
      ensures forall i, j :: 0 <= i < rows && 0 <= j < cols ==> data[i, j] > 0.0
    {
      MapCells(data, x => MathUtil.ExpOf(x, exp));
    }

    /** `maxValue()`: the scan starts from `Double.MIN_VALUE`, a tiny POSITIVE number, so
        the result is the largest entry only when some entry is at least `MIN_VALUE`; for a
        matrix of non-positive entries it is `MIN_VALUE`, which is not an entry. */
    method MaxValue() returns (m: real)
      requires Valid()
      ensures m == MaxFrom(GridOf(data), MinValue())
      ensures m >= MinValue() && forall i, j :: 0 <= i < rows && 0 <= j < cols ==> m >= data[i, j]
      ensures m == MinValue() || Occurs(GridOf(data), m)
    {
      m := MaxCells(data, MinValue());
      MaxFromBounds(GridOf(data), MinValue());
      assert forall i, j :: 0 <= i < rows && 0 <= j < cols ==> GridOf(data)[i][j] == data[i, j];
      MaxFromAttained(GridOf(data), MinValue());
    }

    /** `multiply(Matrix)`: element-wise product, with no shape check; a smaller `other`
        makes Java throw, a larger one contributes its top-left block. */
    method MultiplyMatrix(other: Matrix)
      requires Valid() && other.Valid()
      requires rows > 0 && cols > 0 ==> rows <= other.rows && cols <= other.cols
      modifies data
      ensures forall i, j :: 0 <= i < rows && 0 <= j < cols ==> data[i, j] == old(data[i, j]) * old(other.data[i, j])
    {
      if rows > 0 && cols > 0 {
        ZipCells(data, other.data, (x, y) => x * y);
      }
    }

    /** `multiply(double)`: every entry is scaled by `multiplier`. */
    method MultiplyScalar(multiplier: real)
      requires Valid()
      modifies data
      ensures forall i, j :: 0 <= i < rows && 0 <= j < cols ==> data[i, j] == old(data[i, j]) * multiplier
    {
      MapCells(data, x => x * multiplier);
    }

    /** `sigmoid()`: the logistic function `1 / (1 + exp(-x))` on every entry, leaving each in `(0, 1)`. */
    method Sigmoid(exp: real -> real)
      requires Valid() && MathUtil.ExpPositive(exp)
      modifies data
      ensures forall i, j :: 0 <= i < rows && 0 <= j < cols ==> data[i, j] == MathUtil.SigmoidOf(old(data[i, j]), exp)
      ensures forall i, j :: 0 <= i < rows && 0 <= j < cols ==> 0.0 < data[i, j] < 1.0
    {
      MapCells(data, x => MathUtil.SigmoidOf(x, exp));
    }

    /** `dsigmoid()`: a new matrix holding `x * (1 - x)` for every entry `x`; this matrix
        stays as it is. */
    method Dsigmoid() returns (t: Matrix)
      requires Valid()
      ensures fresh(t) && fresh(t.data) && t.Valid() && t.rows == rows && t.cols == cols
      ensures forall i, j :: 0 <= i < rows && 0 <= j < cols ==> t.data[i, j] == DsigmoidOf(data[i, j])
    {
      t := new Matrix.Random(rows, cols);
      var i := 0;
      while i < rows
        invariant 0 <= i <= rows
        invariant forall p, q :: 0 <= p < i && 0 <= q < cols ==> t.data[p, q] == DsigmoidOf(data[p, q])
      {
        var j := 0;
        while j < cols
          invariant 0 <= j <= cols
          invariant forall p, q :: 0 <= p < i && 0 <= q < cols ==> t.data[p, q] == DsigmoidOf(data[p, q])
          invariant forall q :: 0 <= q < j ==> t.data[i, q] == DsigmoidOf(data[i, q])
        {
          t.Set(i, j, DsigmoidOf(GetDataAtPos(i, j)));
          j := j + 1;
        }
        i := i + 1;
      }
    }

    /** `sum()`: the row-major sum of all entries. */
    method Sum() returns (s: real)
      requires Valid()
      ensures s == Grids.Sum(GridOf(data))
    {
      s := SumCells(data);
    }

    /** `sumAndMultiply(m)`: the sum of the element-wise product, or `-1` when the shapes
        differ. */
    method SumAndMultiply(other: Matrix) returns (s: real)
      requires Valid() && other.Valid()
      ensures other.rows != rows || other.cols != cols ==> s == -1.0
      ensures other.rows == rows && other.cols == cols ==> s == Dot(GridOf(data), GridOf(other.data), rows, cols)
    {
      if other.rows != rows || other.cols != cols {
        return -1.0;
      }
      s := DotCells(data, other.data);
    }

    /** `subMatrix(row, col, width, height)`: a new `width` x `height` matrix copied from
        the block starting at `(row, col)`; `width` counts rows and `height` columns.
        `None` when the block reaches past the last row or column. */
    method SubMatrix(row: int, col: int, width: int, height: int) returns (r: Option<Matrix>)
      requires Valid()
      requires row + width <= rows && col + height <= cols ==>
        width >= 0 && height >= 0 && (width > 0 && height > 0 ==> row >= 0 && col >= 0)
      ensures r.None? <==> row + width > rows || col + height > cols
      ensures r.Some? ==> fresh(r.value) && fresh(r.value.data) && r.value.Valid()
      ensures r.Some? ==> r.value.rows == width && r.value.cols == height
      ensures r.Some? && row >= 0 && col >= 0 ==> GridOf(r.value.data) == Window(GridOf(data), row, col, width, height)
    {
      if row + width > rows || col + height > cols {
        return None;
      }
      var m := new Matrix.Random(width, height);
      if width > 0 && height > 0 {
        CopyBlock(data, row, col, m.data, 0, 0, width, height);
      }
      if row >= 0 && col >= 0 {
        GridOfCells(m.data, Window(GridOf(data), row, col, width, height));
      }
      r := Some(m);
    }

    /** `toVec()`: flattens into a new vector of `rows * cols` entries, writing cell `(i, j)`
        to slot `i * rows + j`. A matrix with more rows than columns overruns the vector,
        which Java rejects with an exception. With more columns than rows, the cells with
        `j >= rows` are overwritten by later rows, except in the last row; only the
        surviving cells are promised. */
    method ToVec() returns (v: Vec)
      requires Valid()
      requires rows <= cols || cols == 0
      ensures fresh(v) && fresh(v.data) && v.data.Length == rows * cols
      ensures forall i, j :: 0 <= i < rows && 0 <= j < cols && (j < rows || i == rows - 1) ==>
        Slot(i, j, rows) < v.data.Length && v.data[Slot(i, j, rows)] == data[i, j]
    {
      v := new Vec.Random(rows * cols);
      FlattenCells(data, v.data);
    }

    /** `set(row, col, v)`: one entry changes, the others stay. */
    method Set(row: nat, col: nat, v: real)
      requires Valid() && row < rows && col < cols
      modifies data
      ensures data[row, col] == v
      ensures forall i, j :: 0 <= i < rows && 0 <= j < cols && (i != row || j != col) ==> data[i, j] == old(data[i, j])
    {
      data[row, col] := v;
    }

    /** `getDataAtPos(row, col)`. */
    function GetDataAtPos(row: nat, col: nat): (v: real)
      requires Valid() && row < rows && col < cols
      reads data
      ensures v == data[row, col]
    {
      data[row, col]
    }
  }

  /** A vector of doubles, updated in place. */
  class Vec {
    const data: array<real>

    /** `length()`. */
    function Length(): (n: nat)
      ensures n == data.Length
    {
      data.Length
    }

    /** `new Vec(length)`: the entries are random, so nothing is known of them. */
    constructor Random(length: nat)
      ensures data.Length == length && fresh(data)
    {
      data := new real[length];
    }

    /** `new Vec(length, value)`: every entry is `value`. */
    constructor Filled(length: nat, value: real)
      ensures fresh(data) && data[..] == seq(length, _ => value)
    {
      data := new real[length];
      new;
      MapArray(data, _ => value);
    }

    /** `new Vec(double[])`: the vector wraps the given array itself, not a copy, so
        changes through either are seen by both. */
    constructor FromArray(a: array<real>)
      ensures data == a
    {
      data := a;
    }

    /** `zeros()`. */
    method Zeros()
      modifies data
      ensures data[..] == seq(data.Length, _ => 0.0)
    {
      MapArray(data, _ => 0.0);
    }

    /** `add(double)`. */
    method AddScalar(scalar: real)
      modifies data
      ensures forall k :: 0 <= k < data.Length ==> data[k] == old(data[k]) + scalar
    {
      MapArray(data, x => x + scalar);
    }

    /** `add(Vec)`: element-wise sum; a vector of another length is refused and nothing
        changes. */
    method AddVec(other: Vec)
      modifies data
      ensures other.Length() != Length() ==> unchanged(data)
      ensures other.Length() == Length() ==> forall k :: 0 <= k < data.Length ==> data[k] == old(data[k]) + old(other.data[k])
    {
      if other.Length() != Length() {
        return;
      }
      ZipArray(data, other.data, (x, y) => x + y);
    }

    /** `copyFromVector(v)`: copies all of `other` over this vector when the lengths agree;
        another length is refused and nothing changes. */
    method CopyFromVector(other: Vec)
      modifies data
      ensures other.Length() != Length() ==> unchanged(data)
      ensures other.Length() == Length() ==> data[..] == old(other.data[..])
    {
      if other.Length() != Length() {
        return;
      }
      CopyPrefix(other.data, data);
      assert data[..] == data[..other.Length()];
    }

    /** `multiply(double)`. */
    method MultiplyScalar(multiplier: real)
      modifies data
      ensures forall k :: 0 <= k < data.Length ==> data[k] == old(data[k]) * multiplier
    {
      MapArray(data, x => x * multiplier);
    }

    /** `multiply(Vec)`: element-wise product; another length is refused and nothing
        changes. */
    method MultiplyVec(other: Vec)
      modifies data
      ensures other.Length() != Length() ==> unchanged(data)
      ensures other.Length() == Length() ==> forall k :: 0 <= k < data.Length ==> data[k] == old(data[k]) * old(other.data[k])
    {
      if other.Length() != Length() {
        return;
      }
      ZipArray(data, other.data, (x, y) => x * y);
    }

    /** `max()`: the largest entry; the scan starts from `data[0]`, so an empty vector has
        none. */
    method Max() returns (m: real)
      requires Length() > 0
      ensures m == SeqMaxFrom(data[..], data[0])
      ensures forall k :: 0 <= k < data.Length ==> m >= data[k]
      ensures exists k :: 0 <= k < data.Length && data[k] == m
    {
      m := MaxArray(data, data[0]);
      SeqMaxFromBounds(data[..], data[0]);
      SeqMaxFromAttained(data[..], data[0]);
    }

    /** `sigmoid()`: every entry ends in `(0, 1)`. */
    method Sigmoid(exp: real -> real)
      requires MathUtil.ExpPositive(exp)
      modifies data
      ensures forall k :: 0 <= k < data.Length ==> data[k] == MathUtil.SigmoidOf(old(data[k]), exp)
      ensures forall k :: 0 <= k < data.Length ==> 0.0 < data[k] < 1.0
    {
      MapArray(data, x => MathUtil.SigmoidOf(x, exp));
    }

    /** `dsigmoid()`: a new vector holding `x * (1 - x)` for every entry `x`; this vector
        stays as it is. */
    method Dsigmoid() returns (t: Vec)
      ensures fresh(t) && fresh(t.data) && t.Length() == Length()
      ensures forall k :: 0 <= k < Length() ==> t.data[k] == DsigmoidOf(data[k])
    {
      t := new Vec.Random(Length());
      var i := 0;
      while i < t.Length()
        invariant 0 <= i <= t.Length()
        invariant forall k :: 0 <= k < i ==> t.data[k] == DsigmoidOf(data[k])
      {
        t.Set(i, DsigmoidOf(data[i]));
        i := i + 1;
      }
    }

    /** `toMatrix()`: a new `length` x `1` matrix holding the entries as its column. */
    method ToMatrix() returns (m: Matrix)
      ensures fresh(m) && fresh(m.data) && m.Valid() && m.rows == Length() && m.cols == 1
      ensures GridOf(m.data) == Column(data[..])
    {
      m := new Matrix.Random(Length(), 1);
      var i := 0;
      while i < m.rows
        invariant 0 <= i <= m.rows
        invariant forall k :: 0 <= k < i ==> m.data[k, 0] == data[k]
      {
        m.Set(i, 0, GetValue(i));
        i := i + 1;
      }
      GridOfCells(m.data, Column(data[..]));
    }

    /** `sum()`: the sum of the entries; it equals the sum of `toMatrix()` (see
        `Grids.SumOfColumn`). */
    function Sum(): (s: real)
      reads data
      ensures s == Grids.Sum(Column(data[..]))
    {
      SumOfColumn(data[..]);
      SeqSum(data[..])
    }

    /** `exp()`: every entry ends positive. */
    method Exp(exp: real -> real)
      requires MathUtil.ExpPositive(exp)
      modifies data
      ensures forall k :: 0 <= k < data.Length ==> data[k] == MathUtil.ExpOf(old(data[k]), exp)
      ensures forall k :: 0 <= k < data.Length ==> data[k] > 0.0
    {
      MapArray(data, x => MathUtil.ExpOf(x, exp));
    }

    /** `set(index, value)`: one entry changes, the others stay. */
    method Set(index: nat, value: real)
      requires index < Length()
      modifies data
      ensures data[..] == old(data[..])[index := value]
    {
      data[index] := value;
    }

    /** `getValue(index)`. */
    function GetValue(index: nat): (v: real)
      requires index < Length()
      reads data
      ensures v == data[..][index]
    {
      data[index]
    }
  }

  // ---- MatrixUtil ----

  /** `subtractMatrices(m0, m1)`: a new matrix `m0 - m1`, or `None` when the shapes differ.
      This method, `multiplyMatrices`, `transpose` and `matrixToArray` read entries through a
      `Matrix.get` the legacy class does not declare; they are modelled with `GetDataAtPos`,
      its only entry getter. */
  method SubtractMatrices(m0: Matrix, m1: Matrix) returns (r: Option<Matrix>)
    requires m0.Valid() && m1.Valid()
    ensures r.None? <==> m0.rows != m1.rows || m0.cols != m1.cols
    ensures r.Some? ==> fresh(r.value) && fresh(r.value.data) && r.value.Valid()
    ensures r.Some? ==> r.value.rows == m0.rows && r.value.cols == m0.cols
    ensures r.Some? ==> GridOf(r.value.data) == SubGrid(GridOf(m0.data), GridOf(m1.data), m0.rows, m0.cols)
  {
    if m0.rows != m1.rows || m0.cols != m1.cols {
      return None;
    }
    var t := new Matrix.Random(m0.rows, m0.cols);
    Combine(m0, m1, t, (x, y) => x - y);
    GridOfCells(t.data, SubGrid(GridOf(m0.data), GridOf(m1.data), m0.rows, m0.cols));
    r := Some(t);
  }

  /** The loop of `subtractMatrices`: `t[i][j] = op(m0[i][j], m1[i][j])`
      into a fresh matrix `t`. */
  method Combine(m0: Matrix, m1: Matrix, t: Matrix, op: (real, real) -> real)
    requires m0.Valid() && m1.Valid() && t.Valid()
    requires m0.rows == m1.rows == t.rows && m0.cols == m1.cols == t.cols
    requires t.data != m0.data && t.data != m1.data
    modifies t.data
    ensures forall i, j :: 0 <= i < t.rows && 0 <= j < t.cols ==> t.data[i, j] == op(m0.data[i, j], m1.data[i, j])
  {
    var i := 0;
    while i < m0.rows
      invariant 0 <= i <= m0.rows
      invariant forall p, q :: 0 <= p < i && 0 <= q < t.cols ==> t.data[p, q] == op(m0.data[p, q], m1.data[p, q])
    {
      var j := 0;
      while j < m0.cols
        invariant 0 <= j <= m0.cols
        invariant forall p, q :: 0 <= p < i && 0 <= q < t.cols ==> t.data[p, q] == op(m0.data[p, q], m1.data[p, q])
        invariant forall q :: 0 <= q < j ==> t.data[i, q] == op(m0.data[i, q], m1.data[i, q])
      {
        t.Set(i, j, op(m0.GetDataAtPos(i, j), m1.GetDataAtPos(i, j)));
        j := j + 1;
      }
      i := i + 1;
    }
  }

  /** `multiplyMatrices(m0, m1)`: a new matrix whose entry `(i, j)` is
      `sum over k < cols of m0[i][k] * m0[k][j]`, the product of `m0` with ITSELF (`m1` only
      takes part in the shape check), or `None` when the shapes differ. `m0[k][j]` is read
      for every `k < cols`, so a non-empty result needs `cols <= rows`. */
  method MultiplyMatrices(m0: Matrix, m1: Matrix) returns (r: Option<Matrix>)
    requires m0.Valid() && m1.Valid()
    requires m0.rows == m1.rows && m0.cols == m1.cols && m0.rows > 0 ==> m0.cols <= m0.rows
    ensures r.None? <==> m0.rows != m1.rows || m0.cols != m1.cols
    ensures r.Some? ==> fresh(r.value) && fresh(r.value.data) && r.value.Valid()
    ensures r.Some? ==> r.value.rows == m0.rows && r.value.cols == m0.cols
    ensures r.Some? ==> forall i, j :: 0 <= i < m0.rows && 0 <= j < m0.cols ==>
      r.value.data[i, j] == RowTimesColumn(GridOf(m0.data), i, j, m0.cols)
  {
    if m0.rows != m1.rows || m0.cols != m1.cols {
      return None;
    }
    var t := new Matrix.Random(m0.rows, m0.cols);
    ghost var g := GridOf(m0.data);
    var i := 0;
    while i < t.rows
      invariant 0 <= i <= t.rows
      invariant forall p, q :: 0 <= p < i && 0 <= q < t.cols ==> t.data[p, q] == RowTimesColumn(g, p, q, m0.cols)
    {
      var j := 0;
      while j < t.cols
        invariant 0 <= j <= t.cols
        invariant forall p, q :: 0 <= p < i && 0 <= q < t.cols ==> t.data[p, q] == RowTimesColumn(g, p, q, m0.cols)
        invariant forall q :: 0 <= q < j ==> t.data[i, q] == RowTimesColumn(g, i, q, m0.cols)
      {
        var sum := RowTimesColumnOf(m0, i, j);
        t.Set(i, j, sum);
        j := j + 1;
      }
      i := i + 1;
    }
    r := Some(t);
  }

  /** The innermost loop of `multiplyMatrices`: row `i` of `m0` times its column `j`,
      summed over the first `m0.cols` terms. */
  method RowTimesColumnOf(m0: Matrix, i: nat, j: nat) returns (sum: real)
    requires m0.Valid() && i < m0.rows && j < m0.cols && m0.cols <= m0.rows
    ensures sum == RowTimesColumn(GridOf(m0.data), i, j, m0.cols)
  {
    ghost var g := GridOf(m0.data);
    sum := 0.0;
    var k := 0;
    while k < m0.cols
      invariant 0 <= k <= m0.cols
      invariant sum == RowTimesColumn(g, i, j, k)
    {
      sum := sum + m0.GetDataAtPos(i, k) * m0.GetDataAtPos(k, j);
      k := k + 1;
    }
  }

  /** `transpose(m0)`: despite its name, a new matrix of the same shape holding the same
      entries at the same positions. */
  method Transpose(m0: Matrix) returns (t: Matrix)
    requires m0.Valid()
    ensures fresh(t) && fresh(t.data) && t.Valid() && t.rows == m0.rows && t.cols == m0.cols
    ensures GridOf(t.data) == GridOf(m0.data)
  {
    t := new Matrix.Random(m0.rows, m0.cols);
    CopyBlock(m0.data, 0, 0, t.data, 0, 0, m0.rows, m0.cols);
    GridOfCells(t.data, GridOf(m0.data));
  }

  /** `from1DArray(a)`: a new one-column matrix holding `a`. */
  method From1DArray(a: array<real>) returns (m: Matrix)
    ensures fresh(m) && fresh(m.data) && m.Valid() && m.rows == a.Length && m.cols == 1
    ensures GridOf(m.data) == Column(a[..])
  {
    m := new Matrix.Random(a.Length, 1);
    var i := 0;
    while i < a.Length
      invariant 0 <= i <= a.Length
      invariant forall k :: 0 <= k < i ==> m.data[k, 0] == a[k]
    {
      m.Set(i, 0, a[i]);
      i := i + 1;
    }
    GridOfCells(m.data, Column(a[..]));
  }

  /** `from2DArray(a)`: a new `|a|` x `|a[0]|` matrix whose cell `(i, j)` is `a[i][j]` for
      every `j` inside row `i`; the cells past a shorter row keep their random value, and a
      row longer than `a[0]` overruns the matrix, which Java rejects. */
  method From2DArray(a: seq<seq<real>>) returns (m: Matrix)
    requires |a| > 0 && forall i :: 0 <= i < |a| ==> |a[i]| <= |a[0]|
    ensures fresh(m) && fresh(m.data) && m.Valid() && m.rows == |a| && m.cols == |a[0]|
    ensures forall i, j :: 0 <= i < |a| && 0 <= j < |a[i]| ==> m.data[i, j] == a[i][j]
    ensures IsShape(a, |a|, |a[0]|) ==> GridOf(m.data) == a
  {
    m := new Matrix.Random(|a|, |a[0]|);
    var i := 0;
    while i < |a|
      invariant 0 <= i <= |a|
      invariant forall p, q :: 0 <= p < i && 0 <= q < |a[p]| ==> m.data[p, q] == a[p][q]
    {
      var j := 0;
      while j < |a[i]|
        invariant 0 <= j <= |a[i]|
        invariant forall p, q :: 0 <= p < i && 0 <= q < |a[p]| ==> m.data[p, q] == a[p][q]
        invariant forall q :: 0 <= q < j ==> m.data[i, q] == a[i][q]
      {
        m.Set(i, j, a[i][j]);
        j := j + 1;
      }
      i := i + 1;
    }
    if IsShape(a, |a|, |a[0]|) {
      GridOfCells(m.data, a);
    }
  }

  /** `matrixToArray(m)`: the flattening of `toVec`, into a bare array. */
  method MatrixToArray(m: Matrix) returns (entries: array<real>)
    requires m.Valid()
    requires m.rows <= m.cols || m.cols == 0
    ensures fresh(entries) && entries.Length == m.rows * m.cols
    ensures forall i, j :: 0 <= i < m.rows && 0 <= j < m.cols && (j < m.rows || i == m.rows - 1) ==>
      Slot(i, j, m.rows) < entries.Length && entries[Slot(i, j, m.rows)] == m.data[i, j]
    ensures forall k :: ReachedSlots(m.rows, 0, m.rows, m.cols) <= k < entries.Length ==> entries[k] == 0.0
  {
    entries := new real[m.rows * m.cols](_ => 0.0);
    FlattenCells(m.data, entries);
  }

  /** `v_assign(size, value)`: a new `1` x `size` array filled with `value`. */
  method VAssign(size: nat, value: real) returns (result: array2<real>)
    ensures fresh(result) && result.Length0 == 1 && result.Length1 == size
    ensures GridOf(result) == Grids.Filled(1, size, value)
  {
    result := new real[1, size];
    MapCells(result, _ => value);
    GridOfCells(result, Grids.Filled(1, size, value));
  }

  /** `reshape(input, d, h, w)`: a new `d` x `h` x `w` array filled, in row-major order,
      from the first row of `input`: cell `(i, j, k)` takes entry `(i * h + j) * w + k`. */
  method Reshape(input: seq<seq<real>>, d: nat, h: nat, w: nat) returns (output: array3<real>)
    requires d > 0 && h > 0 && w > 0 ==> |input| > 0 && d * h * w <= |input[0]|
    ensures fresh(output) && output.Length0 == d && output.Length1 == h && output.Length2 == w
    ensures forall i, j, k :: 0 <= i < d && 0 <= j < h && 0 <= k < w ==>
      Slot(Slot(i, j, h), k, w) < |input[0]| && output[i, j, k] == input[0][Slot(Slot(i, j, h), k, w)]
  {
    output := new real[d, h, w];
    BlockSize(d, h, w);
    var index := 0;
    var i := 0;
    while i < d
      invariant 0 <= i <= d
      invariant index == RowStart(RowStart(i, h), w)
      invariant forall a, b, c :: 0 <= a < i && 0 <= b < h && 0 <= c < w ==>
        Slot(Slot(a, b, h), c, w) < |input[0]| && output[a, b, c] == input[0][Slot(Slot(a, b, h), c, w)]
    {
      var j := 0;
      while j < h
        invariant 0 <= j <= h
        invariant index == RowStart(Slot(i, j, h), w)
        invariant forall a, b, c :: 0 <= a < i && 0 <= b < h && 0 <= c < w ==>
          Slot(Slot(a, b, h), c, w) < |input[0]| && output[a, b, c] == input[0][Slot(Slot(a, b, h), c, w)]
        invariant forall b, c :: 0 <= b < j && 0 <= c < w ==>
          Slot(Slot(i, b, h), c, w) < |input[0]| && output[i, b, c] == input[0][Slot(Slot(i, b, h), c, w)]
      {
        SlotBelow(i, j, d, h);
        var k := 0;
        while k < w
          invariant 0 <= k <= w
          invariant index == Slot(Slot(i, j, h), k, w)
          invariant forall a, b, c :: 0 <= a < i && 0 <= b < h && 0 <= c < w ==>
            Slot(Slot(a, b, h), c, w) < |input[0]| && output[a, b, c] == input[0][Slot(Slot(a, b, h), c, w)]
          invariant forall b, c :: 0 <= b < j && 0 <= c < w ==>
            Slot(Slot(i, b, h), c, w) < |input[0]| && output[i, b, c] == input[0][Slot(Slot(i, b, h), c, w)]
          invariant forall c :: 0 <= c < k ==>
            Slot(Slot(i, j, h), c, w) < |input[0]| && output[i, j, c] == input[0][Slot(Slot(i, j, h), c, w)]
        {
          SlotBelow(Slot(i, j, h), k, RowStart(d, h), w);
          output[i, j, k] := input[0][index];
          index := index + 1;
          k := k + 1;
        }
        j := j + 1;
      }
      i := i + 1;
    }
  }
}
