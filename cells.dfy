/** The nested row-major loops over a `double[][]` that both matrix classes share
    (`applyToElement`, the copy loops of `pad` and `subMatrix`, and the accumulation
    loops of `sum`, `sumAndMultiply`, `maxValue`, `indexOfValue` and `toVec`). Each
    loop works on an `array2<real>` and is specified against the definitions in
    `Grids`. */
module Cells {
  import opened Grids
  import opened Optional

  /** The current contents of `a` as a value. */
  function GridOf(a: array2<real>): (g: Grid)
    reads a
    ensures IsShape(g, a.Length0, a.Length1)
  {
    seq(a.Length0, i requires 0 <= i < a.Length0 reads a =>
      seq(a.Length1, j requires 0 <= j < a.Length1 reads a => a[i, j]))
  }

  /** Two grids with the same cells are equal. */
  lemma GridOfCells(a: array2<real>, g: Grid)
    requires IsShape(g, a.Length0, a.Length1)
    requires forall i, j :: 0 <= i < a.Length0 && 0 <= j < a.Length1 ==> a[i, j] == g[i][j]
    ensures GridOf(a) == g
  {
    var h := GridOf(a);
    forall i | 0 <= i < a.Length0
      ensures h[i] == g[i]
    {
      assert |h[i]| == |g[i]|;
    }
  }

  /** `applyToElement(f)`: every cell becomes `f` of its old value. */
  method MapCells(a: array2<real>, f: real -> real)
    modifies a
    ensures forall i, j :: 0 <= i < a.Length0 && 0 <= j < a.Length1 ==> a[i, j] == f(old(a[i, j]))
  {
    var i := 0;
    while i < a.Length0
      invariant 0 <= i <= a.Length0
      invariant forall p, q :: 0 <= p < i && 0 <= q < a.Length1 ==> a[p, q] == f(old(a[p, q]))
      invariant forall p, q :: i <= p < a.Length0 && 0 <= q < a.Length1 ==> a[p, q] == old(a[p, q])
    {
      var j := 0;
      while j < a.Length1
        invariant 0 <= j <= a.Length1
        invariant forall p, q :: 0 <= p < i && 0 <= q < a.Length1 ==> a[p, q] == f(old(a[p, q]))
        invariant forall q :: 0 <= q < j ==> a[i, q] == f(old(a[i, q]))
        invariant forall q :: j <= q < a.Length1 ==> a[i, q] == old(a[i, q])
        invariant forall p, q :: i < p < a.Length0 && 0 <= q < a.Length1 ==> a[p, q] == old(a[p, q])
      {
        a[i, j] := f(a[i, j]);
        j := j + 1;
      }
      i := i + 1;
    }
  }

  /** `applyToElement((row, col) -> op(data[row][col], other[row][col]))`. Each cell is
      read before it is written, so the result is the same when `b` is `a` itself. */
  method ZipCells(a: array2<real>, b: array2<real>, op: (real, real) -> real)
    requires a.Length0 <= b.Length0 && a.Length1 <= b.Length1
    modifies a
    ensures forall i, j :: 0 <= i < a.Length0 && 0 <= j < a.Length1 ==>
      a[i, j] == op(old(a[i, j]), old(b[i, j]))
  {
    var i := 0;
    while i < a.Length0
      invariant 0 <= i <= a.Length0
      invariant forall p, q :: 0 <= p < i && 0 <= q < a.Length1 ==> a[p, q] == op(old(a[p, q]), old(b[p, q]))
      invariant forall p, q :: i <= p < a.Length0 && 0 <= q < a.Length1 ==> a[p, q] == old(a[p, q])
      invariant forall p, q :: i <= p < b.Length0 && 0 <= q < b.Length1 ==> b[p, q] == old(b[p, q])
    {
      var j := 0;
      while j < a.Length1
        invariant 0 <= j <= a.Length1
        invariant forall p, q :: 0 <= p < i && 0 <= q < a.Length1 ==> a[p, q] == op(old(a[p, q]), old(b[p, q]))
        invariant forall q :: 0 <= q < j ==> a[i, q] == op(old(a[i, q]), old(b[i, q]))
        invariant forall q :: j <= q < a.Length1 ==> a[i, q] == old(a[i, q])
        invariant forall p, q :: i < p < a.Length0 && 0 <= q < a.Length1 ==> a[p, q] == old(a[p, q])
        invariant forall q :: j <= q < b.Length1 ==> b[i, q] == old(b[i, q])
        invariant forall p, q :: i < p < b.Length0 && 0 <= q < b.Length1 ==> b[p, q] == old(b[p, q])
      {
        a[i, j] := op(a[i, j], b[i, j]);
        j := j + 1;
      }
      i := i + 1;
    }
  }

  /** The copy loop of `pad` and `subMatrix`: the `height` x `width` block of `src` at
      `(srcRow, srcCol)` is written to `dst` at `(dstRow, dstCol)`; nothing else changes. */
  method CopyBlock(src: array2<real>, srcRow: nat, srcCol: nat,
                   dst: array2<real>, dstRow: nat, dstCol: nat, height: nat, width: nat)
    requires src != dst
    requires srcRow + height <= src.Length0 && srcCol + width <= src.Length1
    requires dstRow + height <= dst.Length0 && dstCol + width <= dst.Length1
    modifies dst
    ensures forall i, j :: 0 <= i < dst.Length0 && 0 <= j < dst.Length1 ==>
      dst[i, j] == if dstRow <= i < dstRow + height && dstCol <= j < dstCol + width
                   then src[srcRow + (i - dstRow), srcCol + (j - dstCol)]
                   else old(dst[i, j])
  {
    var a := 0;
    while a < height
      invariant 0 <= a <= height
      invariant forall i, j :: 0 <= i < dst.Length0 && 0 <= j < dst.Length1 ==>
        dst[i, j] == if dstRow <= i < dstRow + a && dstCol <= j < dstCol + width
                     then src[srcRow + (i - dstRow), srcCol + (j - dstCol)]
                     else old(dst[i, j])
    {
      var b := 0;
      while b < width
        invariant 0 <= b <= width
        invariant forall i, j :: 0 <= i < dst.Length0 && 0 <= j < dst.Length1 ==>
          dst[i, j] == if (dstRow <= i < dstRow + a && dstCol <= j < dstCol + width)
                          || (i == dstRow + a && dstCol <= j < dstCol + b)
                       then src[srcRow + (i - dstRow), srcCol + (j - dstCol)]
                       else old(dst[i, j])
      {
        dst[dstRow + a, dstCol + b] := src[srcRow + a, srcCol + b];
        b := b + 1;
      }
      a := a + 1;
    }
  }

  /** The `sum += data[i][j]` loop. */
  method SumCells(a: array2<real>) returns (s: real)
    ensures s == Sum(GridOf(a))
  {
    ghost var g := GridOf(a);
    s := 0.0;
    var i := 0;
    while i < a.Length0
      invariant 0 <= i <= a.Length0
      invariant s == Sum(g[..i])
    {
      var j := 0;
      while j < a.Length1
        invariant 0 <= j <= a.Length1
        invariant s == Sum(g[..i]) + SeqSum(g[i][..j])
      {
        assert g[i][..j + 1][..j] == g[i][..j];
        s := s + a[i, j];
        j := j + 1;
      }
      assert g[i][..j] == g[i];
      assert g[..i + 1][..i] == g[..i];
      i := i + 1;
    }
    assert g[..i] == g;
  }

  /** The `sum += data[i][j] * other[i][j]` loop over two arrays of the same shape. */
  method DotCells(a: array2<real>, b: array2<real>) returns (s: real)
    requires a.Length0 == b.Length0 && a.Length1 == b.Length1
    ensures s == Dot(GridOf(a), GridOf(b), a.Length0, a.Length1)
  {
    ghost var g := Hadamard(GridOf(a), GridOf(b), a.Length0, a.Length1);
    s := 0.0;
    var i := 0;
    while i < a.Length0
      invariant 0 <= i <= a.Length0
      invariant s == Sum(g[..i])
    {
      var j := 0;
      while j < a.Length1
        invariant 0 <= j <= a.Length1
        invariant s == Sum(g[..i]) + SeqSum(g[i][..j])
      {
        assert g[i][..j + 1][..j] == g[i][..j];
        s := s + a[i, j] * b[i, j];
        j := j + 1;
      }
      assert g[i][..j] == g[i];
      assert g[..i + 1][..i] == g[..i];
      i := i + 1;
    }
    assert g[..i] == g;
  }

  /** The `max = Math.max(max, data[i][j])` loop, starting from `start`. */
  method MaxCells(a: array2<real>, start: real) returns (m: real)
    ensures m == MaxFrom(GridOf(a), start)
  {
    ghost var g := GridOf(a);
    m := start;
    var i := 0;
    while i < a.Length0
      invariant 0 <= i <= a.Length0
      invariant m == MaxFrom(g[..i], start)
    {
      var j := 0;
      while j < a.Length1
        invariant 0 <= j <= a.Length1
        invariant m == SeqMaxFrom(g[i][..j], MaxFrom(g[..i], start))
      {
        assert g[i][..j + 1][..j] == g[i][..j];
        m := if m >= a[i, j] then m else a[i, j];
        j := j + 1;
      }
      assert g[i][..j] == g[i];
      assert g[..i + 1][..i] == g[..i];
      i := i + 1;
    }
    assert g[..i] == g;
  }

  /** The `indexOfValue` search: the first cell in row-major order that holds `v`. */
  method FirstIndexOf(a: array2<real>, v: real) returns (r: Option<(nat, nat)>)
    ensures r.None? <==> !Occurs(GridOf(a), v)
    ensures r.Some? ==> r.value.0 < a.Length0 && r.value.1 < a.Length1 && a[r.value.0, r.value.1] == v
    ensures r.Some? ==> forall p, q ::
      0 <= p < a.Length0 && 0 <= q < a.Length1 && RowMajorBefore(p, q, r.value.0, r.value.1) ==> a[p, q] != v
  {
    var i := 0;
    while i < a.Length0
      invariant 0 <= i <= a.Length0
      invariant forall p, q :: 0 <= p < i && 0 <= q < a.Length1 ==> a[p, q] != v
    {
      var j := 0;
      while j < a.Length1
        invariant 0 <= j <= a.Length1
        invariant forall q :: 0 <= q < j ==> a[i, q] != v
      {
        if a[i, j] == v {
          assert GridOf(a)[i][j] == v;
          return Some((i, j));
        }
        j := j + 1;
      }
      i := i + 1;
    }
    r := None;
    forall p, q | 0 <= p < a.Length0 && 0 <= q < a.Length1
      ensures GridOf(a)[p][q] != v
    {
    }
  }

  /** The first slot that the index map has not reached once row `i` has been written
      up to column `j`, for a matrix with at least as many columns as rows. */
  function ReachedSlots(i: nat, j: nat, rows: nat, cols: nat): nat {
    if i == 0 then j else MaxInt(Slot(i - 1, cols, rows), Slot(i, j, rows))
  }

  /** The `toVec` / `matrixToArray` loop: cell `(i, j)` is written to slot `i * rows + j`.
      When there are more columns than rows several cells share a slot and the later
      one wins: the cells that survive are those of the first `rows` columns and those
      of the last row. Slots past the last one written keep their old contents. */
  method FlattenCells(a: array2<real>, v: array<real>)
    requires a.Length0 <= a.Length1 || a.Length1 == 0
    requires v.Length == a.Length0 * a.Length1
    modifies v
    ensures forall i, j :: 0 <= i < a.Length0 && 0 <= j < a.Length1 && (j < a.Length0 || i == a.Length0 - 1) ==>
      Slot(i, j, a.Length0) < v.Length && v[Slot(i, j, a.Length0)] == a[i, j]
    ensures forall k :: ReachedSlots(a.Length0, 0, a.Length0, a.Length1) <= k < v.Length ==> v[k] == old(v[k])
  {
    var rows, cols := a.Length0, a.Length1;
    if cols == 0 {
      return;
    }
    var i := 0;
    while i < rows
      invariant 0 <= i <= rows
      invariant forall p, q :: 0 <= p < i && 0 <= q < cols && (q < rows || p + 1 >= i) ==>
        Slot(p, q, rows) < v.Length && v[Slot(p, q, rows)] == a[p, q]
      invariant forall k :: ReachedSlots(i, 0, rows, cols) <= k < v.Length ==> v[k] == old(v[k])
    {
      var j := 0;
      while j < cols
        invariant 0 <= j <= cols
        invariant forall p, q :: 0 <= p < i && 0 <= q < cols && (q < rows || p + 1 > i || (p + 1 == i && q - rows >= j)) ==>
          Slot(p, q, rows) < v.Length && v[Slot(p, q, rows)] == a[p, q]
        invariant forall q :: 0 <= q < j ==> Slot(i, q, rows) < v.Length && v[Slot(i, q, rows)] == a[i, q]
        invariant forall k :: ReachedSlots(i, j, rows, cols) <= k < v.Length ==> v[k] == old(v[k])
      {
        SlotInRange(i, j, rows, cols);
        SlotIsIndex(i, j, rows);
        v[i * rows + j] := a[i, j];
        forall p, q | 0 <= p < i && 0 <= q < cols && Slot(p, q, rows) == Slot(i, j, rows)
          ensures !(q < rows || p + 1 > i || (p + 1 == i && q - rows >= j + 1))
        {
          SlotCollision(p, q, i, j, rows);
        }
        j := j + 1;
      }
      if i > 0 {
        RowStartMonotone(i - 1, i, rows);
      }
      i := i + 1;
    }
  }

  // ---- The loops of the vector classes over a `double[]` ----

  /** `applyToElement(f)` of a vector: every element becomes `f` of its old value. */
  method MapArray(a: array<real>, f: real -> real)
    modifies a
    ensures forall k :: 0 <= k < a.Length ==> a[k] == f(old(a[k]))
  {
    var k := 0;
    while k < a.Length
      invariant 0 <= k <= a.Length
      invariant forall m :: 0 <= m < k ==> a[m] == f(old(a[m]))
      invariant forall m :: k <= m < a.Length ==> a[m] == old(a[m])
    {
      a[k] := f(a[k]);
      k := k + 1;
    }
  }

  /** `applyToElement((index, value) -> op(value, other[index]))`. Each element is read
      before it is written, so the result is the same when `b` is `a` itself. */
  method ZipArray(a: array<real>, b: array<real>, op: (real, real) -> real)
    requires a.Length <= b.Length
    modifies a
    ensures forall k :: 0 <= k < a.Length ==> a[k] == op(old(a[k]), old(b[k]))
  {
    var k := 0;
    while k < a.Length
      invariant 0 <= k <= a.Length
      invariant forall m :: 0 <= m < k ==> a[m] == op(old(a[m]), old(b[m]))
      invariant forall m :: k <= m < a.Length ==> a[m] == old(a[m])
      invariant forall m :: k <= m < b.Length ==> b[m] == old(b[m])
    {
      a[k] := op(a[k], b[k]);
      k := k + 1;
    }
  }

  /** `System.arraycopy(src, 0, dst, 0, src.length)`: the first `src.Length` elements of
      `dst` become those of `src`; the rest keep their values. Copying an array onto
      itself changes nothing. */
  method CopyPrefix(src: array<real>, dst: array<real>)
    requires src.Length <= dst.Length
    modifies dst
    ensures dst[..src.Length] == old(src[..])
    ensures dst[src.Length..] == old(dst[src.Length..])
  {
    var k := 0;
    while k < src.Length
      invariant 0 <= k <= src.Length
      invariant forall m :: 0 <= m < k ==> dst[m] == old(src[m])
      invariant forall m :: k <= m < dst.Length ==> dst[m] == old(dst[m])
      invariant forall m :: k <= m < src.Length ==> src[m] == old(src[m])
    {
      dst[k] := src[k];
      k := k + 1;
    }
  }

  /** The `for (double v : data) max = Math.max(max, v)` loop, starting from `start`. */
  method MaxArray(a: array<real>, start: real) returns (m: real)
    ensures m == SeqMaxFrom(a[..], start)
  {
    m := start;
    var k := 0;
    while k < a.Length
      invariant 0 <= k <= a.Length
      invariant m == SeqMaxFrom(a[..k], start)
    {
      assert a[..k + 1][..k] == a[..k];
      m := if m >= a[k] then m else a[k];
      k := k + 1;
    }
    assert a[..k] == a[..];
  }
}
