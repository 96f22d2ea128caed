# A verified model of a hand-written convolutional neural network

This project models, in Dafny, the core of a small Java convolutional neural network for
grayscale images. It covers:

- the dense matrix and vector containers, in the current `util.math` package and in the
  older `util.matrix` / `util.vector` package that the fully-connected layer still uses;
- the convolution layer: "same" zero padding, cross-correlation with a kernel, and the
  forward cache;
- the 2 x 2, stride-2 max-pooling layer and its backward pass;
- the fully-connected layer, with its bias slot and its length guard;
- the `CNN` orchestrator: the layer stack, the stage loop, flattening of the pooled maps,
  unflattening of the error vector, test accuracy, and the structural guard;
- the scalar activation and loss functions of `MathUtil`;
- the ARGB bit packing of `ColorUtil`.

## Files

| file | module | contents |
|---|---|---|
| `option.dfy` | `Optional` | `Option`, for Java's `null` and `Optional.empty()` |
| `java_arith.dfy` | `JavaArith` | truncating integer division, 32-bit wrap-around, the `(int)` cast |
| `math_util.dfy` | `MathUtil` | the activation functions, `computeError`, `mapValue` |
| `color_util.dfy` | `ColorUtil` | pixel packing and unpacking on `bv32` |
| `grids.dfy` | `Grids` | reference definitions on `seq<seq<real>>` (padding, windows, sums, maxima, index maps) and their lemmas |
| `cells.dfy` | `Cells` | the nested `array2` / `array` loops that both matrix packages share |
| `linalg.dfy` | `Linalg` | `Matrix`, `Vec` and `MatrixUtil` of `util.math` |
| `legacy_linalg.dfy` | `LegacyLinalg` | `Matrix`, `Vec` and `MatrixUtil` of `util.matrix` / `util.vector` |
| `conv_layer.dfy` | `Convolution` | `ConvolutionLayer` |
| `pooling_layer.dfy` | `Pooling` | `PoolingLayer` |
| `fc_layer.dfy` | `FullyConnected` | `FullyConnectedLayer` |
| `cnn.dfy` | `Network` | `CNN` |

## Modelling conventions

- A Java `double` is a Dafny `real`, and an `int` is an unbounded `int`. Where 32-bit
  behaviour matters (`mapValue`'s cast and wrap-around, the pixel bit operations) it is
  written out explicitly. Java's integer `/` truncates toward zero and is modelled by
  `JavaArith.JavaDiv`.
- A matrix is a class over an `array2<real>` and a vector a class over an `array<real>`.
  Their methods update the array in place, with `modifies` clauses, exactly where the Java
  methods do. Each loop is proved against a reference function in `Grids`.
- `new Matrix(rows, cols)` and `new Vec(length)` fill their cells with random numbers. The
  model leaves the contents of a fresh array unconstrained, so it proves only what the code
  actually writes.
- An explicit error return (`null`, `-1`, `Optional.empty()`, or a silent no-op on a shape
  mismatch) is modelled as `None`, a `-1.0` result, or unchanged state. A Java runtime
  exception the code does not catch (an index out of bounds, a `NullPointerException` on a
  layer used before its forward pass, a negative array size) becomes a `requires` clause
  that rules out the input that would raise it. The `IllegalStateException` of `train` and
  `test` is their `false` / `None` result.
- `Math.exp` and `Math.tanh` are function parameters. Only the positivity of `exp` is
  assumed, through `MathUtil.ExpPositive`; sigmoid values are therefore known to lie in
  (0, 1) and nothing more.

Where the code and its documentation disagree, the model follows the code:

- The pooling layer's backward pass writes the deltas into a copy and returns all-zero
  matrices (see Findings).
- The fully-connected forward pass never reads the bias column, and on success it replaces
  its cached input, which has the bias slot, with the argument, which has none (see
  Findings).
- Flattening in `convolveInput` writes cell (k, l) of map j to index `j * rows + l` for
  every row k. Each map's last row therefore overwrites the others; the layout is not
  row-major.
- `MatrixUtil.transpose` copies its argument without transposing it, and `multiplyMatrices`
  squares its first argument and only shape-checks the second.

## Model


| member | source | states |
|---|---|---|
| JavaArith.JavaDiv | src/main/java/net/bplaced/abzzezz/network/components/ConvolutionLayer.java:26 | Java's truncating `/`: equals Dafny's `/` for a non-negative dividend and positive divisor, and is 0 whenever the dividend is smaller in magnitude than the divisor |
| JavaArith.JavaDivRemainderMagnitude | src/main/java/net/bplaced/abzzezz/network/components/ConvolutionLayer.java:26 | the remainder `a - (a / b) * b` of truncating division is the Euclidean remainder of the magnitudes with the sign of `a` |
| JavaArith.JavaDivRemainder | src/main/java/net/bplaced/abzzezz/network/components/PoolingLayer.java:21-22 | truncating division leaves a remainder with the dividend's sign and smaller in magnitude than the divisor, which fixes `(n - 2) / 2` and `(k - 1) / 2` for every sign |
| JavaArith.Wrap32 | src/main/java/net/bplaced/abzzezz/util/math/MathUtil.java:100-102 | 32-bit two's-complement wrap-around: identity inside the `int` range, and congruent to the exact result modulo 2^32 |
| JavaArith.DoubleToInt | src/main/java/net/bplaced/abzzezz/util/math/MathUtil.java:100-102 | the `(int)` cast: inside the `int` range the result differs from the double by less than 1 and lies toward zero; integral doubles are kept exactly |
| MathUtil.ExpOf | src/main/java/net/bplaced/abzzezz/util/math/MathUtil.java:10 | `Math.exp` through the given exponential is positive |
| MathUtil.SigmoidOf | src/main/java/net/bplaced/abzzezz/util/math/MathUtil.java:45-47 | `sigmoid(x) = 1 / (1 + exp(-x))` lies strictly between 0 and 1 |
| MathUtil.SigmoidDerivativeOf | src/main/java/net/bplaced/abzzezz/util/math/MathUtil.java:55-57 | `sigmoid(x) * (1 - sigmoid(x))` lies in (0, 1/4] |
| MathUtil.Max | src/main/java/net/bplaced/abzzezz/util/math/MathUtil.java:12-13 | `Math.max` is at least both arguments and equal to one of them |
| MathUtil.Apply | src/main/java/net/bplaced/abzzezz/util/math/MathUtil.java:10-15 | RELU is `max(0, x)`, non-negative, x for positive x and 0 otherwise; LEAKY_RELU is x for x >= 0 and x/100 below; SIGMOID and SOFTMAX land strictly inside (0, 1); LINEAR is the identity |
| MathUtil.ApplyDerivative | src/main/java/net/bplaced/abzzezz/util/math/MathUtil.java:10-15 | RELU's derivative is 1 for x > 0 and 0 otherwise; LEAKY_RELU's is 1 or 0.01; SIGMOID's lies in (0, 1/4]; SOFTMAX's equals SOFTMAX itself; TANH's is at most 1; LINEAR's is 1 |
| MathUtil.SigmoidAtZero | src/main/java/net/bplaced/abzzezz/util/math/MathUtil.java:10 | with exp(0) = 1, SIGMOID gives 1/2 at 0 and its derivative 1/4 |
| MathUtil.LeakyReluStatic | src/main/java/net/bplaced/abzzezz/util/math/MathUtil.java:65-67 | the static `relu` is leaky: x for x >= 0, and x/100 (strictly between x and 0) for negative x |
| MathUtil.ReluDerivativeStatic | src/main/java/net/bplaced/abzzezz/util/math/MathUtil.java:75-77 | the static `reluDerivative` is 0 or 1, and 1 exactly for positive x |
| MathUtil.Product | src/main/java/net/bplaced/abzzezz/util/math/MathUtil.java:86-88 | the sign rules of the product that `computeError` needs |
| MathUtil.ComputeError | src/main/java/net/bplaced/abzzezz/util/math/MathUtil.java:86-88 | `(e - a)^2` is never negative and is 0 if and only if e == a |
| MathUtil.ComputeErrorSymmetric | src/main/java/net/bplaced/abzzezz/util/math/MathUtil.java:86-88 | computeError(e, a) == computeError(a, e) |
| MathUtil.MapValue | src/main/java/net/bplaced/abzzezz/util/math/MathUtil.java:100-102 | for min < max, value in [min, max] and newMin <= newMax with a span that fits in an int, the result lies in [newMin, newMax] |
| MathUtil.MapValueEnds | src/main/java/net/bplaced/abzzezz/util/math/MathUtil.java:100-102 | `mapValue(min, ...)` is newMin, and `mapValue(max, ...)` is newMax whenever newMax - newMin does not overflow |
| MathUtil.MapValueOverflow | src/main/java/net/bplaced/abzzezz/util/math/MathUtil.java:100-102 | with newMin = INT_MIN and newMax = INT_MAX the wrapped span maps max to INT_MIN, not to newMax |
| ColorUtil.ConvertGrayValueToRgb | src/main/java/net/bplaced/abzzezz/util/color/ColorUtil.java:9-14 | the result is the pixel whose four bytes are all the low byte of the gray value |
| ColorUtil.GetGrayFromRgb | src/main/java/net/bplaced/abzzezz/util/color/ColorUtil.java:22-27 | the gray value lies in 0..255 |
| ColorUtil.GetRgb | src/main/java/net/bplaced/abzzezz/util/color/ColorUtil.java:35-40 | three channels, each in 0..255 |
| ColorUtil.PackOfBytes | src/main/java/net/bplaced/abzzezz/util/color/ColorUtil.java:35-40 | every 32-bit pixel is the packing of its own alpha, red, green and blue bytes (bits 24-31, 16-23, 8-15, 0-7) |
| ColorUtil.ByteAtPack | src/main/java/net/bplaced/abzzezz/util/color/ColorUtil.java:35-40 | extracting each byte of a packed pixel gives back the byte packed there |
| ColorUtil.GetRgbOfPack | src/main/java/net/bplaced/abzzezz/util/color/ColorUtil.java:35-40 | getRGB of a packed pixel is exactly its red, green and blue bytes |
| ColorUtil.GrayOfPack | src/main/java/net/bplaced/abzzezz/util/color/ColorUtil.java:22-27 | getGrayFromRGB of a packed pixel is the floor of the mean of its red, green and blue bytes |
| ColorUtil.GrayIgnoresAlpha | src/main/java/net/bplaced/abzzezz/util/color/ColorUtil.java:22-27 | the top byte never changes the gray value |
| ColorUtil.GrayRoundTrip | src/main/java/net/bplaced/abzzezz/util/color/ColorUtil.java:9-40 | getGrayFromRGB(convertGrayValueToRGB(g)) is g & 0xFF, and getRGB of it is three copies of g & 0xFF |
| Grids.Filled | src/main/java/net/bplaced/abzzezz/util/math/matrix/Matrix.java:40-45 | the constant grid has the requested shape |
| Grids.Pad | src/main/java/net/bplaced/abzzezz/util/math/matrix/Matrix.java:112-125 | the padded grid is (rows + 2p) x (cols + 2p) |
| Grids.Window | src/main/java/net/bplaced/abzzezz/util/math/matrix/Matrix.java:235-249 | the window has the requested height and width |
| Grids.AddGrid | src/main/java/net/bplaced/abzzezz/util/math/matrix/Matrix.java:88-95 | the element-wise sum keeps the shape |
| Grids.SubGrid | src/main/java/net/bplaced/abzzezz/util/math/matrix/MatrixUtil.java:17-31 | the element-wise difference keeps the shape |
| Grids.Hadamard | src/main/java/net/bplaced/abzzezz/util/math/matrix/Matrix.java:156-162 | the element-wise product keeps the shape |
| Grids.WindowOfPad | src/main/java/net/bplaced/abzzezz/util/math/matrix/Matrix.java:112-125 | the p-offset window of the padded grid is the original grid: cell (i + p, j + p) holds cell (i, j) |
| Grids.PadBorderIsZero | src/main/java/net/bplaced/abzzezz/util/math/matrix/Matrix.java:112-125 | every cell of the padded grid outside the copied block is 0 |
| Grids.WindowWhole | src/main/java/net/bplaced/abzzezz/util/math/matrix/Matrix.java:235-249 | the window at (0, 0) of the full size is the grid itself |
| Grids.SubUndoesAdd | src/main/java/net/bplaced/abzzezz/util/math/matrix/MatrixUtil.java:83-97 | subtracting b from a + b gives back a, so `subtractMatrices` undoes `addMatrices` |
| Grids.SeqSumAdd | src/main/java/net/bplaced/abzzezz/util/math/vector/Vec.java:195-197 | the sum of an element-wise sum of two rows is the sum of their sums |
| Grids.SumAdd | src/main/java/net/bplaced/abzzezz/util/math/matrix/Matrix.java:195-203 | `sum()` is additive over `add(Matrix)` |
| Grids.SeqSumZeros | src/main/java/net/bplaced/abzzezz/util/math/vector/Vec.java:195-197 | a row of zeros sums to 0 |
| Grids.SumZeros | src/main/java/net/bplaced/abzzezz/util/math/matrix/Matrix.java:61-63 | a matrix after `fillZeros()` sums to 0 |
| Grids.DotWithOnes | src/main/java/net/bplaced/abzzezz/util/math/matrix/Matrix.java:211-223 | `sumAndMultiply` with an all-ones matrix is `sum()` |
| Grids.SeqMaxFromBounds | src/main/java/net/bplaced/abzzezz/util/math/vector/Vec.java:130-136 | the running maximum is at least its start and every element |
| Grids.SeqMaxFromAttained | src/main/java/net/bplaced/abzzezz/util/math/vector/Vec.java:130-136 | the running maximum is its start or some element |
| Grids.MaxFromBounds | src/main/java/net/bplaced/abzzezz/util/math/matrix/Matrix.java:141-149 | the running maximum over the grid is at least its start and every entry |
| Grids.MaxFromAttained | src/main/java/net/bplaced/abzzezz/util/math/matrix/Matrix.java:141-149 | the running maximum is its start or occurs in the grid |
| Grids.MaxFromEntryIsEntry | src/main/java/net/bplaced/abzzezz/util/math/matrix/Matrix.java:141-149 | started from an entry, the maximum occurs in the grid |
| Grids.Column | src/main/java/net/bplaced/abzzezz/util/math/vector/Vec.java:171-177 | the one-column grid of a row is length x 1 |
| Grids.SumOfColumn | src/main/java/net/bplaced/abzzezz/util/math/vector/Vec.java:195-197 | a vector and its `toMatrix()` column have the same sum |
| Grids.MaxFromAllBelow | src/main/java/net/bplaced/abzzezz/util/matrix/Matrix.java:134-142 | when every entry is at most the start the maximum is the start: the old `maxValue` of a non-positive matrix is `Double.MIN_VALUE` |
| Grids.SeqMaxFromAllBelow | src/main/java/net/bplaced/abzzezz/util/vector/Vec.java:124-130 | when every element is at most the start the running maximum is the start |
| Grids.SlotIsIndex | src/main/java/net/bplaced/abzzezz/util/math/matrix/Matrix.java:288-307 | the slot of (i, j) is i * rows + j |
| Grids.RowStartMonotone | src/main/java/net/bplaced/abzzezz/network/CNN.java:122-129 | row starts grow with the row index |
| Grids.RowStartWider | src/main/java/net/bplaced/abzzezz/network/CNN.java:117-129 | row starts grow with the row width |
| Grids.SlotCollision | src/main/java/net/bplaced/abzzezz/util/math/matrix/Matrix.java:288-307 | if a cell of an earlier row p shares a slot with cell (i, j), its column q is at least j + rows, and exactly j + rows when p is the row just above i |
| Grids.SlotInRange | src/main/java/net/bplaced/abzzezz/util/math/matrix/Matrix.java:288-307 | with rows <= cols every slot lies below rows * cols |
| Grids.SlotBelow | src/main/java/net/bplaced/abzzezz/util/math/matrix/MatrixUtil.java:205-218 | slots of the first `depth` rows lie below `depth * rows` |
| Grids.SlotInjective | src/main/java/net/bplaced/abzzezz/util/math/matrix/Matrix.java:288-307 | with column below `rows`, the slot determines the cell |
| Grids.ConcatSlot | src/main/java/net/bplaced/abzzezz/network/components/ConvolutionLayer.java:49-55 | blocks of `rows` items laid end to end put item j of block i at slot i * rows + j |
| Grids.SlotsCover | src/main/java/net/bplaced/abzzezz/network/components/ConvolutionLayer.java:49-55 | every index below depth * rows is the slot of some cell |
| Grids.SquareSlotsCover | src/main/java/net/bplaced/abzzezz/util/math/matrix/Matrix.java:288-307 | for a square matrix `toVec` reaches every index below n * n |
| Grids.SquareSlotsInjective | src/main/java/net/bplaced/abzzezz/util/math/matrix/Matrix.java:288-307 | for a square matrix `toVec` writes distinct cells to distinct indices below n * n: a bijection |
| Grids.BlockSize | src/main/java/net/bplaced/abzzezz/util/math/matrix/MatrixUtil.java:205-218 | depth * rows * cols in nested slot form |
| Grids.BlockSlotsInjective | src/main/java/net/bplaced/abzzezz/util/math/matrix/MatrixUtil.java:205-218 | distinct (i, j, k) of the reshape read distinct entries of the input row |
| Grids.Identity | src/main/java/net/bplaced/abzzezz/util/math/matrix/MatrixUtil.java:40-57 | the identity grid is n x n |
| Grids.IdentityRowTimesColumn | src/main/java/net/bplaced/abzzezz/util/math/matrix/MatrixUtil.java:40-57 | the k-prefix self product of the identity is 1 on the diagonal inside the prefix and 0 elsewhere |
| Grids.IdentitySquare | src/main/java/net/bplaced/abzzezz/util/math/matrix/MatrixUtil.java:40-57 | `multiplyMatrices(I, _)`, which squares its first argument, gives the identity back |
| Cells.MapCells | src/main/java/net/bplaced/abzzezz/util/math/matrix/Matrix.java:315-321 | applyToElement: every cell becomes f of its old value |
| Cells.ZipCells | src/main/java/net/bplaced/abzzezz/util/math/matrix/Matrix.java:323-329 | every cell becomes op of its old value and the other array's old value |
| Cells.CopyBlock | src/main/java/net/bplaced/abzzezz/util/math/matrix/Matrix.java:112-125 | the block of the source lands at the offset in the destination and nothing else changes |
| Cells.SumCells | src/main/java/net/bplaced/abzzezz/util/math/matrix/Matrix.java:195-203 | the nested sum loop computes the grid sum |
| Cells.DotCells | src/main/java/net/bplaced/abzzezz/util/math/matrix/Matrix.java:211-223 | the nested multiply-and-sum loop computes the dot product |
| Cells.MaxCells | src/main/java/net/bplaced/abzzezz/util/math/matrix/Matrix.java:141-149 | the nested maximum loop computes the running maximum from its start |
| Cells.FirstIndexOf | src/main/java/net/bplaced/abzzezz/util/math/matrix/Matrix.java:258-267 | none if and only if the value does not occur; otherwise a cell holding it with no earlier row-major cell holding it |
| Cells.FlattenCells | src/main/java/net/bplaced/abzzezz/util/math/matrix/Matrix.java:288-307 | after the loops every cell that survives (column below rows, or last row) sits at slot i * rows + j, and slots past the last written one keep their values |
| Cells.MapArray | src/main/java/net/bplaced/abzzezz/util/math/vector/Vec.java:203-207 | every element becomes f of its old value |
| Cells.ZipArray | src/main/java/net/bplaced/abzzezz/util/math/vector/Vec.java:209-213 | every element becomes op of its old value and the other array's old element |
| Cells.CopyPrefix | src/main/java/net/bplaced/abzzezz/util/math/vector/Vec.java:90-92 | `System.arraycopy`: the prefix becomes the source and the rest stays |
| Cells.MaxArray | src/main/java/net/bplaced/abzzezz/util/math/vector/Vec.java:130-136 | the loop computes the running maximum from its start |
| Linalg.Matrix.Random | src/main/java/net/bplaced/abzzezz/util/math/matrix/Matrix.java:33-38 | the requested shape; contents unknown (random) |
| Linalg.Matrix.Filled | src/main/java/net/bplaced/abzzezz/util/math/matrix/Matrix.java:40-45 | the requested shape with every cell equal to the value |
| Linalg.Matrix.FillZeros | src/main/java/net/bplaced/abzzezz/util/math/matrix/Matrix.java:61-63 | every cell becomes 0, shape unchanged |
| Linalg.Matrix.Fill | src/main/java/net/bplaced/abzzezz/util/math/matrix/Matrix.java:70-72 | every cell becomes the value, shape unchanged |
| Linalg.Matrix.AddScalar | src/main/java/net/bplaced/abzzezz/util/math/matrix/Matrix.java:79-81 | every cell gains the scalar |
| Linalg.Matrix.AddMatrix | src/main/java/net/bplaced/abzzezz/util/math/matrix/Matrix.java:88-95 | a shape mismatch changes nothing; otherwise the contents become the element-wise sum |
| Linalg.Matrix.Pad | src/main/java/net/bplaced/abzzezz/util/math/matrix/Matrix.java:112-125 | a fresh (rows + 2p) x (cols + 2p) matrix equal to the padded grid: the original in the middle, zeros around it (see WindowOfPad and PadBorderIsZero) |
| Linalg.Matrix.Subtract | src/main/java/net/bplaced/abzzezz/util/math/matrix/Matrix.java:127-129 | none if and only if the shapes differ; otherwise a fresh matrix of the element-wise difference |
| Linalg.Matrix.Exp | src/main/java/net/bplaced/abzzezz/util/math/matrix/Matrix.java:134-136 | every cell becomes exp of its old value, hence positive |
| Linalg.Matrix.MaxValue | src/main/java/net/bplaced/abzzezz/util/math/matrix/Matrix.java:141-149 | for a non-empty matrix the result bounds every entry and occurs in the matrix |
| Linalg.Matrix.MultiplyMatrix | src/main/java/net/bplaced/abzzezz/util/math/matrix/Matrix.java:156-162 | a shape mismatch changes nothing; otherwise the contents become the element-wise product |
| Linalg.Matrix.MultiplyScalar | src/main/java/net/bplaced/abzzezz/util/math/matrix/Matrix.java:169-171 | every cell is scaled |
| Linalg.Matrix.Sigmoid | src/main/java/net/bplaced/abzzezz/util/math/matrix/Matrix.java:173-175 | every cell becomes its sigmoid, in (0, 1) |
| Linalg.Matrix.SigmoidDerivative | src/main/java/net/bplaced/abzzezz/util/math/matrix/Matrix.java:177-179 | every cell becomes the sigmoid derivative at it, in (0, 1/4] |
| Linalg.Matrix.Relu | src/main/java/net/bplaced/abzzezz/util/math/matrix/Matrix.java:181-183 | every cell becomes the leaky rectifier of it |
| Linalg.Matrix.ReluDerivative | src/main/java/net/bplaced/abzzezz/util/math/matrix/Matrix.java:185-187 | every cell becomes 1 if it was positive, else 0 |
| Linalg.Matrix.Sum | src/main/java/net/bplaced/abzzezz/util/math/matrix/Matrix.java:195-203 | the sum of all entries |
| Linalg.Matrix.SumAndMultiply | src/main/java/net/bplaced/abzzezz/util/math/matrix/Matrix.java:211-223 | -1 on a shape mismatch, else the sum of the element-wise product |
| Linalg.Matrix.SubMatrix | src/main/java/net/bplaced/abzzezz/util/math/matrix/Matrix.java:235-249 | none if and only if the block reaches past the last row or column; otherwise a fresh width x height matrix with cell (a, b) = this(row + a, col + b) |
| Linalg.Matrix.IndexOfValue | src/main/java/net/bplaced/abzzezz/util/math/matrix/Matrix.java:258-267 | empty if and only if the value does not occur; otherwise the first row-major cell holding it |
| Linalg.Matrix.ToVec | src/main/java/net/bplaced/abzzezz/util/math/matrix/Matrix.java:288-307 | a fresh vector of rows * cols entries with cell (i, j) at index i * rows + j wherever a later row does not overwrite it |
| Linalg.Matrix.GetColumn | src/main/java/net/bplaced/abzzezz/util/math/matrix/Matrix.java:343-349 | a fresh array holding column c |
| Linalg.Matrix.Set | src/main/java/net/bplaced/abzzezz/util/math/matrix/Matrix.java:351-353 | one cell changes and every other stays |
| Linalg.Matrix.Get | src/main/java/net/bplaced/abzzezz/util/math/matrix/Matrix.java:355-357 | the entry at (row, col) of the backing array |
| Linalg.Vec.Random | src/main/java/net/bplaced/abzzezz/util/math/vector/Vec.java:23-26 | the requested length; contents unknown (random) |
| Linalg.Vec.Filled | src/main/java/net/bplaced/abzzezz/util/math/vector/Vec.java:34-37 | the requested length with every element equal to the value |
| Linalg.Vec.FromArray | src/main/java/net/bplaced/abzzezz/util/math/vector/Vec.java:44-46 | the vector shares the given array |
| Linalg.Vec.Zeros | src/main/java/net/bplaced/abzzezz/util/math/vector/Vec.java:58-60 | every element becomes 0 |
| Linalg.Vec.AddScalar | src/main/java/net/bplaced/abzzezz/util/math/vector/Vec.java:67-69 | every element gains the scalar |
| Linalg.Vec.AddVec | src/main/java/net/bplaced/abzzezz/util/math/vector/Vec.java:76-82 | a length mismatch changes nothing; otherwise element-wise sum |
| Linalg.Vec.CopyFromVector | src/main/java/net/bplaced/abzzezz/util/math/vector/Vec.java:90-92 | the first other.length elements become the other vector, the rest stay; a longer other is an exception |
| Linalg.Vec.MultiplyScalar | src/main/java/net/bplaced/abzzezz/util/math/vector/Vec.java:100-102 | every element is scaled |
| Linalg.Vec.MultiplyArray | src/main/java/net/bplaced/abzzezz/util/math/vector/Vec.java:104-110 | a length mismatch changes nothing; otherwise element-wise product with the array |
| Linalg.Vec.MultiplyVec | src/main/java/net/bplaced/abzzezz/util/math/vector/Vec.java:119-125 | a length mismatch changes nothing; otherwise element-wise product |
| Linalg.Vec.Max | src/main/java/net/bplaced/abzzezz/util/math/vector/Vec.java:130-136 | for a non-empty vector the result bounds every element and equals one |
| Linalg.Vec.Relu | src/main/java/net/bplaced/abzzezz/util/math/vector/Vec.java:141-143 | every element becomes the leaky rectifier of it |
| Linalg.Vec.ReluDerivative | src/main/java/net/bplaced/abzzezz/util/math/vector/Vec.java:148-150 | every element becomes 1 if it was positive, else 0 |
| Linalg.Vec.Sigmoid | src/main/java/net/bplaced/abzzezz/util/math/vector/Vec.java:155-157 | every element becomes its sigmoid, in (0, 1) |
| Linalg.Vec.SigmoidDerivative | src/main/java/net/bplaced/abzzezz/util/math/vector/Vec.java:162-164 | every element becomes the sigmoid derivative at it, in (0, 1/4] |
| Linalg.Vec.ToMatrix | src/main/java/net/bplaced/abzzezz/util/math/vector/Vec.java:171-177 | a fresh length x 1 matrix with m(i, 0) = v(i) |
| Linalg.Vec.Exp | src/main/java/net/bplaced/abzzezz/util/math/vector/Vec.java:199-201 | every element becomes exp of its old value, hence positive |
| Linalg.Vec.Set | src/main/java/net/bplaced/abzzezz/util/math/vector/Vec.java:230-232 | one element changes and every other stays |
| Linalg.Vec.Length | src/main/java/net/bplaced/abzzezz/util/math/vector/Vec.java:238-240 | the length of the backing array |
| Linalg.Vec.Get | src/main/java/net/bplaced/abzzezz/util/math/vector/Vec.java:234-236 | entry index of the vector's contents |
| Linalg.Vec.Sum | src/main/java/net/bplaced/abzzezz/util/math/vector/Vec.java:195-197 | the sum of the entries equals the sum of the one-column matrix `toMatrix` builds from them |
| Linalg.Vec.Matches | src/main/java/net/bplaced/abzzezz/util/math/vector/Vec.java:242-252 | true if and only if the lengths agree and every element is equal |
| Linalg.SubtractMatrices | src/main/java/net/bplaced/abzzezz/util/math/matrix/MatrixUtil.java:17-31 | none if and only if the shapes differ; otherwise a fresh same-shape matrix of element-wise differences |
| Linalg.AddMatrices | src/main/java/net/bplaced/abzzezz/util/math/matrix/MatrixUtil.java:83-97 | none if and only if the shapes differ; otherwise a fresh same-shape matrix of element-wise sums |
| Linalg.Combine | src/main/java/net/bplaced/abzzezz/util/math/matrix/MatrixUtil.java:17-31 | the shared loop: every cell of the target is op of the two inputs' cells |
| Linalg.MultiplyMatrices | src/main/java/net/bplaced/abzzezz/util/math/matrix/MatrixUtil.java:40-57 | none if and only if the shapes differ; otherwise cell (i, j) is the sum over k < cols of m0(i, k) * m0(k, j), never reading m1 |
| Linalg.RowTimesColumnOf | src/main/java/net/bplaced/abzzezz/util/math/matrix/MatrixUtil.java:49-52 | the inner loop's sum is the sum over k < cols of m0(i, k) * m0(k, j) |
| Linalg.InitKernels | src/main/java/net/bplaced/abzzezz/util/math/matrix/MatrixUtil.java:66-74 | `amount` fresh, pairwise distinct size x size matrices |
| Linalg.Transpose | src/main/java/net/bplaced/abzzezz/util/math/matrix/MatrixUtil.java:105-113 | a fresh same-shape matrix with identical entries (not a transpose) |
| Linalg.From1DArray | src/main/java/net/bplaced/abzzezz/util/math/matrix/MatrixUtil.java:122-128 | a fresh n x 1 copy of the array |
| Linalg.From2DArray | src/main/java/net/bplaced/abzzezz/util/math/matrix/MatrixUtil.java:136-144 | a fresh a.length x a[0].length matrix with every cell inside row i copied; for rectangular input, equal to the input |
| Linalg.MatrixToArray | src/main/java/net/bplaced/abzzezz/util/math/matrix/MatrixUtil.java:152-161 | rows * cols entries with cell (i, j) at index i * rows + j wherever it is not overwritten, and 0 at every index past the slots the loops reach, as a new Java double array starts zero-filled |
| Linalg.SumAndMultiply | src/main/java/net/bplaced/abzzezz/util/math/matrix/MatrixUtil.java:163-175 | -1 on a shape mismatch, else the dot product; the swapped loop bounds require square (or empty) matrices |
| Linalg.Reshape | src/main/java/net/bplaced/abzzezz/util/math/matrix/MatrixUtil.java:205-218 | a fresh d x h x w array with cell (i, j, k) = input[0][i*h*w + j*w + k] |
| LegacyLinalg.Pow2 | src/main/java/net/bplaced/abzzezz/util/matrix/Matrix.java:134 | powers of two are at least 1 |
| LegacyLinalg.MinValue | src/main/java/net/bplaced/abzzezz/util/matrix/Matrix.java:134-142 | `Double.MIN_VALUE` is 2^-1074, positive and at most 1 |
| LegacyLinalg.DsigmoidOf | src/main/java/net/bplaced/abzzezz/util/matrix/Matrix.java:166-175 | y * (1 - y) lies in (0, 1/4] for y in (0, 1) |
| LegacyLinalg.DsigmoidOfSigmoid | src/main/java/net/bplaced/abzzezz/util/vector/Vec.java:136-142 | `dsigmoid` of a sigmoid output is the sigmoid derivative at the input |
| LegacyLinalg.Matrix.Random | src/main/java/net/bplaced/abzzezz/util/matrix/Matrix.java:28-33 | the requested shape; contents unknown (random) |
| LegacyLinalg.Matrix.Filled | src/main/java/net/bplaced/abzzezz/util/matrix/Matrix.java:35-40 | the requested shape with every cell equal to the value |
| LegacyLinalg.Matrix.FillZeros | src/main/java/net/bplaced/abzzezz/util/matrix/Matrix.java:55-57 | every cell becomes 0 |
| LegacyLinalg.Matrix.Fill | src/main/java/net/bplaced/abzzezz/util/matrix/Matrix.java:63-65 | every cell becomes the value |
| LegacyLinalg.Matrix.AddScalar | src/main/java/net/bplaced/abzzezz/util/matrix/Matrix.java:72-74 | every cell gains the scalar |
| LegacyLinalg.Matrix.AddMatrix | src/main/java/net/bplaced/abzzezz/util/matrix/Matrix.java:81-88 | a shape mismatch changes nothing; otherwise element-wise sum |
| LegacyLinalg.Matrix.Pad | src/main/java/net/bplaced/abzzezz/util/matrix/Matrix.java:105-118 | a fresh (rows + 2p) x (cols + 2p) matrix equal to the padded grid |
| LegacyLinalg.Matrix.Subtract | src/main/java/net/bplaced/abzzezz/util/matrix/Matrix.java:120-122 | none if and only if the shapes differ; otherwise the element-wise difference |
| LegacyLinalg.Matrix.Exp | src/main/java/net/bplaced/abzzezz/util/matrix/Matrix.java:127-129 | every cell becomes exp of its old value, hence positive |
| LegacyLinalg.Matrix.MaxValue | src/main/java/net/bplaced/abzzezz/util/matrix/Matrix.java:134-142 | the maximum of `Double.MIN_VALUE` and all entries: at least MIN_VALUE and every entry, and either MIN_VALUE or an entry |
| LegacyLinalg.Matrix.MultiplyMatrix | src/main/java/net/bplaced/abzzezz/util/matrix/Matrix.java:149-151 | no shape check: the other matrix must be at least as large, and every cell is multiplied by the other's cell at the same position |
| LegacyLinalg.Matrix.MultiplyScalar | src/main/java/net/bplaced/abzzezz/util/matrix/Matrix.java:158-160 | every cell is scaled |
| LegacyLinalg.Matrix.Sigmoid | src/main/java/net/bplaced/abzzezz/util/matrix/Matrix.java:162-164 | every cell becomes its sigmoid, in (0, 1) |
| LegacyLinalg.Matrix.Dsigmoid | src/main/java/net/bplaced/abzzezz/util/matrix/Matrix.java:166-175 | a fresh same-shape matrix of x * (1 - x) per cell; this matrix is unchanged |
| LegacyLinalg.Matrix.Sum | src/main/java/net/bplaced/abzzezz/util/matrix/Matrix.java:197-205 | the sum of all entries |
| LegacyLinalg.Matrix.SumAndMultiply | src/main/java/net/bplaced/abzzezz/util/matrix/Matrix.java:213-226 | -1 on a shape mismatch, else the sum of the element-wise product |
| LegacyLinalg.Matrix.SubMatrix | src/main/java/net/bplaced/abzzezz/util/matrix/Matrix.java:238-252 | none if and only if the block overflows; otherwise the copied window |
| LegacyLinalg.Matrix.ToVec | src/main/java/net/bplaced/abzzezz/util/matrix/Matrix.java:271-290 | rows * cols entries with cell (i, j) at index i * rows + j wherever it is not overwritten |
| LegacyLinalg.Matrix.Set | src/main/java/net/bplaced/abzzezz/util/matrix/Matrix.java:314-316 | one cell changes and every other stays |
| LegacyLinalg.Matrix.GetDataAtPos | src/main/java/net/bplaced/abzzezz/util/matrix/Matrix.java:318-320 | the entry at (row, col) of the backing array |
| LegacyLinalg.Vec.Random | src/main/java/net/bplaced/abzzezz/util/vector/Vec.java:22-25 | the requested length; contents unknown (random) |
| LegacyLinalg.Vec.Filled | src/main/java/net/bplaced/abzzezz/util/vector/Vec.java:33-36 | every element equals the value |
| LegacyLinalg.Vec.FromArray | src/main/java/net/bplaced/abzzezz/util/vector/Vec.java:43-45 | the vector shares the given array |
| LegacyLinalg.Vec.Zeros | src/main/java/net/bplaced/abzzezz/util/vector/Vec.java:57-59 | every element becomes 0 |
| LegacyLinalg.Vec.AddScalar | src/main/java/net/bplaced/abzzezz/util/vector/Vec.java:66-68 | every element gains the scalar |
| LegacyLinalg.Vec.AddVec | src/main/java/net/bplaced/abzzezz/util/vector/Vec.java:75-81 | a length mismatch changes nothing; otherwise element-wise sum |
| LegacyLinalg.Vec.CopyFromVector | src/main/java/net/bplaced/abzzezz/util/vector/Vec.java:89-95 | a length mismatch changes nothing; otherwise every element is copied |
| LegacyLinalg.Vec.MultiplyScalar | src/main/java/net/bplaced/abzzezz/util/vector/Vec.java:103-105 | every element is scaled |
| LegacyLinalg.Vec.MultiplyVec | src/main/java/net/bplaced/abzzezz/util/vector/Vec.java:113-119 | a length mismatch changes nothing; otherwise element-wise product |
| LegacyLinalg.Vec.Max | src/main/java/net/bplaced/abzzezz/util/vector/Vec.java:124-130 | for a non-empty vector the result bounds every element and equals one |
| LegacyLinalg.Vec.Sigmoid | src/main/java/net/bplaced/abzzezz/util/vector/Vec.java:132-134 | every element becomes its sigmoid, in (0, 1) |
| LegacyLinalg.Vec.Dsigmoid | src/main/java/net/bplaced/abzzezz/util/vector/Vec.java:136-142 | a fresh vector of x * (1 - x) per element; this vector is unchanged |
| LegacyLinalg.Vec.ToMatrix | src/main/java/net/bplaced/abzzezz/util/vector/Vec.java:149-155 | a fresh length x 1 matrix with m(i, 0) = v(i) |
| LegacyLinalg.Vec.Exp | src/main/java/net/bplaced/abzzezz/util/vector/Vec.java:177-179 | every element becomes exp of its old value, hence positive |
| LegacyLinalg.Vec.Set | src/main/java/net/bplaced/abzzezz/util/vector/Vec.java:208-210 | one element changes and every other stays |
| LegacyLinalg.Vec.Length | src/main/java/net/bplaced/abzzezz/util/vector/Vec.java:216-218 | the length of the backing array |
| LegacyLinalg.Vec.GetValue | src/main/java/net/bplaced/abzzezz/util/vector/Vec.java:212-214 | entry index of the vector's contents |
| LegacyLinalg.Vec.Sum | src/main/java/net/bplaced/abzzezz/util/vector/Vec.java:173-175 | the sum of the entries equals the sum of the one-column matrix `toMatrix` builds from them |
| LegacyLinalg.SubtractMatrices | src/main/java/net/bplaced/abzzezz/util/matrix/MatrixUtil.java:13-27 | none if and only if the shapes differ; otherwise a fresh matrix of element-wise differences |
| LegacyLinalg.Combine | src/main/java/net/bplaced/abzzezz/util/matrix/MatrixUtil.java:13-27 | the loop: every cell of the target is op of the two inputs' cells |
| LegacyLinalg.MultiplyMatrices | src/main/java/net/bplaced/abzzezz/util/matrix/MatrixUtil.java:36-53 | none if and only if the shapes differ; otherwise m0 times m0, m1 unread |
| LegacyLinalg.RowTimesColumnOf | src/main/java/net/bplaced/abzzezz/util/matrix/MatrixUtil.java:45-48 | the inner loop's sum is the sum over k < cols of m0(i, k) * m0(k, j) |
| LegacyLinalg.Transpose | src/main/java/net/bplaced/abzzezz/util/matrix/MatrixUtil.java:60-68 | a fresh same-shape identical copy |
| LegacyLinalg.From1DArray | src/main/java/net/bplaced/abzzezz/util/matrix/MatrixUtil.java:76-82 | a fresh n x 1 copy of the array |
| LegacyLinalg.From2DArray | src/main/java/net/bplaced/abzzezz/util/matrix/MatrixUtil.java:89-97 | a fresh a.length x a[0].length matrix with every cell inside row i copied |
| LegacyLinalg.MatrixToArray | src/main/java/net/bplaced/abzzezz/util/matrix/MatrixUtil.java:104-113 | cell (i, j) at index i * rows + j wherever it is not overwritten, and 0 at every index past the slots the loops reach, as a new Java double array starts zero-filled |
| LegacyLinalg.VAssign | src/main/java/net/bplaced/abzzezz/util/matrix/MatrixUtil.java:122-126 | a fresh 1 x size array filled with the value |
| LegacyLinalg.Reshape | src/main/java/net/bplaced/abzzezz/util/matrix/MatrixUtil.java:139-152 | cell (i, j, k) = input[0][i*h*w + j*w + k] |
| Convolution.Padding | src/main/java/net/bplaced/abzzezz/network/components/ConvolutionLayer.java:26 | p = (k - 1) / 2 in truncating division: 2p <= k - 1 < 2p + 2, and 0 for an empty kernel |
| Convolution.OddKernelKeepsLength | src/main/java/net/bplaced/abzzezz/network/components/ConvolutionLayer.java:29-30 | for an odd kernel size the output length n + 2p - k + 1 equals n (same convolution) |
| Convolution.EvenKernelShrinks | src/main/java/net/bplaced/abzzezz/network/components/ConvolutionLayer.java:29-30 | for an even kernel size the output is one shorter |
| Convolution.Convolve | src/main/java/net/bplaced/abzzezz/network/components/ConvolutionLayer.java:14-43 | a fresh (rows + 2p - k + 1) x (cols + 2p - k + 1) matrix whose cell (i, j), for every window ending strictly inside the padded input, is the padded window times the kernel, summed |
| Convolution.ConvolveRow | src/main/java/net/bplaced/abzzezz/network/components/ConvolutionLayer.java:35-40 | row i receives every window product of its row and no other row changes |
| Convolution.UnitKernelCopies | src/main/java/net/bplaced/abzzezz/network/components/ConvolutionLayer.java:34-41 | a 1 x 1 kernel holding 1 copies the input at every written cell |
| Convolution.OnesKernelSums | src/main/java/net/bplaced/abzzezz/network/components/ConvolutionLayer.java:37-38 | an all-ones kernel sums each window |
| Convolution.ConvolveEach | src/main/java/net/bplaced/abzzezz/network/components/ConvolutionLayer.java:49-55 | kernels.length * input.length fresh maps, slot i * input.length + j holding input j convolved with kernel i |
| Convolution.ConcatConvolutions | src/main/java/net/bplaced/abzzezz/network/components/ConvolutionLayer.java:49-55 | the blocks of convolutions laid end to end put input b with kernel a at slot a * input.length + b |
| Convolution.ConvolveAll | src/main/java/net/bplaced/abzzezz/network/components/ConvolutionLayer.java:52-54 | every input convolved with one kernel, in order |
| Convolution.ConvolutionLayer.constructor | src/main/java/net/bplaced/abzzezz/network/components/ConvolutionLayer.java:11-12 | nothing cached |
| Convolution.ConvolutionLayer.ForwardPropagation | src/main/java/net/bplaced/abzzezz/network/components/ConvolutionLayer.java:45-57 | both arrays cached; the maps of ConvolveEach returned |
| Convolution.ConvolutionLayer.BackwardsPropagation | src/main/java/net/bplaced/abzzezz/network/components/ConvolutionLayer.java:60-98 | none if and only if delta.length != input.length * kernels.length; otherwise one fresh gradient per cached input, shaped like it |
| Convolution.InputGradient | src/main/java/net/bplaced/abzzezz/network/components/ConvolutionLayer.java:72-97 | a fresh gradient matrix shaped like input i |
| Pooling.PooledLength | src/main/java/net/bplaced/abzzezz/network/components/PoolingLayer.java:21-22 | (n - 2) / 2 + 1 in truncating division: 2r <= n < 2r + 2, except 1 for n = 1 |
| Pooling.OutputIndex | src/main/java/net/bplaced/abzzezz/network/components/PoolingLayer.java:29 | the output index (i - 2) / 2 + 1 is exactly i / 2 for an even offset i, so window (2a, 2b) is written to (a, b); an odd offset above 1 gives (i - 1) / 2, and offset 1 gives 1 |
| Pooling.VisitedWindowInOutput | src/main/java/net/bplaced/abzzezz/network/components/PoolingLayer.java:25-26 | every window the loops visit lands inside the output |
| Pooling.EvenLengthSkipsLastWindow | src/main/java/net/bplaced/abzzezz/network/components/PoolingLayer.java:25-26 | for an even length the last output row (column) is never written |
| Pooling.OddLengthCoversOutput | src/main/java/net/bplaced/abzzezz/network/components/PoolingLayer.java:25-26 | for an odd length of at least 3 every output row (column) receives a window |
| Pooling.ArgMax2 | src/main/java/net/bplaced/abzzezz/network/components/PoolingLayer.java:71-73 | the first row-major cell of a 2 x 2 window holding its maximum lies inside the window |
| Pooling.ArgMax2IsMax | src/main/java/net/bplaced/abzzezz/network/components/PoolingLayer.java:71-73 | the window maximum bounds all four cells, is attained at ArgMax2, and no earlier cell attains it |
| Pooling.FirstMaxIsArgMax2 | src/main/java/net/bplaced/abzzezz/network/components/PoolingLayer.java:71-73 | the first row-major occurrence of the maximum is ArgMax2 |
| Pooling.PoolMaxIsWindowMax | src/main/java/net/bplaced/abzzezz/network/components/PoolingLayer.java:27-29 | the pooled value bounds the window's four entries and is one of them |
| Pooling.MaxPool | src/main/java/net/bplaced/abzzezz/network/components/PoolingLayer.java:12-34 | a fresh ((rows - 2)/2 + 1) x ((cols - 2)/2 + 1) matrix whose cell (a, b) is the window maximum at (2a, 2b) for every visited window |
| Pooling.PoolRow | src/main/java/net/bplaced/abzzezz/network/components/PoolingLayer.java:26-31 | output row `row` receives the maxima of its windows and no other row changes |
| Pooling.PoolWindow | src/main/java/net/bplaced/abzzezz/network/components/PoolingLayer.java:27-29 | cell (row, col) receives the maximum of the window at (2 row, 2 col), computed through (i - p)/s + 1, and no other cell changes |
| Pooling.Half | src/main/java/net/bplaced/abzzezz/network/components/PoolingLayer.java:105-106 | the window index n / 2: 2h <= n < 2h + 2 |
| Pooling.RoutedGradient | src/main/java/net/bplaced/abzzezz/network/components/PoolingLayer.java:93-121 | the routed gradient has the input's shape |
| Pooling.ArgMaxHoldsPoolMax | src/main/java/net/bplaced/abzzezz/network/components/PoolingLayer.java:113-117 | the ArgMax2 cell of a window holds the window's pooled maximum |
| Pooling.RoutedGradientInWindow | src/main/java/net/bplaced/abzzezz/network/components/PoolingLayer.java:103-118 | inside a visited window the routed gradient is the window's delta at its ArgMax2 cell and 0 at the other three |
| Pooling.RoutedGradientKeepsDelta | src/main/java/net/bplaced/abzzezz/network/components/PoolingLayer.java:103-118 | a visited window's routed gradient sums to its delta: max pooling passes each delta on undivided |
| Pooling.WindowOneHotSum | src/main/java/net/bplaced/abzzezz/network/components/PoolingLayer.java:113-117 | a 2 x 2 window that is zero but at one cell sums to that cell |
| Pooling.Sum2x2 | src/main/java/net/bplaced/abzzezz/network/components/PoolingLayer.java:113-117 | a 2 x 2 grid sums to its four entries |
| Pooling.SeqSum2 | src/main/java/net/bplaced/abzzezz/network/components/PoolingLayer.java:113-117 | a two-entry row sums to its entries |
| Pooling.RoutedGradientOutsideWindows | src/main/java/net/bplaced/abzzezz/network/components/PoolingLayer.java:103-104 | cells outside every visited window get gradient 0 |
| Pooling.RoutedGradientNotZero | src/main/java/net/bplaced/abzzezz/network/components/PoolingLayer.java:47-82 | on a 4 x 4 zero input with the 2 x 2 delta [[1, 0], [0, 0]] the routed gradient is 1 at (0, 0), hence not the all-zero result of the pass as written |
| Pooling.ZeroInputGradients | src/main/java/net/bplaced/abzzezz/network/components/PoolingLayer.java:47-82 | on that input and delta, which the pass as written accepts (its guard holds and no read leaves the delta), the pass as written returns one all-zero 4 x 4 matrix while the routed pass puts 1 at (0, 0) |
| Pooling.OddSideOverrunsDelta | src/main/java/net/bplaced/abzzezz/network/components/PoolingLayer.java:64-75 | for an odd number n >= 3 of rows the last visited window starts at row n - 3 and line 75 reads delta row (n - 3) / 2 + 1, which equals PooledLength(n), one past a delta shaped like the output; so no such delta satisfies BackwardReady |
| Pooling.PoolingLayer.constructor | src/main/java/net/bplaced/abzzezz/network/components/PoolingLayer.java:8-9 | nothing cached |
| Pooling.PoolingLayer.ForwardPropagation | src/main/java/net/bplaced/abzzezz/network/components/PoolingLayer.java:36-45 | inputs and outputs cached; one fresh pooled map per input, in order |
| Pooling.PoolingLayer.BackwardsPropagation | src/main/java/net/bplaced/abzzezz/network/components/PoolingLayer.java:47-82 | none if and only if delta[0]'s shape differs from output[0]'s; otherwise one fresh all-zero matrix per cached input, shaped like it |
| Pooling.PoolingLayer.RoutedBackwardsPropagation | src/main/java/net/bplaced/abzzezz/network/components/PoolingLayer.java:85-122 | the same guard; otherwise gradient i is the routed gradient of input i and delta i |
| Pooling.InputGradient | src/main/java/net/bplaced/abzzezz/network/components/PoolingLayer.java:59-80 | a fresh all-zero matrix shaped like input i |
| Pooling.WriteDeltas | src/main/java/net/bplaced/abzzezz/network/components/PoolingLayer.java:68-76 | every cell of the window copy ends holding its old value or some delta's entry at (j / 2 + 1, k / 2 + 1), and the last delta's entry is among them; nothing but the copy changes |
| Pooling.RouteGradient | src/main/java/net/bplaced/abzzezz/network/components/PoolingLayer.java:95-120 | a fresh matrix equal to the routed gradient of the input and its delta |
| Pooling.RouteRow | src/main/java/net/bplaced/abzzezz/network/components/PoolingLayer.java:104-118 | rows 2 row and 2 row + 1 receive their routed deltas, no other row changes |
| Pooling.RouteWindow | src/main/java/net/bplaced/abzzezz/network/components/PoolingLayer.java:105-117 | the window's delta goes to its ArgMax2 cell and no other cell changes |
| Pooling.DeltaOfWindow | src/main/java/net/bplaced/abzzezz/network/components/PoolingLayer.java:105-110 | the delta at ((j - p)/s + 1, (k - p)/s + 1) of window (2 row, 2 col) is delta(row, col) |
| Pooling.WindowArgMax | src/main/java/net/bplaced/abzzezz/network/components/PoolingLayer.java:111-115 | `subMatrix(j, k, 2, 2).indexOfValue(maxValue())` is ArgMax2 of the window |
| Pooling.RoutedInWindow | src/main/java/net/bplaced/abzzezz/network/components/PoolingLayer.java:103-118 | the routed value at every cell of a visited window: the delta at ArgMax2, 0 elsewhere |
| FullyConnected.WeightedSumReadsPrefix | src/main/java/net/bplaced/abzzezz/network/components/FullyConnectedLayer.java:38-40 | the weighted sum over the first n entries reads only those n weights and inputs: the bias column is never read |
| FullyConnected.WeightedSumWithBias | src/main/java/net/bplaced/abzzezz/network/components/FullyConnectedLayer.java:30-40 | appending the bias input -1 subtracts the bias weight |
| FullyConnected.FullyConnectedLayer.constructor | src/main/java/net/bplaced/abzzezz/network/components/FullyConnectedLayer.java:14-22 | weights numNodes x (numInputs + 1), lastInput of length numInputs + 1 ending in -1, lastOutput of length numNodes |
| FullyConnected.FullyConnectedLayer.ForwardPropagation | src/main/java/net/bplaced/abzzezz/network/components/FullyConnectedLayer.java:24-44 | a wrong length returns none and changes nothing; otherwise lastInput becomes the argument, output i is sigmoid of row i against it, the same lastOutput is returned, and the accepted length is refused from then on |
| FullyConnected.FullyConnectedLayer.ForwardPropagationKeepingBias | src/main/java/net/bplaced/abzzezz/network/components/FullyConnectedLayer.java:29-43 | same guard; the input is copied in front of the bias entry, output i is sigmoid of the weighted sum minus the bias weight, and the length keeps being accepted |
| FullyConnected.FullyConnectedLayer.ComputeOutputs | src/main/java/net/bplaced/abzzezz/network/components/FullyConnectedLayer.java:36-42 | output i is sigmoid of row i against the cached input |
| FullyConnected.FullyConnectedLayer.PropagateBackwards | src/main/java/net/bplaced/abzzezz/network/components/FullyConnectedLayer.java:46-49 | always none |
| FullyConnected.SecondForwardRefused | src/main/java/net/bplaced/abzzezz/network/components/FullyConnectedLayer.java:25-31 | a 1-node, 1-input layer accepts a 1-entry vector once and refuses it on the second call |
| FullyConnected.SecondForwardKeepingBiasAccepted | src/main/java/net/bplaced/abzzezz/network/components/FullyConnectedLayer.java:29-31 | with the bias kept the same layer accepts it both times |
| Network.UniformVectorSize | src/main/java/net/bplaced/abzzezz/network/CNN.java:117-119 | equal-shaped maps flatten to count * rows * cols entries |
| Network.UniformSlotsFit | src/main/java/net/bplaced/abzzezz/network/CNN.java:121-129 | equal-shaped maps never write past the vector |
| Network.SlotsBelowBlock | src/main/java/net/bplaced/abzzezz/network/CNN.java:121-129 | map j's slots end before count * rows * cols |
| Network.UniformLastCover | src/main/java/net/bplaced/abzzezz/network/CNN.java:122-129 | with equal-shaped maps, cols <= rows, each map is the last one written to each of its slots |
| Network.FlattenMap | src/main/java/net/bplaced/abzzezz/network/CNN.java:123-128 | slot j * rows + l holds the last row's entry l of map j and every other slot is unchanged |
| Network.Flatten | src/main/java/net/bplaced/abzzezz/network/CNN.java:117-129 | a fresh vector of the summed size whose written slots hold the last row of the last map writing them; for equal square-or-taller maps slot j * rows + l holds map j's last-row entry l |
| Network.FlattenedSize | src/main/java/net/bplaced/abzzezz/network/CNN.java:117-119 | the size loop computes VectorSize |
| Network.FlattenAll | src/main/java/net/bplaced/abzzezz/network/CNN.java:122-129 | every slot holds the value of the last map that writes it |
| Network.UniformFlatten | src/main/java/net/bplaced/abzzezz/network/CNN.java:122-129 | for equal square-or-taller maps, slot j * rows + l holds map j's last-row entry l |
| Network.UnflattenMap | src/main/java/net/bplaced/abzzezz/network/CNN.java:196-200 | cell (k, l) of the map becomes error[j * rows + l] for every row k |
| Network.Unflatten | src/main/java/net/bplaced/abzzezz/network/CNN.java:190-202 | one fresh matrix per pooled map, shaped like it, with every row equal to the error slice at j * rows |
| Network.FlattenRoundTrip | src/main/java/net/bplaced/abzzezz/network/CNN.java:117-202 | flattening then unflattening equal square-or-taller maps gives maps whose every row is the original's last row |
| Network.Mismatches | src/main/java/net/bplaced/abzzezz/network/CNN.java:68-85 | the error count is at most the number of tests, 0 if and only if no mismatch, all if and only if every test mismatched |
| Network.AccuracyBounds | src/main/java/net/bplaced/abzzezz/network/CNN.java:96 | (tests - errors) / tests lies in [0, 1] for tests > 0 |
| Network.AccuracyOf | src/main/java/net/bplaced/abzzezz/network/CNN.java:96 | NaN if and only if tests == 0; in [0, 1] for tests > 0; 1 with no errors; 0 when every test erred |
| Network.CNN.constructor | src/main/java/net/bplaced/abzzezz/network/CNN.java:33-61 | two convolution and two pooling stages, kernel sets of five 9 x 9 and ten 5 x 5 kernels, nothing cached, and the fully-connected stack of shape 12800+1 -> 600, three 600+1 -> 600, 600+1 -> 1 |
| Network.CNN.RunStage | src/main/java/net/bplaced/abzzezz/network/CNN.java:104-114 | stage j caches its inputs and kernel set, convolves every map with every kernel and pools each result, shrinking each side by pooling |
| Network.CNN.AdvanceStage | src/main/java/net/bplaced/abzzezz/network/CNN.java:103-115 | stage j takes the image (j = 0) or pooling layer j - 1's output and yields kernel-count times as many pooled maps |
| Network.CNN.RunStages | src/main/java/net/bplaced/abzzezz/network/CNN.java:101-115 | every stage is wired in increasing order and the result is the last pooling layer's output, MapCount maps of StageLength sides |
| Network.CNN.ConvolveInput | src/main/java/net/bplaced/abzzezz/network/CNN.java:100-131 | the stages then the flattening: the vector's size and contents as in Flatten, over the stage outputs |
| Network.CNN.Test | src/main/java/net/bplaced/abzzezz/network/CNN.java:63-98 | none (the exception) if and only if the convolution and pooling layer counts differ; otherwise the accuracy over the first `tests` outcomes |
| Network.CNN.Train | src/main/java/net/bplaced/abzzezz/network/CNN.java:133-136 | false (the exception) if and only if the convolution and pooling layer counts differ |
| Network.ConvolutionStages | src/main/java/net/bplaced/abzzezz/network/CNN.java:34-40 | two stages with 5 odd 9 x 9 and 10 odd 5 x 5 kernels and fresh, uncached, distinct layers |
| Network.FullyConnectedStack | src/main/java/net/bplaced/abzzezz/network/CNN.java:54-59 | 1 + 3 + 1 fully-connected layers of the declared shapes, each with its bias input in place |
| Network.ImageFitsFirstLayer | src/main/java/net/bplaced/abzzezz/network/CNN.java:48-54 | a 64 x 64 image flattens to 12800 entries, exactly what the first fully-connected layer accepts |

## Left out

- Image and file I/O: `ImageUtil`, `ImageLoader`, `Main`, `TrainData` decoding and all printing are not part of this model. `ImageLoader.getRandomTrainingData` is an oracle outside the model. Its effect on `test` is the sequence of test outcomes passed in, and on `convolveInput` it is the input matrix passed in.
- The static singleton `CNN.CONVOLUTIONAL_NEURAL_NETWORK` (CNN.java line 26): a field with no behaviour of its own.
- `SoftMaxLayer` and `Util`: the layer is exponential normalisation only and is not used by the network; it is not part of this model.
- Random initialisation (`randomize`, `initializeWeightMatrix`, `Math.random`, Gaussian draws): fresh contents are unconstrained instead.
- IEEE 754 behaviour (rounding, overflow to infinity, NaN, negative zero): every `double` is a real. With NaN entries `maxValue` and `indexOfValue` would behave differently, and the model does not claim anything about that case.
- The `relu` of the old `Matrix` (util/matrix/Matrix.java, lines 180-189): it calls `Util.relu`, which does not exist, so the method has no meaning to model.
- The kernel update at the end of `ConvolutionLayer.backwardsPropagation` (lines 99-102): it passes the `void` result of `multiply(double)` to `addMatrices` and does not compile.
- The three-argument `FullyConnectedLayer` constructor used by `new CNN()`: it does not exist, so the stack is built with the two-argument constructor and the activation argument is dropped.
- Network.CNN.Test: the loop body runs the fully-connected chain and compares its output with `getExpectedResult()`, which returns a `double`, not a `Vec`, so the comparison does not compile. The chain itself does not compile either: CNN.java imports `util.math.vector.Vec` (line 9), while `FullyConnectedLayer.forwardPropagation` takes and returns the legacy `util.vector.Vec` (FullyConnectedLayer.java lines 5 and 24), so passing the flattened vector at lines 78-81 is a type mismatch. Each test's outcome is therefore taken as given; the model proves the guard, the error count and the accuracy formula over those outcomes.
- Network.CNN.Train: states only the structural guard. The iteration body (CNN.java lines 138-210) repeats the stage loop and the flattening modelled by `ConvolveInput` and `Flatten`. It then chains through `propagateBackwards`, which always returns `null`, and calls `getExpectedResult().get`, which does not compile. Unflattening of the error vector is modelled on its own by `Network.Unflatten`. The loop over the fully-connected layers at lines 174-177 has the same `Vec` package mismatch as the one in `test`.
- Convolution.ConvolutionLayer.BackwardsPropagation: states the guard and the shape of each returned gradient, not its contents. The cells it writes are copies of freshly allocated, random `deltaKernels` matrices, so the contents carry no information.
- Convolution.InputGradient: shape only, for the same reason.
- Pooling.WriteDeltas: does not say which cell each delta lands in. The maximum is looked up again in the copy after every write, so the contract states only that each cell keeps its old value or holds some delta's entry, and that the last delta's entry is present. The copy is dropped afterwards, which the frame (`modifies` of the fresh copy only) states.
- Pooling.PoolingLayer.BackwardsPropagation: requires `BackwardReady`, which stands for the uncaught `ArrayIndexOutOfBoundsException` of line 75. It excludes every input with an odd side of at least 3 against a delta of the output's shape (the second finding below).
- Network.CNN.RunStages: states the wiring of every stage and the shapes; the contents of each stage's maps are stated by `Network.CNN.RunStage` and `Network.CNN.AdvanceStage`.
- MathUtil.MapValue: proves that the result stays in `[newMin, newMax]` when the span fits in an `int`, plus the two endpoints and the overflow at the widest target range. It requires `max != min`: Java accepts `max == min`, and the division by zero then gives NaN or an infinity before the `(int)` cast, which reals cannot express. The exact value in between, rounded through the `(int)` cast, is not characterised further.
- MathUtil.Apply: TANH's value is the uninterpreted `tanh` parameter, with nothing proved about it.
- MathUtil.ApplyDerivative: TANH's derivative `1 - tanh(x)^2` is only bounded above by 1.
- Integer overflow of sizes: matrix dimensions, `rows * cols` and the flattening indices are unbounded integers. Java would wrap them above 2^31 - 1, far beyond any shape the network builds.
- A negative padding `p` in `Matrix.pad`: it would make Java throw a `NegativeArraySizeException` or copy out of bounds, and the model's `p` is a `nat`.
- The legacy `MatrixUtil` methods `subtractMatrices`, `multiplyMatrices`, `transpose` and `matrixToArray` (util/matrix/MatrixUtil.java lines 22, 47, 64 and 109) call `Matrix.get`, which the legacy `Matrix` does not have (it has only `getDataAtPos`, line 318, and extends nothing), so they do not compile, and neither does `Matrix.subtract` (line 121), which calls `subtractMatrices`. LegacyLinalg.SubtractMatrices, LegacyLinalg.MultiplyMatrices, LegacyLinalg.RowTimesColumnOf, LegacyLinalg.Transpose, LegacyLinalg.MatrixToArray and LegacyLinalg.Matrix.Subtract read `get` as `getDataAtPos`, the only entry getter of that class.
- Linalg.Vec.CopyFromVector: a longer argument makes `System.arraycopy` throw, so the model requires `other.Length() <= Length()`.

## Findings

| source | as written | input that shows it | evidently intended | confidence | as-written member | corrected member |
|---|---|---|---|---|---|---|
| src/main/java/net/bplaced/abzzezz/network/components/PoolingLayer.java:47-82 | each delta is written into `subMatrix`, a copy of the input window, so the returned `newInputs` stay all zero and no gradient reaches the convolution layer | a 4 x 4 all-zero cached input with the 2 x 2 delta `[[1.0, 0.0], [0.0, 0.0]]`, which passes the guard and every read of line 75: the result is the 4 x 4 zero matrix, while routing puts 1.0 at (0, 0) | route each delta to the position of its window's maximum in the returned matrix, as the commented-out rework at lines 85-122 does | not executed | Pooling.PoolingLayer.BackwardsPropagation, Pooling.ZeroInputGradients, Pooling.RoutedGradientNotZero | Pooling.PoolingLayer.RoutedBackwardsPropagation, Pooling.RoutedGradientKeepsDelta |
| src/main/java/net/bplaced/abzzezz/network/components/PoolingLayer.java:64-75 | for the window at (j, k) line 75 reads the delta at (j / s + 1, k / s + 1), while `forwardPropagation` writes that window's maximum at ((j - p) / s + 1, (k - p) / s + 1) = (j / 2, k / 2) (line 29). For an odd side n >= 3 the last window starts at n - 3 and the read lands on row (or column) (n - 1) / 2, which is the output's length, so the pass throws `ArrayIndexOutOfBoundsException` for every delta of the output's shape; for even sides each window reads the delta of the next window along the diagonal | a 3 x 3 cached input, whose output is 1 x 1, with a 1 x 1 delta: the guard passes and `deltaMatrix.get(1, 1)` is out of bounds | read the delta at ((j - p) / s + 1, (k - p) / s + 1), the index the forward pass writes, as the commented-out rework at lines 105-110 does | not executed | Pooling.OddSideOverrunsDelta, Pooling.PoolingLayer.BackwardsPropagation | Pooling.DeltaOfWindow, Pooling.PoolingLayer.RoutedBackwardsPropagation |
| src/main/java/net/bplaced/abzzezz/network/components/FullyConnectedLayer.java:25-31 | `lastInput = input` replaces the cached input, which ends in the bias entry -1, with the argument, which is one entry shorter; the guard `input.length() != lastInput.length() - 1` then refuses every later input of the accepted length | `new FullyConnectedLayer(1, 1)`, then `forwardPropagation` of a one-entry vector twice: the second call returns `null` | copy the argument into the cached input in front of the bias entry, keeping the bias entry -1, and subtract the bias weight. The corrected member copies the prefix as `System.arraycopy` does; the commented-out `lastInput.copyFromVector(input)` at line 30 would not do it, since the legacy `copyFromVector` (util/vector/Vec.java lines 89-95) returns without copying when the lengths differ, as they always do here | not executed | FullyConnected.FullyConnectedLayer.ForwardPropagation, FullyConnected.SecondForwardRefused | FullyConnected.FullyConnectedLayer.ForwardPropagationKeepingBias, FullyConnected.SecondForwardKeepingBiasAccepted |
