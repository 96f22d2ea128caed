/** `CNN`: the orchestrator that owns the kernel sets and the layer lists, chains the
    convolution and pooling stages over an input image, flattens the pooled maps into the
    input vector of the fully-connected layers, and reshapes an error vector back into
    maps. */
module Network {
  import opened Grids
  import opened Optional
  import opened Linalg
  import Convolution
  import Pooling
  import FullyConnected

  /** The side length of the square training images. */
  const ImageSize: nat := 64
  /** The number of hidden fully-connected layers between the first and the last. */
  const FullyConnectedDepth: nat := 3
  /** The number of nodes of every hidden fully-connected layer. */
  const FullyConnectedWidth: nat := 600

  // ---- Shapes of the stages ----

  /** Every map is valid and `rows` x `cols`. */
  predicate Uniform(maps: seq<Matrix>, rows: nat, cols: nat) {
    forall j :: 0 <= j < |maps| ==> maps[j].Valid() && maps[j].rows == rows && maps[j].cols == cols
  }

  /** A side of length `n` after `stages` convolution-and-pooling stages with odd kernels:
      the convolutions keep it and every pooling halves it. */
  function StageLength(n: nat, stages: nat): nat {
    if stages == 0 then n else Pooling.PooledLength(StageLength(n, stages - 1))
  }

  /** The number of maps after the first `stages` stages, starting from one image: every
      stage convolves each map with each of its kernels. */
  function MapCount(kernelList: seq<seq<Matrix>>, stages: nat): nat
    requires stages <= |kernelList|
  {
    if stages == 0 then 1 else |kernelList[stages - 1]| * MapCount(kernelList, stages - 1)
  }

  /** What `forwardPropagation(ins, kernels)` of a convolution layer delivers: map
      `i * |ins| + b` is input `b` convolved with kernel `i`. */
  ghost predicate ConvolutionStage(ins: seq<Matrix>, kernels: seq<Matrix>, outs: seq<Matrix>)
    reads set m | m in ins :: m.data, set m | m in kernels :: m.data, set m | m in outs :: m.data
  {
    |outs| == |kernels| * |ins| &&
    forall i, b :: 0 <= i < |kernels| && 0 <= b < |ins| ==>
      Slot(i, b, |ins|) < |outs| && Convolution.IsConvolution(outs[Slot(i, b, |ins|)], ins[b], kernels[i])
  }

  /** What `forwardPropagation(ins)` of a pooling layer delivers: map `m` pools input `m`. */
  ghost predicate PoolingStage(ins: seq<Matrix>, outs: seq<Matrix>)
    reads set m | m in ins :: m.data, set m | m in outs :: m.data
  {
    |outs| == |ins| && forall m :: 0 <= m < |outs| ==> Pooling.IsPooling(outs[m], ins[m])
  }

  // ---- The flatten index map ----

  /** `sum of rows * cols` over the maps: the length of the flattened vector. */
  function VectorSize(maps: seq<Matrix>): nat {
    if |maps| == 0 then 0 else VectorSize(maps[..|maps| - 1]) + maps[|maps| - 1].rows * maps[|maps| - 1].cols
  }

  /** Map `j` is written to the slots `j * rows + l`, `l < cols`, whatever the row. */
  predicate Covers(m: Matrix, j: nat, s: int) {
    m.rows > 0 && RowStart(j, m.rows) <= s < RowStart(j, m.rows) + m.cols
  }

  /** Map `j` is the last map written to slot `s`, so its value is the one that stays. */
  predicate LastCover(maps: seq<Matrix>, j: nat, s: int) {
    j < |maps| && Covers(maps[j], j, s) && forall t :: j < t < |maps| ==> !Covers(maps[t], t, s)
  }

  /** No slot of any map lies beyond the vector: the condition under which flattening and
      unflattening raise no index exception. */
  predicate SlotsFit(maps: seq<Matrix>, length: nat) {
    forall j :: 0 <= j < |maps| && 0 < maps[j].rows && 0 < maps[j].cols ==> RowStart(j, maps[j].rows) + maps[j].cols <= length
  }

  /** Equal-shaped maps flatten to `|maps| * rows * cols` entries. */
  lemma {:induction false} UniformVectorSize(maps: seq<Matrix>, rows: nat, cols: nat)
    requires Uniform(maps, rows, cols)
    ensures VectorSize(maps) == RowStart(|maps|, rows * cols)
  {
    if |maps| > 0 {
      assert maps[|maps| - 1] in maps;
      UniformVectorSize(maps[..|maps| - 1], rows, cols);
    }
  }

  /** Equal-shaped maps always fit in the vector their sizes add up to. */
  lemma UniformSlotsFit(maps: seq<Matrix>, rows: nat, cols: nat)
    requires Uniform(maps, rows, cols)
    ensures SlotsFit(maps, VectorSize(maps))
  {
    UniformVectorSize(maps, rows, cols);
    forall j | 0 <= j < |maps| && 0 < maps[j].rows && 0 < maps[j].cols
      ensures RowStart(j, rows) + cols <= RowStart(|maps|, rows * cols)
    {
      SlotsBelowBlock(j, |maps|, rows, cols);
    }
  }

  /** The slots of map `j < n` end before the `n` blocks of `rows * cols` entries do. */
  lemma SlotsBelowBlock(j: nat, n: nat, rows: nat, cols: nat)
    requires j < n && 0 < rows && 0 < cols
    ensures RowStart(j, rows) + cols <= RowStart(n, rows * cols)
  {
    var w := rows * cols;
    assert rows <= w && cols <= w;
    RowStartMonotone(j, n - 1, rows);
    RowStartWider(n - 1, rows, w);
  }

  /** For equal-shaped maps with no more columns than rows the slots of different maps do
      not overlap, so every map is the last one written to each of its slots. */
  lemma UniformLastCover(maps: seq<Matrix>, rows: nat, cols: nat, j: nat, l: nat)
    requires Uniform(maps, rows, cols) && cols <= rows
    requires j < |maps| && l < cols
    ensures LastCover(maps, j, Slot(j, l, rows))
  {
    assert maps[j] in maps;
    forall t | j < t < |maps|
      ensures !Covers(maps[t], t, Slot(j, l, rows))
    {
      assert maps[t] in maps;
      RowStartMonotone(j + 1, t, rows);
    }
  }

  /** The inner two loops of the flattening for map `j`: every row of `m` is written over
      the same slots `j * rows + l`, so the last row is what they keep. */
  method FlattenMap(m: Matrix, j: nat, vec: Vec)
    requires m.Valid()
    requires 0 < m.rows && 0 < m.cols ==> RowStart(j, m.rows) + m.cols <= vec.Length()
    modifies vec.data
    ensures forall s :: 0 <= s < vec.Length() && Covers(m, j, s) ==> vec.data[s] == m.data[m.rows - 1, s - RowStart(j, m.rows)]
    ensures forall s :: 0 <= s < vec.Length() && !Covers(m, j, s) ==> vec.data[s] == old(vec.data[s])
  {
    var base := RowStart(j, m.rows);
    var k := 0;
    while k < m.rows
      invariant k <= m.rows
      invariant k > 0 ==> forall s :: base <= s < base + m.cols ==> vec.data[s] == m.data[k - 1, s - base]
      invariant forall s :: 0 <= s < vec.Length() && !(k > 0 && base <= s < base + m.cols) ==> vec.data[s] == old(vec.data[s])
    {
      var l := 0;
      while l < m.cols
        invariant l <= m.cols
        invariant forall s :: base <= s < base + l ==> vec.data[s] == m.data[k, s - base]
        invariant k > 0 ==> forall s :: base + l <= s < base + m.cols ==> vec.data[s] == m.data[k - 1, s - base]
        invariant forall s :: 0 <= s < vec.Length() && !(base <= s < base + l) && !(k > 0 && base <= s < base + m.cols) ==>
          vec.data[s] == old(vec.data[s])
      {
        SlotIsIndex(j, l, m.rows);
        vec.Set(j * m.rows + l, m.Get(k, l));
        l := l + 1;
      }
      k := k + 1;
    }
  }

  /** The flattening at the end of `convolveInput`: a vector of `VectorSize(maps)` entries
      in which every slot that some map writes holds the last row's entry of the last map
      that writes it. For equal-shaped maps with no more columns than rows this is the
      last row of every map, side by side; all other rows are lost. */
  method Flatten(maps: seq<Matrix>) returns (vec: Vec)
    requires forall j :: 0 <= j < |maps| ==> maps[j].Valid()
    requires SlotsFit(maps, VectorSize(maps))
    ensures fresh(vec.data) && vec.Length() == VectorSize(maps)
    ensures forall j, s :: 0 <= j < |maps| && 0 <= s < vec.Length() && LastCover(maps, j, s) ==>
      maps[j].Valid() && vec.data[s] == maps[j].data[maps[j].rows - 1, s - RowStart(j, maps[j].rows)]
    ensures |maps| > 0 && Uniform(maps, maps[0].rows, maps[0].cols) && maps[0].cols <= maps[0].rows ==>
      forall j, l :: 0 <= j < |maps| && 0 <= l < maps[0].cols ==>
        Slot(j, l, maps[0].rows) < vec.Length() && vec.data[Slot(j, l, maps[0].rows)] == maps[j].data[maps[0].rows - 1, l]
  {
    var vectorSize := FlattenedSize(maps);
    vec := new Vec.Random(vectorSize);
    FlattenAll(maps, vec);
    if |maps| > 0 && Uniform(maps, maps[0].rows, maps[0].cols) && maps[0].cols <= maps[0].rows {
      UniformFlatten(maps, vec);
    }
  }

  /** The first loop of the flattening: the vector size, the sum of `rows * cols` over
      the maps. */
  method FlattenedSize(maps: seq<Matrix>) returns (vectorSize: nat)
    ensures vectorSize == VectorSize(maps)
  {
    vectorSize := 0;
    var i := 0;
    while i < |maps|
      invariant i <= |maps| && vectorSize == VectorSize(maps[..i])
    {
      assert maps[..i + 1][..i] == maps[..i];
      vectorSize := vectorSize + maps[i].rows * maps[i].cols;
      i := i + 1;
    }
    assert maps[..|maps|] == maps;
  }

  /** The outer loop of the flattening, map by map: each slot ends up holding the value
      of the last map that covers it. */
  method FlattenAll(maps: seq<Matrix>, vec: Vec)
    requires forall j :: 0 <= j < |maps| ==> maps[j].Valid()
    requires SlotsFit(maps, vec.Length())
    modifies vec.data
    ensures forall j, s :: 0 <= j < |maps| && 0 <= s < vec.Length() && LastCover(maps, j, s) ==>
      maps[j].Valid() && vec.data[s] == maps[j].data[maps[j].rows - 1, s - RowStart(j, maps[j].rows)]
  {
    var j := 0;
    while j < |maps|
      invariant j <= |maps|
      invariant forall i, s :: (0 <= i < j && 0 <= s < vec.Length() && Covers(maps[i], i, s) &&
        forall t :: i < t < j ==> !Covers(maps[t], t, s)) ==>
        vec.data[s] == maps[i].data[maps[i].rows - 1, s - RowStart(i, maps[i].rows)]
    {
      FlattenMap(maps[j], j, vec);
      j := j + 1;
    }
  }

  /** For equal-shaped maps with no more columns than rows, slot `(j, l)` holds entry `l`
      of the last row of map `j`. */
  lemma UniformFlatten(maps: seq<Matrix>, vec: Vec)
    requires |maps| > 0 && Uniform(maps, maps[0].rows, maps[0].cols) && maps[0].cols <= maps[0].rows
    requires vec.Length() == VectorSize(maps)
    requires forall j, s :: 0 <= j < |maps| && 0 <= s < vec.Length() && LastCover(maps, j, s) ==>
      maps[j].Valid() && vec.data[s] == maps[j].data[maps[j].rows - 1, s - RowStart(j, maps[j].rows)]
    ensures forall j, l :: 0 <= j < |maps| && 0 <= l < maps[0].cols ==>
      Slot(j, l, maps[0].rows) < vec.Length() && vec.data[Slot(j, l, maps[0].rows)] == maps[j].data[maps[0].rows - 1, l]
  {
    var rows, cols := maps[0].rows, maps[0].cols;
    UniformSlotsFit(maps, rows, cols);
    forall j, l | 0 <= j < |maps| && 0 <= l < cols
      ensures Slot(j, l, rows) < vec.Length() && vec.data[Slot(j, l, rows)] == maps[j].data[rows - 1, l]
    {
      UniformLastCover(maps, rows, cols, j, l);
    }
  }

  /** Cell `(k, l)` of `m` holds entry `j * rows + l` of the error vector, for every row. */
  predicate Unflattened(m: Matrix, j: nat, error: Vec)
    reads m.data, error.data
  {
    m.Valid() &&
    forall k, l :: 0 <= k < m.rows && 0 <= l < m.cols ==> Slot(j, l, m.rows) < error.Length() && m.data[k, l] == error.data[Slot(j, l, m.rows)]
  }

  /** The inner two loops of the unflattening for map `j`: cell `(k, l)` of `m` becomes
      entry `j * rows + l` of the error vector, for every row `k`. */
  method UnflattenMap(m: Matrix, j: nat, error: Vec)
    requires m.Valid()
    requires 0 < m.rows && 0 < m.cols ==> RowStart(j, m.rows) + m.cols <= error.Length()
    modifies m.data
    ensures Unflattened(m, j, error)
  {
    var k := 0;
    while k < m.rows
      invariant k <= m.rows
      invariant forall l :: 0 < k && 0 <= l < m.cols ==> Slot(j, l, m.rows) < error.Length()
      invariant forall p, l :: 0 <= p < k && 0 <= l < m.cols ==> m.data[p, l] == error.data[Slot(j, l, m.rows)]
    {
      var l := 0;
      while l < m.cols
        invariant l <= m.cols
        invariant forall p, q :: 0 <= p < k && 0 <= q < m.cols ==> m.data[p, q] == error.data[Slot(j, q, m.rows)]
        invariant forall q :: 0 <= q < l ==> m.data[k, q] == error.data[Slot(j, q, m.rows)]
      {
        SlotIsIndex(j, l, m.rows);
        m.Set(k, l, error.Get(j * m.rows + l));
        l := l + 1;
      }
      k := k + 1;
    }
  }

  /** The reshaping of the error vector in `train`: one new matrix per pooled map, shaped
      like it, whose cell `(k, l)` is entry `j * rows + l` of the error vector. The row `k`
      plays no part, so all rows of a map are equal. */
  method Unflatten(maps: seq<Matrix>, error: Vec) returns (errorMatrix: seq<Matrix>)
    requires SlotsFit(maps, error.Length())
    ensures |errorMatrix| == |maps|
    ensures forall j :: 0 <= j < |maps| ==>
      fresh(errorMatrix[j].data) && errorMatrix[j].Valid() && errorMatrix[j].rows == maps[j].rows && errorMatrix[j].cols == maps[j].cols
    ensures forall j :: 0 <= j < |maps| ==> Unflattened(errorMatrix[j], j, error)
  {
    errorMatrix := [];
    while |errorMatrix| < |maps|
      invariant |errorMatrix| <= |maps|
      invariant forall j :: 0 <= j < |errorMatrix| ==>
        fresh(errorMatrix[j].data) && errorMatrix[j].Valid() && errorMatrix[j].rows == maps[j].rows && errorMatrix[j].cols == maps[j].cols
      invariant forall a, b :: 0 <= a < b < |errorMatrix| ==> errorMatrix[a].data != errorMatrix[b].data
    {
      var m := new Matrix.Random(maps[|errorMatrix|].rows, maps[|errorMatrix|].cols);
      errorMatrix := errorMatrix + [m];
    }
    var j := 0;
    while j < |errorMatrix|
      invariant j <= |errorMatrix| == |maps|
      invariant forall a :: 0 <= a < |maps| ==>
        fresh(errorMatrix[a].data) && errorMatrix[a].Valid() && errorMatrix[a].rows == maps[a].rows && errorMatrix[a].cols == maps[a].cols
      invariant forall a, b :: 0 <= a < b < |errorMatrix| ==> errorMatrix[a].data != errorMatrix[b].data
      invariant forall a :: 0 <= a < j ==> Unflattened(errorMatrix[a], a, error)
    {
      UnflattenMap(errorMatrix[j], j, error);
      j := j + 1;
    }
  }

  /** Flattening equal-shaped maps with no more columns than rows and unflattening the
      result gives back maps in which every row is the original map's last row. */
  method FlattenRoundTrip(maps: seq<Matrix>) returns (back: seq<Matrix>)
    requires |maps| > 0 && Uniform(maps, maps[0].rows, maps[0].cols) && maps[0].cols <= maps[0].rows
    ensures |back| == |maps|
    ensures forall j, k, l :: 0 <= j < |maps| && 0 <= k < maps[0].rows && 0 <= l < maps[0].cols ==>
      back[j].Valid() && back[j].rows == maps[0].rows && back[j].cols == maps[0].cols &&
      back[j].data[k, l] == maps[j].data[maps[0].rows - 1, l]
  {
    var rows, cols := maps[0].rows, maps[0].cols;
    UniformSlotsFit(maps, rows, cols);
    var vec := Flatten(maps);
    back := Unflatten(maps, vec);
    forall j, k, l | 0 <= j < |maps| && 0 <= k < rows && 0 <= l < cols
      ensures back[j].Valid() && back[j].rows == rows && back[j].cols == cols && back[j].data[k, l] == maps[j].data[rows - 1, l]
    {
      assert maps[j] in maps;
    }
  }

  // ---- Testing ----

  /** What one test iteration ends in: the output matched the expected result, it did
      not, or an exception was thrown and caught. */
  datatype TestOutcome = Matched | Mismatched | Failed

  /** A Java `double` accuracy: a ratio, or `NaN` for `0 / 0.0`. */
  datatype Accuracy = Ratio(value: real) | NotANumber

  /** The number of iterations counted as errors. Only a mismatch counts: a test that
      throws is caught and counted as passed. */
  function Mismatches(outcomes: seq<TestOutcome>): (n: nat)
    ensures n <= |outcomes|
    ensures n == 0 <==> forall i :: 0 <= i < |outcomes| ==> outcomes[i] != Mismatched
    ensures n == |outcomes| <==> forall i :: 0 <= i < |outcomes| ==> outcomes[i] == Mismatched
  {
    if |outcomes| == 0 then 0
    else Mismatches(outcomes[..|outcomes| - 1]) + (if outcomes[|outcomes| - 1] == Mismatched then 1 else 0)
  }

  /** `(tests - errorCount) / (double) tests` lies between 0 and 1 for at least one test. */
  lemma AccuracyBounds(tests: nat, errors: nat)
    requires 0 < tests && errors <= tests
    ensures 0.0 <= (tests - errors) as real / tests as real <= 1.0
  {
    var t, e := tests as real, errors as real;
    var q := (t - e) / t;
    assert q * t == t - e;
  }

  /** `(tests - errorCount) / (double) tests`: `NaN` for no tests, between 0 and 1 for
      some, 1 when nothing was counted as an error (which includes a negative number of
      tests, where the loop never runs) and 0 when every test was. */
  function AccuracyOf(tests: int, errors: nat): (a: Accuracy)
    requires if tests >= 0 then errors <= tests else errors == 0
    ensures a.NotANumber? <==> tests == 0
    ensures tests > 0 ==> 0.0 <= a.value <= 1.0
    ensures tests != 0 && errors == 0 ==> a == Ratio(1.0)
    ensures tests > 0 && errors == tests ==> a == Ratio(0.0)
  {
    if tests == 0 then NotANumber
    else if tests < 0 then Ratio((tests - errors) as real / tests as real)
    else AccuracyBounds(tests, errors); Ratio((tests - errors) as real / tests as real)
  }

  /** The orchestrator. Its layer lists are `final` and filled once by the constructor. */
  class CNN {
    const kernelList: seq<seq<Matrix>>
    const convolutionLayers: seq<Convolution.ConvolutionLayer>
    const poolingLayers: seq<Pooling.PoolingLayer>
    const fullyConnectedLayers: seq<FullyConnected.FullyConnectedLayer>

    /** Every kernel is a valid square matrix of odd size, so that every convolution keeps
        the shape of its input, and no layer object appears twice in its list. */
    predicate Valid() {
      (forall j :: 0 <= j < |kernelList| ==> OddSquareKernels(kernelList[j])) &&
      (forall a, b :: 0 <= a < b < |convolutionLayers| ==> convolutionLayers[a] != convolutionLayers[b]) &&
      (forall a, b :: 0 <= a < b < |poolingLayers| ==> poolingLayers[a] != poolingLayers[b])
    }

    /** `new CNN()`: two convolution and pooling stages with five 9 x 9 and ten 5 x 5
        kernels, and the fully-connected stack of `FullyConnectedStack`. */
    constructor ()
      ensures Valid()
      ensures |convolutionLayers| == 2 && |poolingLayers| == 2 && |kernelList| == 2
      ensures |kernelList[0]| == 5 && forall i :: 0 <= i < 5 ==> kernelList[0][i].rows == 9
      ensures |kernelList[1]| == 10 && forall i :: 0 <= i < 10 ==> kernelList[1][i].rows == 5
      ensures forall a :: 0 <= a < 2 ==> fresh(convolutionLayers[a]) && convolutionLayers[a].input.None? && convolutionLayers[a].kernels.None?
      ensures forall a :: 0 <= a < 2 ==> fresh(poolingLayers[a]) && poolingLayers[a].inputs.None? && poolingLayers[a].output.None?
      ensures FullyConnectedShape(fullyConnectedLayers)
    {
      var layers := FullyConnectedStack();
      var kernels, convs, pools := ConvolutionStages();
      kernelList := kernels;
      convolutionLayers := convs;
      poolingLayers := pools;
      fullyConnectedLayers := layers;
    }

    /** The maps the flattening in `convolveInput` starts from: the image itself when there
        is no stage, else the output cached by the last pooling layer. */
    function StageOutputs(input: Matrix): seq<Matrix>
      reads if 0 < |convolutionLayers| <= |poolingLayers| then {poolingLayers[|convolutionLayers| - 1]} else {}
    {
      var n := |convolutionLayers|;
      if n == 0 then [input]
      else if n <= |poolingLayers| && poolingLayers[n - 1].output.Some? then poolingLayers[n - 1].output.value
      else []
    }

    /** One pass of the stage loop of `convolveInput`: convolution layer `j` convolves the
        maps with kernel set `j`, and pooling layer `j` pools the result. Both layers cache
        what they saw. */
    method RunStage(j: nat, inputs: seq<Matrix>, rows: nat, cols: nat) returns (outputs: seq<Matrix>)
      requires Valid() && j < |convolutionLayers| && j < |poolingLayers| && j < |kernelList|
      requires Uniform(inputs, rows, cols)
      modifies convolutionLayers[j], poolingLayers[j]
      ensures convolutionLayers[j].input == Some(inputs) && convolutionLayers[j].kernels == Some(kernelList[j])
      ensures poolingLayers[j].inputs.Some? && poolingLayers[j].output == Some(outputs)
      ensures ConvolutionStage(inputs, kernelList[j], poolingLayers[j].inputs.value)
      ensures PoolingStage(poolingLayers[j].inputs.value, outputs)
      ensures |outputs| == |kernelList[j]| * |inputs|
      ensures Uniform(outputs, Pooling.PooledLength(rows), Pooling.PooledLength(cols))
    {
      var kernels := kernelList[j];
      forall i, b | 0 <= i < |kernels| && 0 <= b < |inputs|
        ensures Convolution.Convolvable(inputs[b], kernels[i])
      {
        assert inputs[b] in inputs;
        Convolution.OddKernelKeepsLength(rows, kernels[i].rows);
        Convolution.OddKernelKeepsLength(cols, kernels[i].rows);
      }
      var convolutionOutput := convolutionLayers[j].ForwardPropagation(inputs, kernels);
      forall k | 0 <= k < |convolutionOutput|
        ensures convolutionOutput[k].Valid() && convolutionOutput[k].rows == rows && convolutionOutput[k].cols == cols
      {
        SlotIsIndex(|kernels|, 0, |inputs|);
        SlotsCover(k, |kernels|, |inputs|);
        var i: nat, b: nat :| i < |kernels| && b < |inputs| && Slot(i, b, |inputs|) == k;
        assert inputs[b] in inputs;
        Convolution.OddKernelKeepsLength(rows, kernels[i].rows);
        Convolution.OddKernelKeepsLength(cols, kernels[i].rows);
      }
      outputs := poolingLayers[j].ForwardPropagation(convolutionOutput);
      forall m | m in outputs
        ensures m.Valid() && m.rows == Pooling.PooledLength(rows) && m.cols == Pooling.PooledLength(cols)
      {
        var k :| 0 <= k < |outputs| && outputs[k] == m;
      }
    }

    /** Stage `a` has run on `input`: both of its layers hold their caches, the
        convolution layer with kernel set `a`, and it took the image (stage `0`) or the
        output of the pooling layer before it. */
    predicate StageWired(input: Matrix, a: nat)
      requires a < |convolutionLayers| && a < |poolingLayers| && a < |kernelList|
      reads convolutionLayers[a], poolingLayers[a], if a > 0 then {poolingLayers[a - 1]} else {}
    {
      convolutionLayers[a].kernels == Some(kernelList[a]) &&
      poolingLayers[a].inputs.Some? && poolingLayers[a].output.Some? &&
      convolutionLayers[a].input == if a == 0 then Some([input]) else poolingLayers[a - 1].output
    }

    /** One pass of the stage loop: stage `j` takes the maps of the previous stage, that is
        the image or the output of pooling layer `j - 1`, and yields `|kernelList[j]|`
        times as many maps, pooled once more. */
    method AdvanceStage(input: Matrix, j: nat, inputs: seq<Matrix>) returns (outputs: seq<Matrix>)
      requires Valid() && j < |convolutionLayers| <= |poolingLayers| && |convolutionLayers| <= |kernelList|
      requires |inputs| == MapCount(kernelList, j) && Uniform(inputs, StageLength(input.rows, j), StageLength(input.cols, j))
      requires j == 0 ==> inputs == [input]
      requires j > 0 ==> poolingLayers[j - 1].output == Some(inputs)
      modifies convolutionLayers[j], poolingLayers[j]
      ensures StageWired(input, j) && poolingLayers[j].output == Some(outputs)
      ensures |outputs| == MapCount(kernelList, j + 1)
      ensures Uniform(outputs, StageLength(input.rows, j + 1), StageLength(input.cols, j + 1))
    {
      if j > 0 {
        assert poolingLayers[j - 1] != poolingLayers[j];
      }
      outputs := RunStage(j, inputs, StageLength(input.rows, j), StageLength(input.cols, j));
    }

    /** The stage loop of `convolveInput`: the image passes through the stages in
        increasing order, each convolution layer taking the previous pooling layer's
        output and the kernel set of its stage, and the last pooled maps are returned.
        What each stage computes is the contract of `RunStage`. */
    method RunStages(input: Matrix) returns (maps: seq<Matrix>)
      requires Valid() && input.Valid()
      requires |convolutionLayers| <= |poolingLayers| && |convolutionLayers| <= |kernelList|
      modifies set l | l in convolutionLayers, set l | l in poolingLayers
      ensures forall a :: 0 <= a < |convolutionLayers| ==> StageWired(input, a)
      ensures maps == StageOutputs(input)
      ensures |maps| == MapCount(kernelList, |convolutionLayers|)
      ensures Uniform(maps, StageLength(input.rows, |convolutionLayers|), StageLength(input.cols, |convolutionLayers|))
    {
      maps := [input];
      var j := 0;
      while j < |convolutionLayers|
        invariant j <= |convolutionLayers|
        invariant |maps| == MapCount(kernelList, j)
        invariant Uniform(maps, StageLength(input.rows, j), StageLength(input.cols, j))
        invariant j == 0 ==> maps == [input]
        invariant j > 0 ==> poolingLayers[j - 1].output == Some(maps)
        invariant forall a :: 0 <= a < j ==> StageWired(input, a)
      {
        assert forall a :: 0 <= a < j ==> convolutionLayers[a] != convolutionLayers[j] && poolingLayers[a] != poolingLayers[j];
        maps := AdvanceStage(input, j, maps);
        j := j + 1;
      }
    }

    /** `convolveInput(trainingData)`: the stages, then the flattening of the last pooled
        maps. */
    method ConvolveInput(input: Matrix) returns (vec: Vec)
      requires Valid() && input.Valid()
      requires |convolutionLayers| <= |poolingLayers| && |convolutionLayers| <= |kernelList|
      modifies set l | l in convolutionLayers, set l | l in poolingLayers
      ensures var maps := StageOutputs(input);
        |maps| == MapCount(kernelList, |convolutionLayers|) &&
        Uniform(maps, StageLength(input.rows, |convolutionLayers|), StageLength(input.cols, |convolutionLayers|))
      ensures fresh(vec.data) && vec.Length() == VectorSize(StageOutputs(input))
      ensures var maps := StageOutputs(input);
        forall j, s :: 0 <= j < |maps| && 0 <= s < vec.Length() && LastCover(maps, j, s) ==>
          maps[j].Valid() && vec.data[s] == maps[j].data[maps[j].rows - 1, s - RowStart(j, maps[j].rows)]
    {
      var poolingOutputs := RunStages(input);
      var n := |convolutionLayers|;
      UniformSlotsFit(poolingOutputs, StageLength(input.rows, n), StageLength(input.cols, n));
      vec := Flatten(poolingOutputs);
    }

    /** `test(tests)`: `None` stands for the `IllegalStateException` thrown when the
        convolution and pooling layers differ in number. Otherwise the accuracy over the
        outcomes of the first `tests` iterations. */
    method Test(tests: int, outcomes: seq<TestOutcome>) returns (r: Option<Accuracy>)
      requires tests <= |outcomes|
      ensures r.None? <==> |convolutionLayers| != |poolingLayers|
      ensures r.Some? ==> r.value == AccuracyOf(tests, Mismatches(outcomes[..if tests > 0 then tests else 0]))
    {
      if |convolutionLayers| != |poolingLayers| {
        return None;
      }
      var errorCount := 0;
      var i := 0;
      while i < tests
        invariant 0 <= i <= |outcomes| && (tests >= 0 ==> i <= tests) && (tests < 0 ==> i == 0)
        invariant errorCount == Mismatches(outcomes[..i])
      {
        assert outcomes[..i + 1][..i] == outcomes[..i];
        if outcomes[i] == Mismatched {
          errorCount := errorCount + 1;
        }
        i := i + 1;
      }
      if tests == 0 {
        return Some(NotANumber);
      }
      return Some(Ratio((tests - errorCount) as real / tests as real));
    }

    /** `train(iterations)`: `false` stands for the `IllegalStateException` thrown when the
        convolution and pooling layers differ in number. */
    method Train(iterations: int) returns (ok: bool)
      ensures ok <==> |convolutionLayers| == |poolingLayers|
    {
      if |convolutionLayers| != |poolingLayers| {
        return false;
      }
      return true;
    }
  }

  /** Valid square kernels of odd size: a convolution with any of them keeps the shape of
      its input. */
  predicate OddSquareKernels(kernels: seq<Matrix>) {
    forall i :: 0 <= i < |kernels| ==> kernels[i].Valid() && kernels[i].rows == kernels[i].cols && kernels[i].rows % 2 == 1
  }

  /** The convolution and pooling part of `new CNN()`: two stages, the first with five
      9 x 9 kernels and the second with ten 5 x 5 kernels, and layers with nothing cached. */
  method ConvolutionStages() returns (kernelList: seq<seq<Matrix>>, convs: seq<Convolution.ConvolutionLayer>, pools: seq<Pooling.PoolingLayer>)
    ensures |kernelList| == 2 && OddSquareKernels(kernelList[0]) && OddSquareKernels(kernelList[1])
    ensures |kernelList[0]| == 5 && forall i :: 0 <= i < 5 ==> kernelList[0][i].rows == 9
    ensures |kernelList[1]| == 10 && forall i :: 0 <= i < 10 ==> kernelList[1][i].rows == 5
    ensures |convs| == 2 && convs[0] != convs[1] && |pools| == 2 && pools[0] != pools[1]
    ensures forall a :: 0 <= a < 2 ==> fresh(convs[a]) && convs[a].input.None? && convs[a].kernels.None?
    ensures forall a :: 0 <= a < 2 ==> fresh(pools[a]) && pools[a].inputs.None? && pools[a].output.None?
  {
    var conv0 := new Convolution.ConvolutionLayer();
    var kernels0 := InitKernels(5, 9);
    var pool0 := new Pooling.PoolingLayer();
    var conv1 := new Convolution.ConvolutionLayer();
    var kernels1 := InitKernels(10, 5);
    var pool1 := new Pooling.PoolingLayer();
    kernelList := [kernels0, kernels1];
    convs := [conv0, conv1];
    pools := [pool0, pool1];
  }

  /** The fully-connected layers the network builds: 12800 inputs to 600 nodes, three
      layers of 600 to 600 and one of 600 to a single node, each layer with its bias
      column and its bias input in place. */
  predicate FullyConnectedShape(layers: seq<FullyConnected.FullyConnectedLayer>)
    reads set d | d in layers, set d | d in layers :: d.lastInput.data
  {
    |layers| == FullyConnectedDepth + 2 &&
    (forall d :: 0 <= d < |layers| ==> layers[d].Valid() && layers[d].BiasKept()) &&
    layers[0].weights.rows == FullyConnectedWidth && layers[0].weights.cols == 12800 + 1 &&
    (forall d :: 1 <= d <= FullyConnectedDepth ==>
      layers[d].weights.rows == FullyConnectedWidth && layers[d].weights.cols == FullyConnectedWidth + 1) &&
    layers[FullyConnectedDepth + 1].weights.rows == 1 && layers[FullyConnectedDepth + 1].weights.cols == FullyConnectedWidth + 1
  }

  /** The fully-connected part of `new CNN()`. */
  method FullyConnectedStack() returns (layers: seq<FullyConnected.FullyConnectedLayer>)
    ensures FullyConnectedShape(layers)
  {
    var first := new FullyConnected.FullyConnectedLayer(FullyConnectedWidth, 12800);
    layers := [first];
    var j := 0;
    while j < FullyConnectedDepth
      invariant j <= FullyConnectedDepth && |layers| == j + 1 && layers[0] == first
      invariant first.weights.rows == FullyConnectedWidth && first.weights.cols == 12800 + 1
      invariant forall d :: 0 <= d < |layers| ==> layers[d].Valid() && layers[d].BiasKept()
      invariant forall d :: 1 <= d < |layers| ==>
        layers[d].weights.rows == FullyConnectedWidth && layers[d].weights.cols == FullyConnectedWidth + 1
    {
      var hidden := new FullyConnected.FullyConnectedLayer(FullyConnectedWidth, FullyConnectedWidth);
      layers := layers + [hidden];
      j := j + 1;
    }
    var last := new FullyConnected.FullyConnectedLayer(1, FullyConnectedWidth);
    layers := layers + [last];
  }

  /** A 64 x 64 image passes the two stages of a new network as 50 maps of 16 x 16 and
      flattens to the 12800 inputs, one short of the weight columns, that the first
      fully-connected layer is built for. */
  method ImageFitsFirstLayer() returns (network: CNN, size: nat)
    ensures size == 12800
    ensures |network.fullyConnectedLayers| > 0 && network.fullyConnectedLayers[0].weights.cols == size + 1
  {
    network := new CNN();
    var image := new Matrix.Random(ImageSize, ImageSize);
    var vec := network.ConvolveInput(image);
    size := vec.Length();
    var maps := network.StageOutputs(image);
    assert StageLength(ImageSize, 2) == 16;
    assert MapCount(network.kernelList, 1) == 5;
    assert MapCount(network.kernelList, 2) == 50;
    UniformVectorSize(maps, 16, 16);
    SlotIsIndex(50, 0, 256);
  }
}
