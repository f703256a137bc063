// The behavioural reference for the convolution accelerator: the sequential
// test-data generator and the strided 2-D convolution the hardware output is
// compared with. Arrays are square; numpy arrays become sequences of rows,
// and the output buffer the convolution fills in place becomes an array2.

module BehavSim {
  import opened Powers
  import opened Outcomes

  /** A 2-D array as a sequence of rows. */
  type Matrix = seq<seq<int>>

  /** Every row is as long as the matrix is tall. */
  predicate Square(m: Matrix)
  {
    forall r :: 0 <= r < |m| ==> |m[r]| == |m|
  }

  // ---------------------------------------------------------------------
  // generate_sequential_array
  // ---------------------------------------------------------------------

  /** `arr.reshape(rows, cols)`: consecutive runs of cols elements as rows. */
  function Reshape(flat: seq<int>, rows: nat, cols: nat): (m: Matrix)
    requires |flat| == rows * cols
    ensures |m| == rows
    ensures forall r :: 0 <= r < rows ==> |m[r]| == cols
  {
    if rows == 0 then []
    else [flat[..cols]] + Reshape(flat[cols..], rows - 1, cols)
  }

  /** The rows laid end to end again. */
  function Flatten(m: Matrix): seq<int>
  {
    if |m| == 0 then [] else m[0] + Flatten(m[1..])
  }

  /** Element (r, c) of the reshaped array is element r * cols + c of the
      flat one. */
  lemma {:induction false} ReshapeAt(flat: seq<int>, rows: nat, cols: nat, r: nat, c: nat)
    requires |flat| == rows * cols
    requires r < rows && c < cols
    ensures r * cols + c < |flat|
    ensures Reshape(flat, rows, cols)[r][c] == flat[r * cols + c]
  {
    MulMonotone(r + 1, cols, rows, cols);
    if r > 0 {
      ReshapeAt(flat[cols..], rows - 1, cols, r - 1, c);
      assert (r - 1) * cols + c + cols == r * cols + c;
    }
  }

  /** Reshaping loses nothing: flattening gives back the flat array. */
  lemma {:induction false} FlattenReshape(flat: seq<int>, rows: nat, cols: nat)
    requires |flat| == rows * cols
    ensures Flatten(Reshape(flat, rows, cols)) == flat
  {
    if rows > 0 {
      MulMonotone(1, cols, rows, cols);
      FlattenReshape(flat[cols..], rows - 1, cols);
      assert flat[..cols] + flat[cols..] == flat;
    }
  }

  /** `generate_sequential_array(n, p)`: `arange(n * n) % 2^p`, reshaped
      to n x n. */
  function GenerateSequential(n: nat, precision: nat): (m: Matrix)
    ensures |m| == n && Square(m)
  {
    Reshape(seq(n * n, i => i % Pow2(precision)), n, n)
  }

  /** Element (r, c) is (r * n + c) mod 2^p, so it lies in [0, 2^p). */
  lemma SequentialAt(n: nat, precision: nat, r: nat, c: nat)
    requires r < n && c < n
    ensures GenerateSequential(n, precision)[r][c] == (r * n + c) % Pow2(precision)
    ensures 0 <= GenerateSequential(n, precision)[r][c] < Pow2(precision)
  {
    ReshapeAt(seq(n * n, i => i % Pow2(precision)), n, n, r, c);
  }

  /** Wide enough, the generator numbers the elements in row-major order. */
  lemma SequentialNumbers(n: nat, precision: nat, r: nat, c: nat)
    requires r < n && c < n && n * n <= Pow2(precision)
    ensures GenerateSequential(n, precision)[r][c] == r * n + c
  {
    SequentialAt(n, precision, r, c);
    ReshapeAt(seq(n * n, i => i % Pow2(precision)), n, n, r, c);
    DivModUnique(r * n + c, Pow2(precision), 0, r * n + c);
  }

  // ---------------------------------------------------------------------
  // convolve_2d
  // ---------------------------------------------------------------------

  /** Errors the convolution raises: a zero stride divides by zero, and a
      negative output side is a negative array dimension. */
  datatype ConvError = ZeroStride | NegativeDimension

  /** Integers of at most this magnitude survive the float32 output buffer
      unchanged. */
  const Float32Exact: int := 0x100_0000

  /** The output side, `(n - k) // stride + 1`; for a positive stride
      Python's floor division is Dafny's division. */
  function OutputSize(n: int, k: int, stride: nat): int
    requires stride > 0
  {
    (n - k) / stride + 1
  }

  /** The side is at least 1 exactly when the kernel fits, 0 when it is
      longer by at most the stride, and negative beyond that; when the
      kernel fits, the last window fits and one more would not. */
  lemma OutputSizeCases(n: int, k: int, stride: nat)
    requires stride > 0
    ensures OutputSize(n, k, stride) >= 1 <==> k <= n
    ensures OutputSize(n, k, stride) == 0 <==> n < k <= n + stride
    ensures OutputSize(n, k, stride) < 0 <==> n + stride < k
    ensures k <= n ==>
      (OutputSize(n, k, stride) - 1) * stride + k <= n < OutputSize(n, k, stride) * stride + k
  {
    var q := (n - k) / stride;
    var r := (n - k) % stride;
    assert n - k == q * stride + r && 0 <= r < stride;
    MulSign(q, stride);
    MulSign(q + 1, stride);
    assert (q + 1) * stride == q * stride + stride;
  }

  /** Every window anchored at an output index stays inside the input. */
  lemma WindowInBounds(n: int, k: int, stride: nat, i: nat)
    requires stride > 0 && i < OutputSize(n, k, stride)
    ensures i * stride + k <= n
  {
    OutputSizeCases(n, k, stride);
    var size := OutputSize(n, k, stride);
    MulMonotone(i, stride, size - 1, stride);
  }

  /** The sum over one kernel row: input[x + ki][y + c] * kernel[ki][c] for
      c < cols. */
  function RowDot(input: Matrix, kernel: Matrix, x: nat, y: nat, ki: nat, cols: nat): int
    requires Square(input) && Square(kernel)
    requires x + |kernel| <= |input| && y + |kernel| <= |input|
    requires ki < |kernel| && cols <= |kernel|
  {
    if cols == 0 then 0
    else RowDot(input, kernel, x, y, ki, cols - 1) + input[x + ki][y + cols - 1] * kernel[ki][cols - 1]
  }

  /** The sum of the elementwise product of the kernel with the window at
      (x, y), over the first `rows` kernel rows. */
  function WindowSum(input: Matrix, kernel: Matrix, x: nat, y: nat, rows: nat): int
    requires Square(input) && Square(kernel)
    requires x + |kernel| <= |input| && y + |kernel| <= |input|
    requires rows <= |kernel|
  {
    if rows == 0 then 0
    else WindowSum(input, kernel, x, y, rows - 1) + RowDot(input, kernel, x, y, rows - 1, |kernel|)
  }

  /** Output cell (i, j): the whole window at (i * stride, j * stride). */
  function Cell(input: Matrix, kernel: Matrix, stride: nat, i: nat, j: nat): int
    requires Square(input) && Square(kernel) && stride > 0
    requires i < OutputSize(|input|, |kernel|, stride) && j < OutputSize(|input|, |kernel|, stride)
  {
    WindowInBounds(|input|, |kernel|, stride, i);
    WindowInBounds(|input|, |kernel|, stride, j);
    WindowSum(input, kernel, i * stride, j * stride, |kernel|)
  }

  /** The two inputs agree on the k x k window at (x, y). */
  predicate SameWindow(input: Matrix, other: Matrix, x: nat, y: nat, k: nat)
    requires Square(input) && Square(other) && |other| == |input|
    requires x + k <= |input| && y + k <= |input|
  {
    forall p, q :: x <= p < x + k && y <= q < y + k ==> input[p][q] == other[p][q]
  }

  /** Every entry of the k x k window at (x, y) lies in [lo, hi]. */
  predicate WindowWithin(input: Matrix, x: nat, y: nat, k: nat, lo: int, hi: int)
    requires Square(input) && x + k <= |input| && y + k <= |input|
  {
    forall p, q :: x <= p < x + k && y <= q < y + k ==> lo <= input[p][q] <= hi
  }

  /** Inputs that agree on a window give the same window sum: a cell reads
      nothing outside its own window. */
  lemma {:induction false} WindowLocality(input: Matrix, other: Matrix, kernel: Matrix, x: nat, y: nat, rows: nat)
    requires Square(input) && Square(other) && Square(kernel) && |other| == |input|
    requires x + |kernel| <= |input| && y + |kernel| <= |input| && rows <= |kernel|
    requires SameWindow(input, other, x, y, |kernel|)
    ensures WindowSum(input, kernel, x, y, rows) == WindowSum(other, kernel, x, y, rows)
  {
    if rows > 0 {
      WindowLocality(input, other, kernel, x, y, rows - 1);
      RowLocality(input, other, kernel, x, y, rows - 1, |kernel|);
    }
  }

  lemma {:induction false} RowLocality(input: Matrix, other: Matrix, kernel: Matrix, x: nat, y: nat, ki: nat, cols: nat)
    requires Square(input) && Square(other) && Square(kernel) && |other| == |input|
    requires x + |kernel| <= |input| && y + |kernel| <= |input| && ki < |kernel| && cols <= |kernel|
    requires SameWindow(input, other, x, y, |kernel|)
    ensures RowDot(input, kernel, x, y, ki, cols) == RowDot(other, kernel, x, y, ki, cols)
  {
    if cols > 0 {
      RowLocality(input, other, kernel, x, y, ki, cols - 1);
      assert input[x + ki][y + cols - 1] == other[x + ki][y + cols - 1];
    }
  }

  /** Each output cell depends only on the input inside its own window. */
  lemma CellLocality(input: Matrix, other: Matrix, kernel: Matrix, stride: nat, i: nat, j: nat)
    requires Square(input) && Square(other) && Square(kernel) && |other| == |input| && stride > 0
    requires i < OutputSize(|input|, |kernel|, stride) && j < OutputSize(|input|, |kernel|, stride)
    requires i * stride + |kernel| <= |input| && j * stride + |kernel| <= |input|
    requires SameWindow(input, other, i * stride, j * stride, |kernel|)
    ensures Cell(input, kernel, stride, i, j) == Cell(other, kernel, stride, i, j)
  {
    WindowLocality(input, other, kernel, i * stride, j * stride, |kernel|);
  }

  /** A window of c's under a kernel of d's sums to rows * k * c * d: the
      products and their sum are exact, nothing is truncated. */
  lemma {:induction false} UniformWindow(input: Matrix, kernel: Matrix, x: nat, y: nat, rows: nat, c: int, d: int)
    requires Square(input) && Square(kernel)
    requires x + |kernel| <= |input| && y + |kernel| <= |input| && rows <= |kernel|
    requires WindowWithin(input, x, y, |kernel|, c, c) && WindowWithin(kernel, 0, 0, |kernel|, d, d)
    ensures WindowSum(input, kernel, x, y, rows) == rows * (|kernel| * (c * d))
  {
    if rows > 0 {
      UniformWindow(input, kernel, x, y, rows - 1, c, d);
      UniformRow(input, kernel, x, y, rows - 1, |kernel|, c, d);
      assert rows * (|kernel| * (c * d)) == (rows - 1) * (|kernel| * (c * d)) + |kernel| * (c * d);
    }
  }

  lemma {:induction false} UniformRow(input: Matrix, kernel: Matrix, x: nat, y: nat, ki: nat, cols: nat, c: int, d: int)
    requires Square(input) && Square(kernel)
    requires x + |kernel| <= |input| && y + |kernel| <= |input| && ki < |kernel| && cols <= |kernel|
    requires WindowWithin(input, x, y, |kernel|, c, c) && WindowWithin(kernel, 0, 0, |kernel|, d, d)
    ensures RowDot(input, kernel, x, y, ki, cols) == cols * (c * d)
  {
    if cols > 0 {
      UniformRow(input, kernel, x, y, ki, cols - 1, c, d);
      assert input[x + ki][y + cols - 1] == c && kernel[ki][cols - 1] == d;
      assert cols * (c * d) == (cols - 1) * (c * d) + c * d;
    }
  }

  /** An n x n matrix of ones. */
  function Ones(n: nat): (m: Matrix)
    ensures |m| == n && Square(m)
  {
    seq(n, _ => seq(n, _ => 1))
  }

  /** A 5 x 5 input of ones under a 3 x 3 kernel of ones at stride 1 gives a
      3 x 3 output of nines. */
  lemma AllOnesExample()
    ensures OutputSize(5, 3, 1) == 3
    ensures forall i: nat, j: nat :: i < 3 && j < 3 ==> Cell(Ones(5), Ones(3), 1, i, j) == 9
  {
    forall i: nat, j: nat | i < 3 && j < 3
      ensures Cell(Ones(5), Ones(3), 1, i, j) == 9
    {
      UniformWindow(Ones(5), Ones(3), i, j, 3, 1, 1);
    }
  }

  /** Bounds on the factors bound the product. */
  lemma ProductWithin(v: int, w: int, a: int, b: int)
    requires -a <= v <= a && -b <= w <= b
    ensures -(a * b) <= v * w <= a * b
  {
    var av := if v < 0 then -v else v;
    var aw := if w < 0 then -w else w;
    MulMonotone(av, aw, a, b);
    assert v * w == av * aw || v * w == -(av * aw);
  }

  /** Entries bounded by a and kernel weights bounded by b bound the window
      sum by rows * k * a * b. */
  lemma {:induction false} WindowBound(input: Matrix, kernel: Matrix, x: nat, y: nat, rows: nat, a: int, b: int)
    requires Square(input) && Square(kernel)
    requires x + |kernel| <= |input| && y + |kernel| <= |input| && rows <= |kernel|
    requires WindowWithin(input, x, y, |kernel|, -a, a) && WindowWithin(kernel, 0, 0, |kernel|, -b, b)
    ensures -(rows * (|kernel| * (a * b))) <= WindowSum(input, kernel, x, y, rows) <= rows * (|kernel| * (a * b))
  {
    if rows > 0 {
      WindowBound(input, kernel, x, y, rows - 1, a, b);
      RowBound(input, kernel, x, y, rows - 1, |kernel|, a, b);
      assert rows * (|kernel| * (a * b)) == (rows - 1) * (|kernel| * (a * b)) + |kernel| * (a * b);
    }
  }

  lemma {:induction false} RowBound(input: Matrix, kernel: Matrix, x: nat, y: nat, ki: nat, cols: nat, a: int, b: int)
    requires Square(input) && Square(kernel)
    requires x + |kernel| <= |input| && y + |kernel| <= |input| && ki < |kernel| && cols <= |kernel|
    requires WindowWithin(input, x, y, |kernel|, -a, a) && WindowWithin(kernel, 0, 0, |kernel|, -b, b)
    ensures -(cols * (a * b)) <= RowDot(input, kernel, x, y, ki, cols) <= cols * (a * b)
  {
    if cols > 0 {
      RowBound(input, kernel, x, y, ki, cols - 1, a, b);
      ProductWithin(input[x + ki][y + cols - 1], kernel[ki][cols - 1], a, b);
      assert cols * (a * b) == (cols - 1) * (a * b) + a * b;
    }
  }

  /** Sequential test data of precision at most 17 under the 3 x 3
      sequential kernel the driver uses never leaves the range the float32
      buffer holds exactly, whatever the input size and stride. */
  lemma SequentialFitsFloat32(n: nat, precision: nat, stride: nat)
    requires precision <= 17 && stride > 0
    ensures FitsFloat32(GenerateSequential(n, precision), GenerateSequential(3, precision), stride)
  {
    var input := GenerateSequential(n, precision);
    var kernel := GenerateSequential(3, precision);
    SequentialKernelSmall(precision);
    SequentialEntriesBelow(n, precision);
    forall i: nat, j: nat | i < OutputSize(n, 3, stride) && j < OutputSize(n, 3, stride)
      ensures -Float32Exact <= Cell(input, kernel, stride, i, j) <= Float32Exact
    {
      WindowInBounds(n, 3, stride, i);
      WindowInBounds(n, 3, stride, j);
      WindowBound(input, kernel, i * stride, j * stride, 3, 131071, 8);
    }
  }

  /** The 3 x 3 sequential kernel holds 0..8, reduced, so nothing above 8. */
  lemma SequentialKernelSmall(precision: nat)
    ensures WindowWithin(GenerateSequential(3, precision), 0, 0, 3, -8, 8)
  {
    forall p, q | 0 <= p < 3 && 0 <= q < 3
      ensures -8 <= GenerateSequential(3, precision)[p][q] <= 8
    {
      SequentialAt(3, precision, p, q);
      DivModBelow(p * 3 + q, Pow2(precision));
    }
  }

  /** Sequential entries of precision at most 17 stay below 2^17. */
  lemma SequentialEntriesBelow(n: nat, precision: nat)
    requires precision <= 17
    ensures WindowWithin(GenerateSequential(n, precision), 0, 0, n, -131071, 131071)
  {
    Pow2Monotone(precision, 17);
    assert Pow2(8) == 256;
    Pow2Add(8, 8);
    assert Pow2(17) == 2 * Pow2(16) == 131072;
    forall p, q | 0 <= p < n && 0 <= q < n
      ensures -131071 <= GenerateSequential(n, precision)[p][q] <= 131071
    {
      SequentialAt(n, precision, p, q);
    }
  }

  /** A remainder never exceeds a non-negative dividend. */
  lemma DivModBelow(v: nat, m: int)
    requires 0 < m
    ensures v % m <= v
  {
    if v < m {
      DivModUnique(v, m, 0, v);
    } else {
      MulSign(v / m, m);
    }
  }

  /** Every output cell survives the float32 buffer. */
  predicate FitsFloat32(input: Matrix, kernel: Matrix, stride: nat)
    requires Square(input) && Square(kernel) && stride > 0
  {
    forall i: nat, j: nat :: i < OutputSize(|input|, |kernel|, stride) && j < OutputSize(|input|, |kernel|, stride) ==>
      -Float32Exact <= Cell(input, kernel, stride, i, j) <= Float32Exact
  }

  /** `convolve_2d(input, kernel, stride)`: allocate the output, then fill
      each cell (i, j) with the window sum at (i * stride, j * stride). */
  method Convolve2D(input: Matrix, kernel: Matrix, stride: nat) returns (r: Result<array2<int>, ConvError>)
    requires Square(input) && Square(kernel)
    requires stride > 0 ==> FitsFloat32(input, kernel, stride)
    ensures stride == 0 <==> r == Failure(ZeroStride)
    ensures stride > 0 ==> (r == Failure(NegativeDimension) <==> OutputSize(|input|, |kernel|, stride) < 0)
    ensures r.Success? ==> fresh(r.value)
    ensures r.Success? ==>
      && stride > 0
      && r.value.Length0 == OutputSize(|input|, |kernel|, stride)
      && r.value.Length1 == OutputSize(|input|, |kernel|, stride)
      && forall i: nat, j: nat :: i < r.value.Length0 && j < r.value.Length1 ==>
           r.value[i, j] == Cell(input, kernel, stride, i, j)
  {
    var n := |input|;
    var k := |kernel|;
    if stride == 0 {
      return Failure(ZeroStride);
    }
    var size := OutputSize(n, k, stride);
    if size < 0 {
      return Failure(NegativeDimension);
    }
    var output := new int[size, size]((_, _) => 0);
    var i := 0;
    while i < size
      invariant 0 <= i <= size
      invariant forall a: nat, b: nat :: a < i && b < size ==> output[a, b] == Cell(input, kernel, stride, a, b)
    {
      var j := 0;
      while j < size
        invariant 0 <= j <= size
        invariant forall a: nat, b: nat :: a < i && b < size ==> output[a, b] == Cell(input, kernel, stride, a, b)
        invariant forall b: nat :: b < j ==> output[i, b] == Cell(input, kernel, stride, i, b)
      {
        var x, y := i * stride, j * stride;
        WindowInBounds(n, k, stride, i);
        WindowInBounds(n, k, stride, j);
        output[i, j] := WindowSum(input, kernel, x, y, k);
        j := j + 1;
      }
      i := i + 1;
    }
    return Success(output);
  }
}
