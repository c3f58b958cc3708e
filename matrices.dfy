/**
 * The matrix helpers of the engine: the squared-difference measure between two
 * matrices, sparse random initialisation, the single-cell perturbation, the
 * row-vector product and the two activation functions.
 *
 * A matrix is a sequence of rows.  Weights are mathematical reals, so no
 * rounding is modelled.
 */
module Matrices {
  import opened Sequences

  type Matrix = seq<seq<real>>

  /** Largest magnitude a freshly drawn weight can have. */
  const WeightBound: real := 1.0
  /** Largest magnitude of one mutation step. */
  const MaxStep: real := 0.1

  predicate IsMatrix(m: Matrix, rows: nat, cols: nat)
  {
    |m| == rows && forall i :: 0 <= i < rows ==> |m[i]| == cols
  }

  /** Two matrices with the same number of rows and the same row lengths. */
  predicate SameDims(a: Matrix, b: Matrix)
  {
    |a| == |b| && forall i :: 0 <= i < |a| ==> |a[i]| == |b[i]|
  }

  predicate IsZero(m: Matrix)
  {
    forall i, j :: 0 <= i < |m| && 0 <= j < |m[i]| ==> m[i][j] == 0.0
  }

  function Zeros(rows: nat, cols: nat): (m: Matrix)
    ensures IsMatrix(m, rows, cols) && IsZero(m)
  {
    seq(rows, i => seq(cols, j => 0.0))
  }

  // ---------------------------------------------------------------------------
  // Similarity of two matrices: the sum over all cells of the squared difference

  function Sq(x: real): (r: real)
    ensures r >= 0.0
  {
    x * x
  }

  lemma ProductPositive(a: real, b: real, p: real)
    requires p == a * b && a > 0.0 && b > 0.0
    ensures p > 0.0
  {
  }

  /** A square is zero only for zero. */
  lemma SqZero(d: real)
    requires Sq(d) == 0.0
    ensures d == 0.0
  {
    if d > 0.0 {
      ProductPositive(d, d, Sq(d));
    } else if d < 0.0 {
      ProductPositive(-d, -d, Sq(d));
    }
  }

  /** Sum of squared differences over the first n cells of two rows, added left to right. */
  function CellSum(a: seq<real>, b: seq<real>, n: nat): (r: real)
    requires n <= |a| && n <= |b|
    ensures r >= 0.0
  {
    if n == 0 then 0.0 else CellSum(a, b, n - 1) + Sq(a[n - 1] - b[n - 1])
  }

  function RowDistance(a: seq<real>, b: seq<real>): real
  {
    CellSum(a, b, Min(|a|, |b|))
  }

  /** Sum of the row distances of the first n rows, added top to bottom. */
  function RowSum(a: Matrix, b: Matrix, n: nat): (r: real)
    requires n <= |a| && n <= |b|
    ensures r >= 0.0
  {
    if n == 0 then 0.0 else RowSum(a, b, n - 1) + RowDistance(a[n - 1], b[n - 1])
  }

  /**
   * The value matrix_similarity computes.  Both matrices have the same
   * dimensions wherever the engine uses it; on rows or columns that one of
   * them lacks the sum simply stops, like a zip.
   */
  function Distance(a: Matrix, b: Matrix): real
  {
    RowSum(a, b, Min(|a|, |b|))
  }

  /** matrix_similarity: the nested accumulator loop over all cells. */
  method MatrixSimilarity(one: Matrix, two: Matrix, rows: nat, cols: nat) returns (out: real)
    requires IsMatrix(one, rows, cols) && IsMatrix(two, rows, cols)
    ensures out == Distance(one, two)
    ensures out >= 0.0
  {
    out := 0.0;
    for i := 0 to rows
      invariant out == RowSum(one, two, i)
    {
      for j := 0 to cols
        invariant out == RowSum(one, two, i) + CellSum(one[i], two[i], j)
      {
        out := out + (one[i][j] - two[i][j]) * (one[i][j] - two[i][j]);
      }
    }
  }

  lemma {:induction false} CellSumSymmetric(a: seq<real>, b: seq<real>, n: nat)
    requires n <= |a| && n <= |b|
    ensures CellSum(a, b, n) == CellSum(b, a, n)
  {
    if n > 0 {
      CellSumSymmetric(a, b, n - 1);
      assert Sq(a[n - 1] - b[n - 1]) == Sq(b[n - 1] - a[n - 1]);
    }
  }

  lemma {:induction false} RowSumSymmetric(a: Matrix, b: Matrix, n: nat)
    requires n <= |a| && n <= |b|
    ensures RowSum(a, b, n) == RowSum(b, a, n)
  {
    if n > 0 {
      RowSumSymmetric(a, b, n - 1);
      CellSumSymmetric(a[n - 1], b[n - 1], Min(|a[n - 1]|, |b[n - 1]|));
    }
  }

  /** The matrix distance does not depend on the order of its arguments. */
  lemma DistanceSymmetric(a: Matrix, b: Matrix)
    ensures Distance(a, b) == Distance(b, a)
  {
    RowSumSymmetric(a, b, Min(|a|, |b|));
  }

  /** The first n cells of two rows agree exactly when their squared differences sum to zero. */
  lemma {:induction false} CellSumZero(a: seq<real>, b: seq<real>, n: nat)
    requires n <= |a| && n <= |b|
    ensures CellSum(a, b, n) == 0.0 <==> a[..n] == b[..n]
  {
    if n > 0 {
      CellSumZero(a, b, n - 1);
      var d := a[n - 1] - b[n - 1];
      assert a[..n] == a[..n - 1] + [a[n - 1]];
      assert b[..n] == b[..n - 1] + [b[n - 1]];
      if CellSum(a, b, n) == 0.0 {
        assert Sq(d) == 0.0;
        SqZero(d);
      }
    }
  }

  lemma {:induction false} RowSumZero(a: Matrix, b: Matrix, n: nat)
    requires n <= |a| && n <= |b|
    requires forall i :: 0 <= i < n ==> |a[i]| == |b[i]|
    ensures RowSum(a, b, n) == 0.0 <==> a[..n] == b[..n]
  {
    if n > 0 {
      RowSumZero(a, b, n - 1);
      var m := n - 1;
      CellSumZero(a[m], b[m], |a[m]|);
      assert a[m][..|a[m]|] == a[m] && b[m][..|b[m]|] == b[m];
      assert a[..n] == a[..m] + [a[m]];
      assert b[..n] == b[..m] + [b[m]];
    }
  }

  /** On matrices of equal dimensions the distance is zero exactly when they are identical. */
  lemma DistanceZeroIff(a: Matrix, b: Matrix)
    requires SameDims(a, b)
    ensures Distance(a, b) == 0.0 <==> a == b
  {
    RowSumZero(a, b, |a|);
    assert a[..|a|] == a && b[..|b|] == b;
  }

  lemma DistanceSelf(a: Matrix)
    ensures Distance(a, a) == 0.0
  {
    DistanceZeroIff(a, a);
  }

  // ---------------------------------------------------------------------------
  // Sparse random initialisation

  /**
   * One cell's random choice: the coin (probability 0.25) came up false and the
   * cell stays zero, or it came up true and a weight was drawn.
   */
  datatype CellDraw = Empty | Weight(value: real)

  /** The draws cover a rows by cols matrix and every drawn weight lies in [-1, 1]. */
  predicate DrawsFit(draws: seq<seq<CellDraw>>, rows: nat, cols: nat)
  {
    |draws| == rows &&
    forall i :: 0 <= i < rows ==>
      |draws[i]| == cols &&
      forall j :: 0 <= j < cols && draws[i][j].Weight? ==>
        -WeightBound <= draws[i][j].value <= WeightBound
  }

  function CellValue(d: CellDraw): real
  {
    if d.Weight? then d.value else 0.0
  }

  /** The matrix that a sequence of draws describes. */
  function FromDraws(draws: seq<seq<CellDraw>>): (m: Matrix)
    ensures |m| == |draws| && forall i :: 0 <= i < |m| ==> |m[i]| == |draws[i]|
  {
    seq(|draws|, i requires 0 <= i < |draws| =>
      seq(|draws[i]|, j requires 0 <= j < |draws[i]| => CellValue(draws[i][j])))
  }

  /** Every entry is either exactly zero or a weight in [-1, 1]. */
  predicate InitialRange(m: Matrix)
  {
    forall i, j :: 0 <= i < |m| && 0 <= j < |m[i]| ==>
      m[i][j] == 0.0 || -WeightBound <= m[i][j] <= WeightBound
  }

  /** random_matrix: a zeroed matrix whose cells are overwritten where the coin says so. */
  method RandomMatrix(rows: nat, cols: nat, draws: seq<seq<CellDraw>>) returns (m: Matrix)
    requires DrawsFit(draws, rows, cols)
    ensures IsMatrix(m, rows, cols)
    ensures m == FromDraws(draws)
    ensures InitialRange(m)
    ensures forall i, j :: 0 <= i < rows && 0 <= j < cols && draws[i][j].Empty? ==> m[i][j] == 0.0
  {
    m := Zeros(rows, cols);
    for i := 0 to rows
      invariant IsMatrix(m, rows, cols)
      invariant forall r :: 0 <= r < i ==> m[r] == FromDraws(draws)[r]
      invariant forall r, c :: i <= r < rows && 0 <= c < cols ==> m[r][c] == 0.0
    {
      for j := 0 to cols
        invariant IsMatrix(m, rows, cols)
        invariant forall r :: 0 <= r < i ==> m[r] == FromDraws(draws)[r]
        invariant forall r, c :: i < r < rows && 0 <= c < cols ==> m[r][c] == 0.0
        invariant forall c :: 0 <= c < j ==> m[i][c] == CellValue(draws[i][c])
        invariant forall c :: j <= c < cols ==> m[i][c] == 0.0
      {
        if draws[i][j].Weight? {
          m := m[i := m[i][j := draws[i][j].value]];
        }
      }
    }
  }

  // ---------------------------------------------------------------------------
  // Point mutation

  /**
   * mutate_matrix with the random row x, column y and step delta supplied by
   * the caller: exactly cell (x, y) moves by delta.
   */
  function MutateMatrix(m: Matrix, rows: nat, cols: nat, x: nat, y: nat, delta: real): (r: Matrix)
    requires IsMatrix(m, rows, cols) && x < rows && y < cols
    requires -MaxStep <= delta <= MaxStep
    ensures IsMatrix(r, rows, cols)
  {
    m[x := m[x][y := m[x][y] + delta]]
  }

  /** Exactly cell (x, y) moves by delta; every other cell keeps its value. */
  lemma MutateMatrixCells(m: Matrix, rows: nat, cols: nat, x: nat, y: nat, delta: real)
    requires IsMatrix(m, rows, cols) && x < rows && y < cols
    requires -MaxStep <= delta <= MaxStep
    ensures var r := MutateMatrix(m, rows, cols, x, y, delta);
      r[x][y] == m[x][y] + delta &&
      forall i, j :: 0 <= i < rows && 0 <= j < cols && (i, j) != (x, y) ==> r[i][j] == m[i][j]
  {
  }

  lemma {:induction false} CellSumSelf(a: seq<real>, n: nat)
    requires n <= |a|
    ensures CellSum(a, a, n) == 0.0
  {
    if n > 0 { CellSumSelf(a, n - 1); }
  }

  lemma {:induction false} CellSumOneCell(a: seq<real>, b: seq<real>, y: nat, n: nat)
    requires |a| == |b| && n <= |a| && y < |a|
    requires forall j :: 0 <= j < |a| && j != y ==> a[j] == b[j]
    ensures CellSum(a, b, n) == if y < n then Sq(a[y] - b[y]) else 0.0
  {
    if n > 0 { CellSumOneCell(a, b, y, n - 1); }
  }

  lemma {:induction false} RowSumOneCell(a: Matrix, b: Matrix, x: nat, y: nat, n: nat)
    requires SameDims(a, b) && n <= |a| && x < |a| && y < |a[x]|
    requires forall i, j :: 0 <= i < |a| && 0 <= j < |a[i]| && (i, j) != (x, y) ==> a[i][j] == b[i][j]
    ensures RowSum(a, b, n) == if x < n then Sq(a[x][y] - b[x][y]) else 0.0
  {
    if n > 0 {
      RowSumOneCell(a, b, x, y, n - 1);
      var i := n - 1;
      if i == x {
        CellSumOneCell(a[i], b[i], y, |a[i]|);
      } else {
        assert a[i] == b[i];
        CellSumSelf(a[i], |a[i]|);
      }
    }
  }

  /** One mutation moves a matrix by exactly the square of its step. */
  lemma MutateMatrixDistance(m: Matrix, rows: nat, cols: nat, x: nat, y: nat, delta: real)
    requires IsMatrix(m, rows, cols) && x < rows && y < cols
    requires -MaxStep <= delta <= MaxStep
    ensures Distance(MutateMatrix(m, rows, cols, x, y, delta), m) == Sq(delta)
  {
    var r := MutateMatrix(m, rows, cols, x, y, delta);
    MutateMatrixCells(m, rows, cols, x, y, delta);
    RowSumOneCell(r, m, x, y, rows);
    assert r[x][y] - m[x][y] == delta;
  }

  // ---------------------------------------------------------------------------
  // Forward pass helpers

  /** The first n terms of column col of the product of row vector v with m. */
  function Dot(v: seq<real>, m: Matrix, col: nat, n: nat): real
    requires n <= |v| && n <= |m| && forall i :: 0 <= i < n ==> col < |m[i]|
  {
    if n == 0 then 0.0 else Dot(v, m, col, n - 1) + v[n - 1] * m[n - 1][col]
  }

  /** The 1 by cols product of the row vector v with the |v| by cols matrix m. */
  function Times(v: seq<real>, m: Matrix, cols: nat): (r: seq<real>)
    requires IsMatrix(m, |v|, cols)
    ensures |r| == cols
  {
    seq(cols, j requires 0 <= j < cols => Dot(v, m, j, |v|))
  }

  lemma {:induction false} DotZero(v: seq<real>, m: Matrix, col: nat, n: nat)
    requires n <= |v| && n <= |m| && forall i :: 0 <= i < n ==> col < |m[i]|
    requires IsZero(m)
    ensures Dot(v, m, col, n) == 0.0
  {
    if n > 0 { DotZero(v, m, col, n - 1); }
  }

  /** Whatever the input, a zero matrix projects it to the zero vector. */
  lemma TimesZero(v: seq<real>, m: Matrix, cols: nat)
    requires IsMatrix(m, |v|, cols) && IsZero(m)
    ensures Times(v, m, cols) == seq(cols, j => 0.0)
  {
    forall j | 0 <= j < cols
      ensures Times(v, m, cols)[j] == 0.0
    {
      DotZero(v, m, j, |v|);
    }
  }

  function LeakyRelu(k: real): real
  {
    if k > 0.0 then k else k / 2.0
  }

  /** relu: positive entries pass unchanged, the others are halved. */
  function Relu(v: seq<real>): (r: seq<real>)
    ensures |r| == |v|
    ensures forall i :: 0 <= i < |v| ==> (r[i] > 0.0 <==> v[i] > 0.0) && r[i] >= v[i]
    ensures forall i :: 0 <= i < |v| ==> (v[i] > 0.0 ==> r[i] == v[i]) && (v[i] <= 0.0 ==> 2.0 * r[i] == v[i])
  {
    seq(|v|, i requires 0 <= i < |v| => LeakyRelu(v[i]))
  }

  /** relu is monotone: a pointwise larger input gives a pointwise larger output. */
  lemma ReluMonotone(v: seq<real>, w: seq<real>)
    requires |v| == |w| && forall i :: 0 <= i < |v| ==> v[i] <= w[i]
    ensures forall i :: 0 <= i < |v| ==> Relu(v)[i] <= Relu(w)[i]
  {
  }

  /** exp always gives a positive value. */
  ghost predicate Positive(exp: real -> real)
  {
    forall x :: exp(x) > 0.0
  }

  ghost predicate Increasing(exp: real -> real)
  {
    forall x, y :: x < y ==> exp(x) < exp(y)
  }

  /**
   * The mirrored logistic 1 / (1 + e^x).  The exponential is not modelled:
   * it is passed in as exp.
   */
  function Sigmoid(x: real, exp: real -> real): (r: real)
    requires exp(x) > 0.0
    ensures 0.0 < r < 1.0
  {
    var e := exp(x);
    assert (1.0 + e) * (1.0 / (1.0 + e)) == 1.0;
    1.0 / (1.0 + e)
  }

  /** sigmoid: the mirrored logistic applied to every entry. */
  function SigmoidAll(v: seq<real>, exp: real -> real): (r: seq<real>)
    requires Positive(exp)
    ensures |r| == |v|
    ensures forall i :: 0 <= i < |v| ==> 0.0 < r[i] < 1.0
  {
    seq(|v|, i requires 0 <= i < |v| => Sigmoid(v[i], exp))
  }

  /** With a real exponential the activation falls as its argument grows. */
  lemma SigmoidDecreasing(x: real, y: real, exp: real -> real)
    requires Positive(exp) && Increasing(exp) && x < y
    ensures Sigmoid(x, exp) > Sigmoid(y, exp)
  {
    var ex, ey := exp(x), exp(y);
    var a, b := 1.0 / (1.0 + ex), 1.0 / (1.0 + ey);
    assert a * (1.0 + ex) == 1.0;
    assert b * (1.0 + ey) == 1.0;
    assert b > 0.0;
    assert b * (1.0 + ex) < b * (1.0 + ey);
    assert b * (1.0 + ex) < a * (1.0 + ex);
  }

  lemma SigmoidAtZero(exp: real -> real)
    requires Positive(exp) && exp(0.0) == 1.0
    ensures Sigmoid(0.0, exp) == 0.5
  {
  }
}
