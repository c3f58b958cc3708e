/**
 * One genome of the engine: an input matrix, a fixed number of square hidden
 * matrices and an output matrix, plus the fitness the caller accumulates.
 *
 * The four size parameters of the generic struct (inputs, layers, outputs and
 * sublayers) are carried as a Shape value.  An Individual is a plain value: the
 * engine clones it and keeps it by value in its vector, so no two slots share one.
 */
module Individuals {
  import opened Sequences
  import opened Matrices

  datatype Shape = Shape(inputs: nat, layers: nat, outputs: nat, sublayers: nat)

  datatype Individual = Individual(input: Matrix, hidden: seq<Matrix>, output: Matrix, fitness: real)

  /** input is inputs x sublayers, each hidden matrix sublayers x sublayers, output sublayers x outputs. */
  predicate WellShaped(x: Individual, shape: Shape)
  {
    IsMatrix(x.input, shape.inputs, shape.sublayers) &&
    |x.hidden| == shape.layers &&
    (forall k :: 0 <= k < |x.hidden| ==> IsMatrix(x.hidden[k], shape.sublayers, shape.sublayers)) &&
    IsMatrix(x.output, shape.sublayers, shape.outputs)
  }

  /** The two genomes carry the same weights (their fitness may differ). */
  predicate SameWeights(x: Individual, y: Individual)
  {
    x.input == y.input && x.hidden == y.hidden && x.output == y.output
  }

  // ---------------------------------------------------------------------------
  // Similarity

  /** Sum of the distances of the first n hidden matrices, paired in order. */
  function HiddenDistance(a: seq<Matrix>, b: seq<Matrix>, n: nat): (r: real)
    requires n <= |a| && n <= |b|
    ensures r >= 0.0
  {
    if n == 0 then 0.0 else HiddenDistance(a, b, n - 1) + Distance(a[n - 1], b[n - 1])
  }

  /**
   * similarity: the sum of squared differences over the input matrix, the
   * hidden matrices paired in order (a zip) and the output matrix.
   */
  function Similarity(x: Individual, y: Individual): (r: real)
    ensures r >= 0.0
  {
    Distance(x.input, y.input)
      + HiddenDistance(x.hidden, y.hidden, Min(|x.hidden|, |y.hidden|))
      + Distance(x.output, y.output)
  }

  lemma {:induction false} HiddenDistanceSymmetric(a: seq<Matrix>, b: seq<Matrix>, n: nat)
    requires n <= |a| && n <= |b|
    ensures HiddenDistance(a, b, n) == HiddenDistance(b, a, n)
  {
    if n > 0 {
      HiddenDistanceSymmetric(a, b, n - 1);
      DistanceSymmetric(a[n - 1], b[n - 1]);
    }
  }

  lemma SimilaritySymmetric(x: Individual, y: Individual)
    ensures Similarity(x, y) == Similarity(y, x)
  {
    DistanceSymmetric(x.input, y.input);
    HiddenDistanceSymmetric(x.hidden, y.hidden, Min(|x.hidden|, |y.hidden|));
    DistanceSymmetric(x.output, y.output);
  }

  lemma {:induction false} HiddenDistanceZero(a: seq<Matrix>, b: seq<Matrix>, n: nat)
    requires n <= |a| && n <= |b|
    requires forall k :: 0 <= k < n ==> SameDims(a[k], b[k])
    ensures HiddenDistance(a, b, n) == 0.0 <==> a[..n] == b[..n]
  {
    if n > 0 {
      HiddenDistanceZero(a, b, n - 1);
      DistanceZeroIff(a[n - 1], b[n - 1]);
      assert a[..n] == a[..n - 1] + [a[n - 1]];
      assert b[..n] == b[..n - 1] + [b[n - 1]];
    }
  }

  /**
   * Two genomes of one shape are at similarity zero exactly when all their
   * weights agree; in particular every genome is at zero from itself.
   */
  lemma SimilarityZeroIff(x: Individual, y: Individual, shape: Shape)
    requires WellShaped(x, shape) && WellShaped(y, shape)
    ensures Similarity(x, y) == 0.0 <==> SameWeights(x, y)
  {
    DistanceZeroIff(x.input, y.input);
    HiddenDistanceZero(x.hidden, y.hidden, shape.layers);
    assert x.hidden[..shape.layers] == x.hidden && y.hidden[..shape.layers] == y.hidden;
    DistanceZeroIff(x.output, y.output);
  }

  lemma {:induction false} HiddenDistanceSelf(a: seq<Matrix>, n: nat)
    requires n <= |a|
    ensures HiddenDistance(a, a, n) == 0.0
  {
    if n > 0 {
      HiddenDistanceSelf(a, n - 1);
      DistanceSelf(a[n - 1]);
    }
  }

  lemma SimilaritySelf(x: Individual)
    ensures Similarity(x, x) == 0.0
  {
    DistanceSelf(x.input);
    HiddenDistanceSelf(x.hidden, |x.hidden|);
    DistanceSelf(x.output);
  }

  // ---------------------------------------------------------------------------
  // Point mutation

  /**
   * The random choices of one mutate call: the slot (0 the input matrix,
   * layers + 1 the output matrix, anything between a hidden matrix), the
   * cell, and the step added to it.
   */
  datatype Mutation = Mutation(layer: nat, row: nat, col: nat, delta: real)

  function Rows(shape: Shape, layer: nat): nat
  {
    if layer == 0 then shape.inputs else shape.sublayers
  }

  function Cols(shape: Shape, layer: nat): nat
  {
    if layer == shape.layers + 1 then shape.outputs else shape.sublayers
  }

  /**
   * A shape whose input, output and hidden widths are positive: every slot
   * then has rows and columns, so no range that mutate draws from is empty.
   */
  predicate NonEmptySlots(shape: Shape)
  {
    shape.inputs > 0 && shape.outputs > 0 && shape.sublayers > 0
  }

  lemma SlotsNonEmpty(shape: Shape, layer: nat)
    requires NonEmptySlots(shape) && layer < shape.layers + 2
    ensures Rows(shape, layer) > 0 && Cols(shape, layer) > 0
  {
  }

  /** The ranges the random number generator draws the choices from. */
  predicate ValidMutation(shape: Shape, m: Mutation)
  {
    m.layer < shape.layers + 2 &&
    m.row < Rows(shape, m.layer) && m.col < Cols(shape, m.layer) &&
    -MaxStep <= m.delta <= MaxStep
  }

  /** The matrix that a slot number selects. */
  function Slot(x: Individual, layer: nat): Matrix
    requires layer < |x.hidden| + 2
  {
    if layer == 0 then x.input
    else if layer == |x.hidden| + 1 then x.output
    else x.hidden[layer - 1]
  }

  lemma SlotShape(x: Individual, shape: Shape, layer: nat)
    requires WellShaped(x, shape) && layer < shape.layers + 2
    ensures IsMatrix(Slot(x, layer), Rows(shape, layer), Cols(shape, layer))
  {
  }

  /** mutate: one cell of the slot the mutation names moves by its step (see MutateCells). */
  function Mutate(x: Individual, shape: Shape, m: Mutation): (r: Individual)
    requires WellShaped(x, shape) && ValidMutation(shape, m)
    ensures WellShaped(r, shape)
    ensures r.fitness == x.fitness
  {
    var rows, cols := Rows(shape, m.layer), Cols(shape, m.layer);
    if m.layer == 0 then
      x.(input := MutateMatrix(x.input, rows, cols, m.row, m.col, m.delta))
    else if m.layer == shape.layers + 1 then
      x.(output := MutateMatrix(x.output, rows, cols, m.row, m.col, m.delta))
    else
      x.(hidden := x.hidden[m.layer - 1 := MutateMatrix(x.hidden[m.layer - 1], rows, cols, m.row, m.col, m.delta)])
  }

  /**
   * mutate changes exactly one cell of exactly one matrix, by the step; every
   * other cell of every matrix keeps its value.
   */
  lemma MutateCells(x: Individual, shape: Shape, m: Mutation)
    requires WellShaped(x, shape) && ValidMutation(shape, m)
    ensures var r := Mutate(x, shape, m);
      Slot(r, m.layer)[m.row][m.col] == Slot(x, m.layer)[m.row][m.col] + m.delta &&
      forall l, i, j ::
        (0 <= l < shape.layers + 2 && 0 <= i < Rows(shape, l) && 0 <= j < Cols(shape, l) &&
         (l, i, j) != (m.layer, m.row, m.col)) ==> Slot(r, l)[i][j] == Slot(x, l)[i][j]
  {
    var source := Slot(x, m.layer);
    SlotShape(x, shape, m.layer);
    MutateMatrixCells(source, Rows(shape, m.layer), Cols(shape, m.layer), m.row, m.col, m.delta);
  }

  lemma {:induction false} HiddenDistanceOneChanged(a: seq<Matrix>, b: seq<Matrix>, k: nat, n: nat)
    requires |a| == |b| && k < |a| && n <= |a|
    requires forall q :: 0 <= q < |a| && q != k ==> a[q] == b[q]
    ensures HiddenDistance(a, b, n) == if k < n then Distance(a[k], b[k]) else 0.0
  {
    if n > 0 {
      HiddenDistanceOneChanged(a, b, k, n - 1);
      if n - 1 != k {
        DistanceSelf(a[n - 1]);
      }
    }
  }

  /** A mutated genome lies at similarity exactly delta squared from the original. */
  lemma MutateSimilarity(x: Individual, shape: Shape, m: Mutation)
    requires WellShaped(x, shape) && ValidMutation(shape, m)
    ensures Similarity(Mutate(x, shape, m), x) == Sq(m.delta)
  {
    var rows, cols := Rows(shape, m.layer), Cols(shape, m.layer);
    var k := if m.layer == 0 || m.layer == shape.layers + 1 then 0 else m.layer - 1;
    var source := if m.layer == 0 then x.input else if m.layer == shape.layers + 1 then x.output else x.hidden[k];
    var changed := MutateMatrix(source, rows, cols, m.row, m.col, m.delta);
    MutateMatrixDistance(source, rows, cols, m.row, m.col, m.delta);
    if m.layer == 0 {
      SlotMutationSimilarity(x, x.(input := changed), 0, changed);
    } else if m.layer == shape.layers + 1 {
      SlotMutationSimilarity(x, x.(output := changed), m.layer, changed);
    } else {
      SlotMutationSimilarity(x, x.(hidden := x.hidden[k := changed]), m.layer, changed);
    }
  }

  /** Replacing the matrix in one slot moves a genome by that matrix's distance. */
  lemma SlotMutationSimilarity(x: Individual, y: Individual, layer: nat, changed: Matrix)
    requires layer < |x.hidden| + 2
    requires y == if layer == 0 then x.(input := changed)
                 else if layer == |x.hidden| + 1 then x.(output := changed)
                 else x.(hidden := x.hidden[layer - 1 := changed])
    ensures Similarity(y, x) == Distance(changed, Slot(x, layer))
  {
    if layer == 0 {
      HiddenDistanceSelf(x.hidden, |x.hidden|);
      DistanceSelf(x.output);
    } else if layer == |x.hidden| + 1 {
      DistanceSelf(x.input);
      HiddenDistanceSelf(x.hidden, |x.hidden|);
    } else {
      DistanceSelf(x.input);
      HiddenDistanceOneChanged(y.hidden, x.hidden, layer - 1, |x.hidden|);
      DistanceSelf(x.output);
    }
  }

  /** Mutations applied one after another, in order. */
  function ApplyMutations(x: Individual, shape: Shape, ms: seq<Mutation>): (r: Individual)
    requires WellShaped(x, shape)
    requires forall t :: 0 <= t < |ms| ==> ValidMutation(shape, ms[t])
    ensures WellShaped(r, shape) && r.fitness == x.fitness
  {
    if |ms| == 0 then x
    else Mutate(ApplyMutations(x, shape, ms[..|ms| - 1]), shape, ms[|ms| - 1])
  }

  /** Applying one more mutation of the list extends the fold by one step. */
  lemma ApplyMutationsStep(x: Individual, shape: Shape, ms: seq<Mutation>, m: nat)
    requires WellShaped(x, shape) && m < |ms|
    requires forall t :: 0 <= t < |ms| ==> ValidMutation(shape, ms[t])
    ensures ApplyMutations(x, shape, ms[..m + 1]) == Mutate(ApplyMutations(x, shape, ms[..m]), shape, ms[m])
  {
    assert ms[..m + 1][..m] == ms[..m];
  }

  // ---------------------------------------------------------------------------
  // Forward pass

  /** The hidden layers applied in order, each followed by relu. */
  function Feed(v: seq<real>, hidden: seq<Matrix>, width: nat): (r: seq<real>)
    requires |v| == width
    requires forall k :: 0 <= k < |hidden| ==> IsMatrix(hidden[k], width, width)
    ensures |r| == width
    decreases |hidden|
  {
    if |hidden| == 0 then v
    else Feed(Relu(Times(v, hidden[0], width)), hidden[1..], width)
  }

  /**
   * evaluate: the inputs times the input matrix, relu, each hidden matrix
   * followed by relu, the output matrix, and the mirrored logistic.  The
   * exponential is passed in as exp.
   */
  function Evaluate(x: Individual, shape: Shape, inputs: seq<real>, exp: real -> real): (r: seq<real>)
    requires WellShaped(x, shape) && |inputs| == shape.inputs && Positive(exp)
    ensures |r| == shape.outputs
    ensures forall j :: 0 <= j < |r| ==> 0.0 < r[j] < 1.0
  {
    var first := Relu(Times(inputs, x.input, shape.sublayers));
    var last := Feed(first, x.hidden, shape.sublayers);
    SigmoidAll(Times(last, x.output, shape.outputs), exp)
  }

  /** The fitness plays no part in the forward pass. */
  lemma EvaluateIgnoresFitness(x: Individual, shape: Shape, inputs: seq<real>, exp: real -> real, f: real)
    requires WellShaped(x, shape) && |inputs| == shape.inputs && Positive(exp)
    ensures Evaluate(x.(fitness := f), shape, inputs, exp) == Evaluate(x, shape, inputs, exp)
  {
  }

  predicate ZeroWeights(x: Individual)
  {
    IsZero(x.input) && (forall k :: 0 <= k < |x.hidden| ==> IsZero(x.hidden[k])) && IsZero(x.output)
  }

  lemma {:induction false} FeedZero(v: seq<real>, hidden: seq<Matrix>, width: nat)
    requires |v| == width && v == seq(width, j => 0.0)
    requires forall k :: 0 <= k < |hidden| ==> IsMatrix(hidden[k], width, width) && IsZero(hidden[k])
    ensures Feed(v, hidden, width) == seq(width, j => 0.0)
    decreases |hidden|
  {
    if |hidden| > 0 {
      TimesZero(v, hidden[0], width);
      assert Relu(Times(v, hidden[0], width)) == seq(width, j => 0.0);
      FeedZero(Relu(Times(v, hidden[0], width)), hidden[1..], width);
    }
  }

  /** With all weights zero, every output is the activation of zero, whatever the inputs. */
  lemma EvaluateZeroWeights(x: Individual, shape: Shape, inputs: seq<real>, exp: real -> real)
    requires WellShaped(x, shape) && |inputs| == shape.inputs && Positive(exp)
    requires ZeroWeights(x)
    ensures Evaluate(x, shape, inputs, exp) == seq(shape.outputs, j => Sigmoid(0.0, exp))
  {
    var s := shape.sublayers;
    TimesZero(inputs, x.input, s);
    var first := Relu(Times(inputs, x.input, s));
    assert first == seq(s, j => 0.0);
    FeedZero(first, x.hidden, s);
    TimesZero(Feed(first, x.hidden, s), x.output, shape.outputs);
  }

  /** With e^0 = 1 that activation is one half. */
  lemma EvaluateZeroWeightsHalf(x: Individual, shape: Shape, inputs: seq<real>, exp: real -> real)
    requires WellShaped(x, shape) && |inputs| == shape.inputs && Positive(exp) && exp(0.0) == 1.0
    requires ZeroWeights(x)
    ensures forall j :: 0 <= j < shape.outputs ==> Evaluate(x, shape, inputs, exp)[j] == 0.5
  {
    EvaluateZeroWeights(x, shape, inputs, exp);
    SigmoidAtZero(exp);
  }

  // ---------------------------------------------------------------------------
  // Random initialisation

  /** The random choices of one new_random call, matrix by matrix. */
  datatype GenomeDraws = GenomeDraws(hidden: seq<seq<seq<CellDraw>>>, input: seq<seq<CellDraw>>, output: seq<seq<CellDraw>>)

  predicate GenomeDrawsFit(d: GenomeDraws, shape: Shape)
  {
    |d.hidden| == shape.layers &&
    (forall k :: 0 <= k < shape.layers ==> DrawsFit(d.hidden[k], shape.sublayers, shape.sublayers)) &&
    DrawsFit(d.input, shape.inputs, shape.sublayers) &&
    DrawsFit(d.output, shape.sublayers, shape.outputs)
  }

  /** The hidden matrices that the hidden draws describe, in order. */
  function HiddenFromDraws(d: GenomeDraws): (r: seq<Matrix>)
    ensures |r| == |d.hidden| && forall k :: 0 <= k < |d.hidden| ==> r[k] == FromDraws(d.hidden[k])
  {
    seq(|d.hidden|, k requires 0 <= k < |d.hidden| => FromDraws(d.hidden[k]))
  }

  /** Every weight of the genome is either zero or in [-1, 1]. */
  predicate InitialWeights(x: Individual)
  {
    InitialRange(x.input) && (forall k :: 0 <= k < |x.hidden| ==> InitialRange(x.hidden[k])) && InitialRange(x.output)
  }

  /**
   * new_random: the hidden matrices are filled first, then the input and the
   * output matrix; the fitness starts at zero.
   */
  method NewRandom(shape: Shape, draws: GenomeDraws) returns (x: Individual)
    requires GenomeDrawsFit(draws, shape)
    ensures WellShaped(x, shape)
    ensures x.fitness == 0.0
    ensures InitialWeights(x)
    ensures x.input == FromDraws(draws.input) && x.output == FromDraws(draws.output)
    ensures forall k :: 0 <= k < shape.layers ==> x.hidden[k] == FromDraws(draws.hidden[k])
  {
    var s := shape.sublayers;
    var matrices := seq(shape.layers, k => Zeros(s, s));
    for k := 0 to shape.layers
      invariant |matrices| == shape.layers
      invariant forall q :: 0 <= q < shape.layers ==> IsMatrix(matrices[q], s, s)
      invariant forall q :: 0 <= q < k ==> matrices[q] == FromDraws(draws.hidden[q]) && InitialRange(matrices[q])
    {
      var m := RandomMatrix(s, s, draws.hidden[k]);
      matrices := matrices[k := m];
    }
    var input := RandomMatrix(shape.inputs, s, draws.input);
    var output := RandomMatrix(s, shape.outputs, draws.output);
    x := Individual(input, matrices, output, 0.0);
  }
}
