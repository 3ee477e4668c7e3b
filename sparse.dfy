/**
 A model of `sparse_from_fxn` from pydiffmap's utilities: given a fitted
 nearest-neighbour index over reference points `X` and query points `Y`
 (defaulting to `X`), evaluate a two-argument function once per edge of the
 k-nearest-neighbour connectivity graph and pack the values into a sparse
 matrix with the graph's pattern and shape.

 The neighbour search is foreign code: its connectivity graph, in COO form,
 is an input. Matrix values are modelled as `real`; no arithmetic is done on
 them except the summing of duplicate coordinates that the sparse-matrix
 constructor performs.
 */
module Sparse {

  datatype Option<T> = None | Some(value: T)

  /** A sparse connectivity graph in coordinate form: edge `t` joins query
      point `row[t]` to reference point `col[t]`. */
  datatype CooGraph = CooGraph(nRows: nat, nCols: nat, row: seq<nat>, col: seq<nat>)

  /** The fitted neighbour index: its reference data and the graph it
      produces for a set of query points. */
  datatype Neighbors<!P> = Neighbors(fitX: seq<P>, kneighborsGraph: seq<P> -> CooGraph)

  /** A sparse matrix given by coordinate triples, as handed to the
      sparse-matrix constructor. */
  datatype SparseMatrix = SparseMatrix(nRows: nat, nCols: nat, row: seq<nat>, col: seq<nat>, data: seq<real>)

  /** What the neighbour search guarantees of the graph it returns for
      `nQuery` query points against `nRef` reference points: shape
      `nQuery` by `nRef`, parallel index sequences, every index in range,
      and no coordinate pair listed twice. */
  predicate WellFormedGraph(g: CooGraph, nQuery: nat, nRef: nat)
  {
    && g.nRows == nQuery && g.nCols == nRef
    && |g.row| == |g.col|
    && (forall t :: 0 <= t < |g.row| ==> g.row[t] < g.nRows && g.col[t] < g.nCols)
    && DistinctPairs(g.row, g.col)
  }

  predicate DistinctPairs(row: seq<nat>, col: seq<nat>)
    requires |row| == |col|
  {
    forall s, t :: 0 <= s < t < |row| ==> row[s] != row[t] || col[s] != col[t]
  }

  /** Whether `(i, j)` is an edge of the graph. */
  predicate InPattern(g: CooGraph, i: int, j: int)
  {
    exists t :: 0 <= t < |g.row| && t < |g.col| && g.row[t] == i && g.col[t] == j
  }

  /** The query points: `Y` if given, otherwise the fitted data. */
  function QueryPoints<P>(neighbors: Neighbors<P>, y: Option<seq<P>>): seq<P>
  {
    if y.None? then neighbors.fitX else y.value
  }

  /** The connectivity graph of the query points against the fitted data. */
  function GraphOf<P>(neighbors: Neighbors<P>, y: Option<seq<P>>): CooGraph
  {
    neighbors.kneighborsGraph(QueryPoints(neighbors, y))
  }

  /** The sum of the values stored at coordinate `(i, j)`. */
  function SumAt(row: seq<nat>, col: seq<nat>, data: seq<real>, i: int, j: int): real
    requires |row| == |col| == |data|
    decreases |data|
  {
    if |data| == 0 then 0.0
    else (if row[0] == i && col[0] == j then data[0] else 0.0) + SumAt(row[1..], col[1..], data[1..], i, j)
  }

  /** Entry `(i, j)` of the matrix. Like the sparse-matrix constructor, the
      value of a coordinate listed several times is the sum of its values. */
  function Entry(m: SparseMatrix, i: int, j: int): real
    requires |m.row| == |m.col| == |m.data|
  {
    SumAt(m.row, m.col, m.data, i, j)
  }

  /** A coordinate that is not stored holds zero. */
  lemma {:induction false} SumAtAbsent(row: seq<nat>, col: seq<nat>, data: seq<real>, i: int, j: int)
    requires |row| == |col| == |data|
    requires forall t :: 0 <= t < |row| ==> row[t] != i || col[t] != j
    ensures SumAt(row, col, data, i, j) == 0.0
    decreases |data|
  {
    if |data| > 0 {
      SumAtAbsent(row[1..], col[1..], data[1..], i, j);
    }
  }

  /** With no coordinate listed twice, the entry at the coordinate of
      triple `t` is exactly that triple's value. */
  lemma {:induction false} SumAtStored(row: seq<nat>, col: seq<nat>, data: seq<real>, t: nat)
    requires |row| == |col| == |data|
    requires DistinctPairs(row, col)
    requires t < |data|
    ensures SumAt(row, col, data, row[t], col[t]) == data[t]
    decreases |data|
  {
    if t == 0 {
      forall s | 0 <= s < |row| - 1 ensures row[1..][s] != row[0] || col[1..][s] != col[0] {
        assert row[1..][s] == row[s + 1] && col[1..][s] == col[s + 1];
      }
      SumAtAbsent(row[1..], col[1..], data[1..], row[0], col[0]);
    } else {
      assert row[1..][t - 1] == row[t] && col[1..][t - 1] == col[t];
      assert row[0] != row[t] || col[0] != col[t];
      SumAtStored(row[1..], col[1..], data[1..], t - 1);
    }
  }

  /** Packing one value per edge into a matrix of the graph's shape: the
      entry at each edge is that edge's value, and every position off the
      pattern is zero. */
  lemma Assembly(g: CooGraph, data: seq<real>)
    requires |g.row| == |g.col| == |data|
    requires DistinctPairs(g.row, g.col)
    ensures var m := SparseMatrix(g.nRows, g.nCols, g.row, g.col, data);
      && (forall t :: 0 <= t < |data| ==> Entry(m, g.row[t], g.col[t]) == data[t])
      && (forall i, j :: !InPattern(g, i, j) ==> Entry(m, i, j) == 0.0)
  {
    forall t | 0 <= t < |data| ensures SumAt(g.row, g.col, data, g.row[t], g.col[t]) == data[t] {
      SumAtStored(g.row, g.col, data, t);
    }
    forall i, j | !InPattern(g, i, j) ensures SumAt(g.row, g.col, data, i, j) == 0.0 {
      SumAtAbsent(g.row, g.col, data, i, j);
    }
  }

  /** The loop over `zip(row, col)`: one value per edge, in edge order, with
      the query point as the first argument and the reference point as the
      second. `zip` stops at the shorter of the two sequences. */
  method EvaluateEdges<P>(y: seq<P>, x: seq<P>, row: seq<nat>, col: seq<nat>, f: (P, P) -> real)
    returns (fxnVals: seq<real>)
    requires forall t :: 0 <= t < |row| && t < |col| ==> row[t] < |y| && col[t] < |x|
    ensures |fxnVals| == if |row| <= |col| then |row| else |col|
    ensures forall t :: 0 <= t < |fxnVals| ==> fxnVals[t] == f(y[row[t]], x[col[t]])
  {
    var n := if |row| <= |col| then |row| else |col|;
    fxnVals := [];
    for t := 0 to n
      invariant |fxnVals| == t
      invariant forall s :: 0 <= s < t ==> fxnVals[s] == f(y[row[s]], x[col[s]])
    {
      fxnVals := fxnVals + [f(y[row[t]], x[col[t]])];
    }
  }

  /** `sparse_from_fxn(neighbors, function, Y)`: the matrix whose entry
      `(i, j)` is `f(Y[i], X[j])` when `(i, j)` is an edge of the
      neighbour graph and zero otherwise, with the graph's shape. */
  method SparseFromFxn<P>(neighbors: Neighbors<P>, f: (P, P) -> real, y: Option<seq<P>>)
    returns (m: SparseMatrix)
    requires WellFormedGraph(GraphOf(neighbors, y), |QueryPoints(neighbors, y)|, |neighbors.fitX|)
    ensures var g, ys, xs := GraphOf(neighbors, y), QueryPoints(neighbors, y), neighbors.fitX;
      && m.nRows == g.nRows == |ys| && m.nCols == g.nCols == |xs|
      && m.row == g.row && m.col == g.col && |m.data| == |g.row|
      && (forall t :: 0 <= t < |g.row| ==> Entry(m, g.row[t], g.col[t]) == f(ys[g.row[t]], xs[g.col[t]]))
      && (forall i, j :: !InPattern(g, i, j) ==> Entry(m, i, j) == 0.0)
    ensures y.None? ==> var g, xs := GraphOf(neighbors, y), neighbors.fitX;
      && m.nRows == m.nCols == |xs|
      && forall t :: 0 <= t < |g.row| ==> Entry(m, g.row[t], g.col[t]) == f(xs[g.row[t]], xs[g.col[t]])
  {
    var xs := neighbors.fitX;
    var ys := if y.None? then xs else y.value;
    var g := neighbors.kneighborsGraph(ys);
    var fxnVals := EvaluateEdges(ys, xs, g.row, g.col, f);
    m := SparseMatrix(g.nRows, g.nCols, g.row, g.col, fxnVals);
    Assembly(g, fxnVals);
  }
}
