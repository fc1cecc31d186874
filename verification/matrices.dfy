/** Square integer matrices, the storage behind the adjacency matrix.
    A cell holding 0 means "no edge". */
module Matrices {

  ghost predicate IsSquare(m: seq<seq<int>>) {
    forall i | 0 <= i < |m| :: |m[i]| == |m|
  }

  /** A Java `int[n][n]`: every row has the matrix's own length. */
  type Matrix = m: seq<seq<int>> | IsSquare(m) witness []

  /** `i` can index a row or a column of `m` without an
      ArrayIndexOutOfBoundsException. */
  predicate InBounds(m: Matrix, i: int) {
    0 <= i < |m|
  }

  ghost predicate AllZero(m: Matrix) {
    forall i, j | 0 <= i < |m| && 0 <= j < |m| :: m[i][j] == 0
  }

  ghost predicate NonNegative(m: Matrix) {
    forall i, j | 0 <= i < |m| && 0 <= j < |m| :: m[i][j] >= 0
  }

  /** A freshly allocated `new int[n][n]`. */
  function Zero(n: nat): (m: Matrix)
    ensures |m| == n
    ensures AllZero(m)
  {
    seq(n, _ => seq(n, _ => 0))
  }

  /** `m[i][j] = w`: the matrix keeps its dimension, cell (i, j) holds `w`
      and every other cell keeps its value. */
  function Write(m: Matrix, i: int, j: int, w: int): (r: Matrix)
    requires InBounds(m, i) && InBounds(m, j)
    ensures |r| == |m|
    ensures r[i][j] == w
    ensures forall a, b | 0 <= a < |m| && 0 <= b < |m| && (a != i || b != j) :: r[a][b] == m[a][b]
  {
    m[i := m[i][j := w]]
  }

  lemma WriteKeepsNonNegative(m: Matrix, i: int, j: int, w: int)
    requires InBounds(m, i) && InBounds(m, j)
    requires NonNegative(m) && w >= 0
    ensures NonNegative(Write(m, i, j, w))
  {
  }

  /** Writing back the value a cell already holds changes nothing. */
  lemma WriteSameValue(m: Matrix, i: int, j: int)
    requires InBounds(m, i) && InBounds(m, j)
    ensures Write(m, i, j, m[i][j]) == m
  {
    assert m[i][j := m[i][j]] == m[i];
  }

  /** A second write to the same cell overrides the first. */
  lemma WriteTwice(m: Matrix, i: int, j: int, a: int, b: int)
    requires InBounds(m, i) && InBounds(m, j)
    ensures Write(Write(m, i, j, a), i, j, b) == Write(m, i, j, b)
  {
    assert m[i][j := a][j := b] == m[i][j := b];
  }
}
