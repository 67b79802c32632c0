/**
 * Row-major index arithmetic shared by the grid's cell layout and the provider's
 * enumeration: in a listing of rows rows of cols cells each, cell (r, c) is at
 * r * cols + c.
 */
module RowMajor {
  /** A position k among rows rows of cols cells lies in row k / cols, column k % cols. */
  lemma UnflattenIndex(k: nat, rows: nat, cols: nat)
    requires k < rows * cols
    ensures cols > 0 && k / cols < rows && k % cols < cols
    ensures k == (k / cols) * cols + k % cols
  {
  }

  /** Cell c of the last of n rows comes right after the first n - 1 rows. */
  lemma LastRowIndex(r: nat, c: nat, n: nat, cols: nat)
    requires r + 1 == n
    ensures r * cols + c == (n - 1) * cols + c
  {
  }

  /** Cell c of row r, counted row by row, comes before the end of rows rows of cols cells. */
  lemma RowMajorBound(r: nat, c: nat, rows: nat, cols: nat)
    requires r < rows && c < cols
    ensures r * cols + c < rows * cols
  {
    assert r * cols + c < (r + 1) * cols;
    assert (r + 1) * cols <= rows * cols;
  }

  /** k rows of n cells are k - 1 rows of n cells and n more. */
  lemma RowsStep(k: nat, n: nat)
    requires k > 0
    ensures (k - 1) * n + n == k * n
  {
  }

  /** Where row i starts in a row-by-row listing of rows of n cells: i * n, built up row by row. */
  function RowStart(i: nat, n: nat): nat
  {
    if i == 0 then 0 else RowStart(i - 1, n) + n
  }

  /** Row i starts after i whole rows of n cells. */
  lemma {:induction false} RowStartIsProduct(i: nat, n: nat)
    ensures RowStart(i, n) == i * n
  {
    if i > 0 {
      RowStartIsProduct(i - 1, n);
      RowsStep(i, n);
    }
  }

  /** Cell j of row i comes before the end of k rows of n cells. */
  lemma {:induction false} RowStartBound(i: nat, j: nat, k: nat, n: nat)
    requires i < k && j < n
    ensures RowStart(i, n) + j < RowStart(k, n)
    decreases k
  {
    if i < k - 1 {
      RowStartBound(i, j, k - 1, n);
    }
  }
}
