/** The column-major layout shared by IntMatrix, DoubleMatrix and Matrix:
    cell (i, j) of an nrow-by-ncol matrix lives at flat index j * nrow + i. */
module ColumnMajor {

  function Index(nrow: int, i: int, j: int): int
  {
    j * nrow + i
  }

  /** Every in-range cell has an in-range flat index. */
  lemma IndexInRange(nrow: nat, ncol: nat, i: int, j: int)
    requires 0 <= i < nrow && 0 <= j < ncol
    ensures 0 <= Index(nrow, i, j) < nrow * ncol
  {
    assert j * nrow <= (ncol - 1) * nrow by {
      MulLe(j, ncol - 1, nrow);
    }
    assert (ncol - 1) * nrow + nrow == ncol * nrow;
  }

  /** Distinct in-range cells have distinct flat indices, so writing one cell
      never changes another. */
  lemma {:induction false} IndexInjective(nrow: nat, i: int, j: int, i2: int, j2: int)
    requires 0 <= i < nrow && 0 <= i2 < nrow && 0 <= j && 0 <= j2
    requires i != i2 || j != j2
    ensures Index(nrow, i, j) != Index(nrow, i2, j2)
  {
    if j < j2 {
      MulLe(j + 1, j2, nrow);
      assert (j + 1) * nrow == j * nrow + nrow;
    } else if j2 < j {
      MulLe(j2 + 1, j, nrow);
      assert (j2 + 1) * nrow == j2 * nrow + nrow;
    }
  }

  lemma MulLe(a: int, b: int, c: nat)
    requires a <= b
    ensures a * c <= b * c
  {
    assert b * c - a * c == (b - a) * c;
  }
}
