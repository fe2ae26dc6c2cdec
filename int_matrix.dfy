/** IntMatrix: an integer matrix stored column-major in one flat array. */
module IntMatrix {
  import CM = ColumnMajor

  class IntMatrix {
    const data: array<int>
    const nrow: nat
    const ncol: nat

    ghost predicate Valid()
    {
      data.Length == nrow * ncol
    }

    /** `new IntMatrix(nrow, ncol)`: a fresh all-zero matrix. */
    constructor (nrow: nat, ncol: nat)
      ensures Valid() && this.nrow == nrow && this.ncol == ncol && fresh(data)
      ensures forall k :: 0 <= k < data.Length ==> data[k] == 0
    {
      this.data := new int[nrow * ncol](_ => 0);
      this.nrow := nrow;
      this.ncol := ncol;
    }

    /** The body of the data constructor once its size check has passed:
        the matrix wraps (aliases) the caller's array. */
    constructor Wrap(data: array<int>, nrow: nat, ncol: nat)
      requires data.Length == nrow * ncol
      ensures Valid() && this.data == data && this.nrow == nrow && this.ncol == ncol
    {
      this.data := data;
      this.nrow := nrow;
      this.ncol := ncol;
    }

    /** `new IntMatrix(data, nrow, ncol)`: throws (here: null) exactly when the
        array size does not match the dimensions. */
    static method FromData(data: array<int>, nrow: nat, ncol: nat) returns (m: IntMatrix?)
      ensures (m == null) <==> data.Length != nrow * ncol
      ensures m != null ==> fresh(m) && m.Valid() && m.data == data && m.nrow == nrow && m.ncol == ncol
    {
      if data.Length != nrow * ncol {
        return null;
      }
      m := new IntMatrix.Wrap(data, nrow, ncol);
    }

    function Get(i: int, j: int): int
      reads data
      requires 0 <= CM.Index(nrow, i, j) < data.Length
    {
      data[CM.Index(nrow, i, j)]
    }

    /** Cell (i, j) of a well-formed matrix, the form used in contracts. */
    ghost function At(i: nat, j: nat): int
      reads data
      requires Valid() && i < nrow && j < ncol
    {
      CM.IndexInRange(nrow, ncol, i, j);
      data[CM.Index(nrow, i, j)]
    }

    /** Writes exactly one cell: the flat array changes only at j * nrow + i. */
    method Set(i: int, j: int, value: int)
      requires Valid()
      requires 0 <= CM.Index(nrow, i, j) < data.Length
      modifies data
      ensures data[..] == old(data[..])[CM.Index(nrow, i, j) := value]
      ensures Get(i, j) == value
      ensures 0 <= i < nrow && 0 <= j < ncol ==>
                forall i2: nat, j2: nat :: i2 < nrow && j2 < ncol && (i2 != i || j2 != j) ==>
                  At(i2, j2) == old(At(i2, j2))
    {
      data[CM.Index(nrow, i, j)] := value;
      forall i2: nat, j2: nat | i2 < nrow && j2 < ncol && (i2 != i || j2 != j) && 0 <= i < nrow && 0 <= j < ncol
        ensures At(i2, j2) == old(At(i2, j2))
      {
        CM.IndexInjective(nrow, i, j, i2, j2);
      }
    }
  }
}
