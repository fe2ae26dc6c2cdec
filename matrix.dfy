/** Matrix<T>: the generic column-major matrix over an Object[] array.
    A null cell is None. */
module Matrix {
  import CM = ColumnMajor
  import opened Wrappers

  class Matrix<T> {
    const data: array<Option<T>>
    const nrow: nat
    const ncol: nat

    ghost predicate Valid()
    {
      data.Length == nrow * ncol
    }

    /** `new Matrix(nrow, ncol)`: nrow * ncol cells, all null. */
    constructor (nrow: nat, ncol: nat)
      ensures Valid() && this.nrow == nrow && this.ncol == ncol && fresh(data)
      ensures forall k :: 0 <= k < data.Length ==> data[k] == None
    {
      this.data := new Option<T>[nrow * ncol](_ => None);
      this.nrow := nrow;
      this.ncol := ncol;
    }

    function Get(i: int, j: int): Option<T>
      reads data
      requires 0 <= CM.Index(nrow, i, j) < data.Length
    {
      data[CM.Index(nrow, i, j)]
    }

    /** Cell (i, j) of a well-formed matrix, the form used in contracts. */
    ghost function At(i: nat, j: nat): Option<T>
      reads data
      requires Valid() && i < nrow && j < ncol
    {
      CM.IndexInRange(nrow, ncol, i, j);
      data[CM.Index(nrow, i, j)]
    }

    /** Writes exactly one cell; a following Get of that cell returns the value. */
    method Set(i: int, j: int, value: T)
      requires Valid()
      requires 0 <= CM.Index(nrow, i, j) < data.Length
      modifies data
      ensures data[..] == old(data[..])[CM.Index(nrow, i, j) := Some(value)]
      ensures Get(i, j) == Some(value)
      ensures 0 <= i < nrow && 0 <= j < ncol ==>
                forall i2: nat, j2: nat :: i2 < nrow && j2 < ncol && (i2 != i || j2 != j) ==>
                  At(i2, j2) == old(At(i2, j2))
    {
      data[CM.Index(nrow, i, j)] := Some(value);
      forall i2: nat, j2: nat | i2 < nrow && j2 < ncol && (i2 != i || j2 != j) && 0 <= i < nrow && 0 <= j < ncol
        ensures At(i2, j2) == old(At(i2, j2))
      {
        CM.IndexInjective(nrow, i, j, i2, j2);
      }
    }
  }
}
