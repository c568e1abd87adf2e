/** The Matrix class: an owned rows x cols buffer of reals with arithmetic
    operators, bounds-checked row access, in-place row exchange, and the
    determinant and inverse of square matrices. */
module Matrices {
  import opened Errors
  import opened MatrixMath
  import V = VectorMath
  import D = Determinants
  import Vectors

  class Matrix {
    var rows: nat              // mNumRows
    var cols: nat              // mNumCols
    var data: array2<real>     // mData, owned by this matrix

    ghost predicate Valid()
      reads this
    {
      data.Length0 == rows && data.Length1 == cols
    }

    /** Row i of the buffer. */
    function RowSeq(i: nat): (r: seq<real>)
      requires i < data.Length0
      reads this, data
      ensures |r| == data.Length1
      ensures forall j :: 0 <= j < |r| ==> r[j] == data[i, j]
    {
      seq(data.Length1, j requires i < data.Length0 && 0 <= j < data.Length1 reads this, data => data[i, j])
    }

    /** The entries, row by row. */
    function Entries(): (m: seq<seq<real>>)
      reads this, data
      ensures |m| == data.Length0
      ensures forall i :: 0 <= i < |m| ==> m[i] == RowSeq(i)
    {
      seq(data.Length0, i requires 0 <= i < data.Length0 reads this, data => RowSeq(i))
    }

    /** Entries() is the rows x cols matrix whose entry (i, j) is data[i, j]. */
    lemma EntriesShape()
      requires Valid()
      ensures IsMatrix(Entries(), rows, cols)
      ensures forall i, j :: 0 <= i < rows && 0 <= j < cols ==> Entries()[i][j] == data[i, j]
    {
    }

    /** Two rows x cols matrices agree when they agree entry by entry. */
    lemma EntriesAre(m: seq<seq<real>>)
      requires Valid() && IsMatrix(m, rows, cols)
      requires forall i, j :: 0 <= i < rows && 0 <= j < cols ==> m[i][j] == data[i, j]
      ensures Entries() == m
    {
      forall i | 0 <= i < rows
        ensures Entries()[i] == m[i]
      {
        assert forall j :: 0 <= j < cols ==> Entries()[i][j] == m[i][j];
      }
    }

    /** `Matrix(numRows, numCols)`: every entry zero; the default shape is 0 x 0. */
    constructor (r: nat, c: nat)
      ensures Valid() && fresh(data) && rows == r && cols == c
      ensures Entries() == Zero(r, c)
    {
      rows, cols := r, c;
      data := new real[r, c]((i, j) => 0.0);
      new;
      EntriesAre(Zero(r, c));
    }

    /** The copy constructor: same shape and entries in a buffer of its own. */
    constructor Copy(other: Matrix)
      requires other.Valid()
      ensures Valid() && fresh(data) && rows == other.rows && cols == other.cols
      ensures Entries() == other.Entries()
    {
      var a := new real[other.rows, other.cols];
      for i := 0 to other.rows
        invariant forall k, l :: 0 <= k < i && 0 <= l < other.cols ==> a[k, l] == other.data[k, l]
      {
        for j := 0 to other.cols
          invariant forall k, l :: 0 <= k < i && 0 <= l < other.cols ==> a[k, l] == other.data[k, l]
          invariant forall l :: 0 <= l < j ==> a[i, l] == other.data[i, l]
        {
          a[i, j] := other.data[i, j];
        }
      }
      rows, cols, data := other.rows, other.cols, a;
      new;
      other.EntriesShape();
      EntriesAre(other.Entries());
    }

    /** `operator=`: takes the shape and entries of `other` into a new buffer;
        assigning a matrix to itself changes nothing. */
    method Assign(other: Matrix)
      requires Valid() && other.Valid()
      modifies this
      ensures Valid() && rows == old(other.rows) && cols == old(other.cols)
      ensures Entries() == old(other.Entries())
      ensures this != other ==> fresh(data)
      ensures other.Entries() == old(other.Entries())
    {
      if this != other {
        var a := new real[other.rows, other.cols];
        for i := 0 to other.rows
          invariant forall k, l :: 0 <= k < i && 0 <= l < other.cols ==> a[k, l] == other.data[k, l]
        {
          for j := 0 to other.cols
            invariant forall k, l :: 0 <= k < i && 0 <= l < other.cols ==> a[k, l] == other.data[k, l]
            invariant forall l :: 0 <= l < j ==> a[i, l] == other.data[i, l]
          {
            a[i, j] := other.data[i, j];
          }
        }
        rows, cols, data := other.rows, other.cols, a;
        other.EntriesShape();
        EntriesAre(other.Entries());
      }
    }

    /** `nRows()`: the number of rows of the entries. */
    function NRows(): (n: nat)
      requires Valid()
      reads this, data
      ensures n == |Entries()|
    {
      rows
    }

    /** `nCols()`: the length of every row of the entries. */
    function NCols(): (n: nat)
      requires Valid()
      reads this, data
      ensures IsMatrix(Entries(), NRows(), n)
      ensures n == data.Length1
    {
      EntriesShape();
      cols
    }

    /** Unary `+`: a copy with the same entries. */
    method Plus() returns (r: Matrix)
      requires Valid()
      ensures fresh(r) && fresh(r.data) && r.Valid() && r.rows == rows && r.cols == cols
      ensures r.Entries() == Entries()
    {
      r := new Matrix.Copy(this);
    }

    /** Unary `-`: every entry negated. */
    method Negate() returns (r: Matrix)
      requires Valid()
      ensures fresh(r) && fresh(r.data) && r.Valid() && r.rows == rows && r.cols == cols
      ensures r.Entries() == Neg(Entries())
    {
      r := new Matrix(rows, cols);
      for i := 0 to rows
        invariant fresh(r.data) && r.Valid() && r.rows == rows && r.cols == cols
        invariant forall k, l :: 0 <= k < i && 0 <= l < cols ==> r.data[k, l] == -data[k, l]
      {
        for j := 0 to cols
          invariant fresh(r.data) && r.Valid() && r.rows == rows && r.cols == cols
          invariant forall k, l :: 0 <= k < i && 0 <= l < cols ==> r.data[k, l] == -data[k, l]
          invariant forall l :: 0 <= l < j ==> r.data[i, l] == -data[i, l]
        {
          r.data[i, j] := -data[i, j];
        }
      }
      EntriesShape();
      r.EntriesAre(Neg(Entries()));
    }

    /** Binary `+`. The guard rejects the operands only when both the row
        counts and the column counts differ, so operands that agree in one
        dimension pass; the sum then has this matrix's shape. The loops read
        `other` at every entry of this matrix, so when this matrix has any
        entry the caller makes sure `other` is at least as large. */
    method Add(other: Matrix) returns (res: Result<Matrix>)
      requires Valid() && other.Valid()
      requires rows == other.rows || cols == other.cols ==> rows == 0 || cols == 0 || (rows <= other.rows && cols <= other.cols)
      ensures res.Ok? <==> rows == other.rows || cols == other.cols
      ensures res.Err? ==> res.error == SizeMismatch
      ensures res.Ok? ==> fresh(res.value) && fresh(res.value.data) && res.value.Valid()
      ensures res.Ok? ==> res.value.rows == rows && res.value.cols == cols
      ensures res.Ok? ==> res.value.Entries() == MatrixMath.Add(Entries(), other.Entries())
    {
      if cols != other.cols && rows != other.rows {
        return Err(SizeMismatch);
      }
      var r := new Matrix(rows, cols);
      for i := 0 to rows
        invariant fresh(r.data) && r.Valid() && r.rows == rows && r.cols == cols
        invariant forall k, l :: 0 <= k < i && 0 <= l < cols ==> r.data[k, l] == data[k, l] + other.data[k, l]
      {
        for j := 0 to cols
          invariant fresh(r.data) && r.Valid() && r.rows == rows && r.cols == cols
          invariant forall k, l :: 0 <= k < i && 0 <= l < cols ==> r.data[k, l] == data[k, l] + other.data[k, l]
          invariant forall l :: 0 <= l < j ==> r.data[i, l] == data[i, l] + other.data[i, l]
        {
          r.data[i, j] := data[i, j] + other.data[i, j];
        }
      }
      EntriesShape();
      other.EntriesShape();
      r.EntriesAre(MatrixMath.Add(Entries(), other.Entries()));
      return Ok(r);
    }

    /** Binary `-`, with the same guard and the same obligation as `+`. */
    method Sub(other: Matrix) returns (res: Result<Matrix>)
      requires Valid() && other.Valid()
      requires rows == other.rows || cols == other.cols ==> rows == 0 || cols == 0 || (rows <= other.rows && cols <= other.cols)
      ensures res.Ok? <==> rows == other.rows || cols == other.cols
      ensures res.Err? ==> res.error == SizeMismatch
      ensures res.Ok? ==> fresh(res.value) && fresh(res.value.data) && res.value.Valid()
      ensures res.Ok? ==> res.value.rows == rows && res.value.cols == cols
      ensures res.Ok? ==> res.value.Entries() == MatrixMath.Sub(Entries(), other.Entries())
    {
      if cols != other.cols && rows != other.rows {
        return Err(SizeMismatch);
      }
      var r := new Matrix(rows, cols);
      for i := 0 to rows
        invariant fresh(r.data) && r.Valid() && r.rows == rows && r.cols == cols
        invariant forall k, l :: 0 <= k < i && 0 <= l < cols ==> r.data[k, l] == data[k, l] - other.data[k, l]
      {
        for j := 0 to cols
          invariant fresh(r.data) && r.Valid() && r.rows == rows && r.cols == cols
          invariant forall k, l :: 0 <= k < i && 0 <= l < cols ==> r.data[k, l] == data[k, l] - other.data[k, l]
          invariant forall l :: 0 <= l < j ==> r.data[i, l] == data[i, l] - other.data[i, l]
        {
          r.data[i, j] := data[i, j] - other.data[i, j];
        }
      }
      EntriesShape();
      other.EntriesShape();
      r.EntriesAre(MatrixMath.Sub(Entries(), other.Entries()));
      return Ok(r);
    }

    /** Scalar `*`: every entry multiplied by `s`; never fails. */
    method ScaleBy(s: real) returns (r: Matrix)
      requires Valid()
      ensures fresh(r) && fresh(r.data) && r.Valid() && r.rows == rows && r.cols == cols
      ensures r.Entries() == Scale(Entries(), s)
    {
      r := new Matrix(rows, cols);
      for i := 0 to rows
        invariant fresh(r.data) && r.Valid() && r.rows == rows && r.cols == cols
        invariant forall k, l :: 0 <= k < i && 0 <= l < cols ==> r.data[k, l] == data[k, l] * s
      {
        for j := 0 to cols
          invariant fresh(r.data) && r.Valid() && r.rows == rows && r.cols == cols
          invariant forall k, l :: 0 <= k < i && 0 <= l < cols ==> r.data[k, l] == data[k, l] * s
          invariant forall l :: 0 <= l < j ==> r.data[i, l] == data[i, l] * s
        {
          r.data[i, j] := data[i, j] * s;
        }
      }
      EntriesShape();
      r.EntriesAre(Scale(Entries(), s));
    }

    /** `transpose()`: the cols x rows matrix with entry (j, i) = entry (i, j). */
    method Transpose() returns (r: Matrix)
      requires Valid()
      ensures fresh(r) && fresh(r.data) && r.Valid() && r.rows == cols && r.cols == rows
      ensures r.Entries() == MatrixMath.Transpose(Entries(), cols)
    {
      r := new Matrix(cols, rows);
      for i := 0 to rows
        invariant fresh(r.data) && r.Valid() && r.rows == cols && r.cols == rows
        invariant forall k, l :: 0 <= k < i && 0 <= l < cols ==> r.data[l, k] == data[k, l]
      {
        for j := 0 to cols
          invariant fresh(r.data) && r.Valid() && r.rows == cols && r.cols == rows
          invariant forall k, l :: 0 <= k < i && 0 <= l < cols ==> r.data[l, k] == data[k, l]
          invariant forall l :: 0 <= l < j ==> r.data[l, i] == data[i, l]
        {
          r.data[j, i] := data[i, j];
        }
      }
      EntriesShape();
      r.EntriesAre(MatrixMath.Transpose(Entries(), cols));
    }

    /** Column j of the buffer. */
    function ColumnSeq(j: nat): (c: seq<real>)
      requires j < data.Length1
      reads this, data
      ensures |c| == data.Length0
      ensures forall i :: 0 <= i < |c| ==> c[i] == data[i, j]
    {
      seq(data.Length0, i requires j < data.Length1 && 0 <= i < data.Length0 reads this, data => data[i, j])
    }

    lemma ColumnOfEntries(j: nat)
      requires Valid() && j < cols
      ensures Column(Entries(), j) == ColumnSeq(j)
    {
    }

    /** Matrix `*`: fails unless this matrix's column count is the other's
        row count; entry (i, j) of the product is accumulated in place as the
        sum over k of this[i][k] * other[k][j]. */
    method Mul(other: Matrix) returns (res: Result<Matrix>)
      requires Valid() && other.Valid()
      ensures res.Ok? <==> cols == other.rows
      ensures res.Err? ==> res.error == DimensionMismatch
      ensures res.Ok? ==> fresh(res.value) && fresh(res.value.data) && res.value.Valid()
      ensures res.Ok? ==> res.value.rows == rows && res.value.cols == other.cols
      ensures res.Ok? ==> res.value.Entries() == MatrixMath.Mul(Entries(), other.Entries(), other.cols)
    {
      if cols != other.rows {
        return Err(DimensionMismatch);
      }
      var r := new Matrix(rows, other.cols);
      r.EntriesShape();
      for i := 0 to rows
        invariant fresh(r.data) && r.Valid() && r.rows == rows && r.cols == other.cols
        invariant forall k, l :: 0 <= k < i && 0 <= l < other.cols ==>
          r.data[k, l] == V.Dot(RowSeq(k), other.ColumnSeq(l))
        invariant forall k, l :: i <= k < rows && 0 <= l < other.cols ==> r.data[k, l] == 0.0
      {
        MulRow(other, r, i);
      }
      forall l | 0 <= l < other.cols {
        other.ColumnOfEntries(l);
      }
      r.EntriesAre(MatrixMath.Mul(Entries(), other.Entries(), other.cols));
      return Ok(r);
    }

    /** The middle loop of `*`: fills row i of r, which starts as zeros,
        with the products of row i of this and each column of other. */
    method MulRow(other: Matrix, r: Matrix, i: nat)
      requires Valid() && other.Valid() && r.Valid() && cols == other.rows
      requires r.rows == rows && r.cols == other.cols && i < rows && r.data != data && r.data != other.data
      requires forall l :: 0 <= l < other.cols ==> r.data[i, l] == 0.0
      modifies r.data
      ensures forall k, l :: 0 <= k < rows && k != i && 0 <= l < other.cols ==> r.data[k, l] == old(r.data[k, l])
      ensures forall l :: 0 <= l < other.cols ==> r.data[i, l] == V.Dot(RowSeq(i), other.ColumnSeq(l))
    {
      for j := 0 to other.cols
        invariant forall k, l :: 0 <= k < rows && k != i && 0 <= l < other.cols ==> r.data[k, l] == old(r.data[k, l])
        invariant forall l :: 0 <= l < j ==> r.data[i, l] == V.Dot(RowSeq(i), other.ColumnSeq(l))
        invariant forall l :: j <= l < other.cols ==> r.data[i, l] == 0.0
      {
        AccumulateEntry(other, r, i, j);
      }
    }

    /** The innermost loop of `*`: adds this[i][p] * other[p][j] into
        entry (i, j) of r for p from 0, leaving every other entry alone. */
    method AccumulateEntry(other: Matrix, r: Matrix, i: nat, j: nat)
      requires Valid() && other.Valid() && r.Valid() && cols == other.rows
      requires i < r.rows == rows && j < r.cols == other.cols
      requires r.data != data && r.data != other.data && r.data[i, j] == 0.0
      modifies r.data
      ensures r.data[i, j] == V.Dot(RowSeq(i), other.ColumnSeq(j))
      ensures forall k, l :: 0 <= k < r.rows && 0 <= l < r.cols && (k, l) != (i, j) ==>
        r.data[k, l] == old(r.data[k, l])
    {
      for p := 0 to cols
        invariant r.data[i, j] == V.SumProd(RowSeq(i), other.ColumnSeq(j), 0, p)
        invariant forall k, l :: 0 <= k < r.rows && 0 <= l < r.cols && (k, l) != (i, j) ==>
          r.data[k, l] == old(r.data[k, l])
      {
        r.data[i, j] := r.data[i, j] + data[i, p] * other.data[p, j];
      }
    }

    /** Matrix-vector `*`: fails unless the column count is the vector's
        size; entry i of the product is the dot product of row i with v. */
    method MulVec(v: Vectors.Vector) returns (res: Result<Vectors.Vector>)
      requires Valid() && v.Valid()
      ensures res.Ok? <==> cols == v.size
      ensures res.Err? ==> res.error == DimensionMismatch
      ensures res.Ok? ==> fresh(res.value) && fresh(res.value.data) && res.value.Valid()
      ensures res.Ok? ==> res.value.Contents() == MatrixMath.MulVec(Entries(), v.Contents())
    {
      if cols != v.size {
        return Err(DimensionMismatch);
      }
      var r := new Vectors.Vector(rows);
      for i := 0 to rows
        invariant fresh(r.data) && r.Valid() && r.size == rows
        invariant forall k :: 0 <= k < i ==> r.data[k] == V.Dot(RowSeq(k), v.Contents())
      {
        var sum := 0.0;
        for j := 0 to cols
          invariant sum == V.SumProd(RowSeq(i), v.Contents(), 0, j)
        {
          sum := sum + data[i, j] * v.data[j];
        }
        r.data[i] := sum;
      }
      assert forall k :: 0 <= k < rows ==> r.Contents()[k] == MatrixMath.MulVec(Entries(), v.Contents())[k];
      return Ok(r);
    }

    /** Reading row `A[i]`: succeeds exactly for 0 <= i < rows. */
    method Row(i: int) returns (res: Result<seq<real>>)
      requires Valid()
      ensures res.Ok? <==> 0 <= i < rows
      ensures res.Err? ==> res.error == IndexOutOfRange
      ensures res.Ok? ==> res.value == Entries()[i]
    {
      if i < 0 || i >= rows {
        return Err(IndexOutOfRange);
      }
      return Ok(RowSeq(i));
    }

    /** Reading row `A(i)`: succeeds exactly for 1 <= i <= rows, on row i - 1. */
    method RowOne(i: int) returns (res: Result<seq<real>>)
      requires Valid()
      ensures res.Ok? <==> 1 <= i <= rows
      ensures res.Err? ==> res.error == IndexOutOfRange
      ensures res.Ok? ==> res.value == Entries()[i - 1]
    {
      if i < 1 || i > rows {
        return Err(IndexOutOfRange);
      }
      return Ok(RowSeq(i - 1));
    }

    /** Writing `A[i][j] = x`: the row index is checked, the column index
        is not, so the caller keeps it below cols. Only entry (i, j) changes. */
    method SetEntry(i: int, j: nat, x: real) returns (out: Outcome)
      requires Valid() && j < cols
      modifies data
      ensures Valid() && rows == old(rows) && cols == old(cols) && data == old(data)
      ensures out.Pass? <==> 0 <= i < rows
      ensures out.Fail? ==> out.error == IndexOutOfRange && Entries() == old(Entries())
      ensures out.Pass? ==> Entries() == old(Entries())[i := old(Entries())[i][j := x]]
    {
      if i < 0 || i >= rows {
        return Fail(IndexOutOfRange);
      }
      ghost var before := Entries();
      data[i, j] := x;
      EntriesAre(before[i := before[i][j := x]]);
      return Pass;
    }

    /** Writing `A(i)[j] = x`: the same entry as `A[i - 1][j] = x`. */
    method SetEntryOne(i: int, j: nat, x: real) returns (out: Outcome)
      requires Valid() && j < cols
      modifies data
      ensures Valid() && rows == old(rows) && cols == old(cols) && data == old(data)
      ensures out.Pass? <==> 1 <= i <= rows
      ensures out.Fail? ==> out.error == IndexOutOfRange && Entries() == old(Entries())
      ensures out.Pass? ==> Entries() == old(Entries())[i - 1 := old(Entries())[i - 1][j := x]]
    {
      if i < 1 || i > rows {
        return Fail(IndexOutOfRange);
      }
      ghost var before := Entries();
      data[i - 1, j] := x;
      EntriesAre(before[i - 1 := before[i - 1][j := x]]);
      return Pass;
    }

    /** `swapRows(r1, r2)`: fails unless both indices are rows; otherwise
        exchanges the two rows in place, entry by entry. */
    method SwapRows(r1: int, r2: int) returns (out: Outcome)
      requires Valid()
      modifies data
      ensures Valid() && rows == old(rows) && cols == old(cols) && data == old(data)
      ensures out.Pass? <==> 0 <= r1 < rows && 0 <= r2 < rows
      ensures out.Fail? ==> out.error == IndexOutOfRange && Entries() == old(Entries())
      ensures out.Pass? ==> Entries() == MatrixMath.SwapRows(old(Entries()), r1, r2)
    {
      if r1 < 0 || r2 < 0 || r1 >= rows || r2 >= rows {
        return Fail(IndexOutOfRange);
      }
      ghost var before := Entries();
      for j := 0 to cols
        invariant forall k, l :: 0 <= k < rows && 0 <= l < cols ==>
          data[k, l] == if l < j then MatrixMath.SwapRows(before, r1, r2)[k][l] else before[k][l]
      {
        data[r1, j], data[r2, j] := data[r2, j], data[r1, j];
      }
      EntriesAre(MatrixMath.SwapRows(before, r1, r2));
      return Pass;
    }

    /** `getMinor(row, col)`: the (rows - 1) x (cols - 1) matrix without
        that row and column, the rest in order. Neither index is checked: an
        out-of-range one shifts the writes past the result unless nothing is
        written at all, which happens only when the minor has no entries (a
        single column dropped by col = 0, or a single row dropped by
        row = 0). The caller keeps to those cases. */
    method GetMinor(row: int, col: int) returns (r: Matrix)
      requires Valid() && rows > 0 && cols > 0
      requires 0 <= row < rows || (cols == 1 && col == 0)
      requires 0 <= col < cols || (rows == 1 && row == 0)
      ensures fresh(r) && fresh(r.data) && r.Valid() && r.rows == rows - 1 && r.cols == cols - 1
      ensures 0 <= row < rows && 0 <= col < cols ==> r.Entries() == Minor(Entries(), row, col)
      ensures !(0 <= row < rows && 0 <= col < cols) ==> r.Entries() == Zero(rows - 1, cols - 1)
    {
      r := new Matrix(rows - 1, cols - 1);
      var minorRow := 0;
      for i := 0 to rows
        invariant fresh(r.data) && r.Valid() && r.rows == rows - 1 && r.cols == cols - 1
        invariant minorRow == if 0 <= row < i then i - 1 else i
        invariant forall k, l :: 0 <= k < minorRow && 0 <= l < cols - 1 ==>
          r.data[k, l] == data[if k < row then k else k + 1, if l < col then l else l + 1]
      {
        if i != row {
          CopyRowWithout(i, col, r, minorRow);
          minorRow := minorRow + 1;
        }
      }
      EntriesShape();
      if 0 <= row < rows && 0 <= col < cols {
        MinorEntries(Entries(), rows, cols, row, col);
        r.EntriesAre(Minor(Entries(), row, col));
      } else {
        r.EntriesAre(Zero(rows - 1, cols - 1));
      }
    }

    /** The inner loop of `getMinor`: row i of this, without column col,
        becomes row minorRow of r; every other row of r stays as it is. When
        r has no columns nothing is written, so minorRow may be past its
        last row. */
    method CopyRowWithout(i: nat, col: int, r: Matrix, minorRow: nat)
      requires Valid() && r.Valid() && r.data != data && i < rows && 0 <= col < cols && r.cols == cols - 1
      requires minorRow < r.rows || r.cols == 0
      modifies r.data
      ensures forall k, l :: 0 <= k < r.rows && k != minorRow && 0 <= l < r.cols ==> r.data[k, l] == old(r.data[k, l])
      ensures forall l :: 0 <= l < r.cols ==> r.data[minorRow, l] == data[i, if l < col then l else l + 1]
    {
      var minorCol := 0;
      for j := 0 to cols
        invariant minorCol == if j <= col then j else j - 1
        invariant forall k, l :: 0 <= k < r.rows && k != minorRow && 0 <= l < r.cols ==> r.data[k, l] == old(r.data[k, l])
        invariant forall l :: 0 <= l < minorCol ==> r.data[minorRow, l] == data[i, if l < col then l else l + 1]
      {
        if j != col {
          r.data[minorRow, minorCol] := data[i, j];
          minorCol := minorCol + 1;
        }
      }
    }

    /** `det()`: fails on a non-square matrix; otherwise the direct formula
        for 1 x 1 and 2 x 2, and the first-row cofactor expansion over the
        minors' determinants for larger matrices. The empty matrix has
        determinant 1, which makes the single cofactor of a 1 x 1 matrix 1. */
    method Det() returns (res: Result<real>)
      requires Valid()
      ensures res.Ok? <==> rows == cols
      ensures res.Err? ==> res.error == NotSquare
      ensures res.Ok? ==> EntriesSquare() && res.value == D.Det(Entries())
      decreases rows, 2
    {
      if rows != cols {
        return Err(NotSquare);
      }
      EntriesShape();
      if rows == 0 {
        return Ok(1.0);
      }
      ghost var m := Entries();
      if rows == 1 {
        D.DetOneByOne(m);
        return Ok(data[0, 0]);
      }
      if rows == 2 {
        D.DetTwoByTwo(m);
        return Ok(data[0, 0] * data[1, 1] - data[0, 1] * data[1, 0]);
      }
      var det := ExpandFirstRow(m);
      return Ok(det);
    }

    /** The loop of `det()` for matrices beyond 2 x 2: the alternating-sign
        sum, along the first row, of each entry times its minor's determinant. */
    method ExpandFirstRow(ghost m: seq<seq<real>>) returns (det: real)
      requires Valid() && rows == cols && rows > 0 && m == Entries() && IsSquare(m)
      ensures det == D.CofactorSum(m, |m|)
      decreases rows, 1
    {
      det := 0.0;
      for i := 0 to rows
        invariant det == D.CofactorSum(m, i)
      {
        det := AddCofactorTerm(i, m, det);
      }
    }

    /** One pass of the expansion loop: the sum so far plus term i. */
    method AddCofactorTerm(i: nat, ghost m: seq<seq<real>>, det: real) returns (det': real)
      requires Valid() && rows == cols && i < rows
      requires m == Entries() && IsSquare(m) && det == D.CofactorSum(m, i)
      ensures det' == D.CofactorSum(m, i + 1)
      decreases rows, 0, 1
    {
      var term := CofactorTerm(i, m);
      D.CofactorSumStep(m, i);
      det' := det + term;
    }

    /** Term i of the first-row expansion: the signed entry (0, i) times the
        determinant of its minor. */
    method CofactorTerm(i: nat, ghost m: seq<seq<real>>) returns (term: real)
      requires Valid() && rows == cols && i < rows
      requires m == Entries() && IsSquare(m)
      ensures term == D.ExpansionTerm(m, i)
      decreases rows, 0, 0
    {
      var minor := GetMinor(0, i);
      var minorDet := minor.Det();
      var entry := data[0, i];
      assert entry == m[0][i];
      term := SignedProduct(i, entry, minorDet.value, m);
    }

    /** The signed product that is term i: (+1 or -1) * entry * minor's
        determinant. */
    static method SignedProduct(i: nat, entry: real, minorDet: real, ghost m: seq<seq<real>>)
      returns (term: real)
      requires IsSquare(m) && i < |m| && entry == m[0][i] && minorDet == D.Det(Minor(m, 0, i))
      ensures term == D.ExpansionTerm(m, i)
    {
      term := Sign(i) * entry * minorDet;
      D.ExpansionTermIs(m, i, entry, minorDet, term);
    }

    /** The entries form a square matrix. */
    ghost predicate EntriesSquare()
      reads this, data
    {
      IsSquare(Entries())
    }

    /** `inverse()`: fails on a non-square matrix; otherwise the transpose of
        the matrix of cofactors, scaled by 1 / det. A zero determinant is
        left to the caller. */
    method Inverse() returns (res: Result<Matrix>)
      requires Valid()
      requires rows == cols ==> EntriesSquare() && D.Det(Entries()) != 0.0
      ensures res.Ok? <==> rows == cols
      ensures res.Err? ==> res.error == NotSquare
      ensures res.Ok? ==> fresh(res.value) && fresh(res.value.data) && res.value.Valid()
      ensures res.Ok? ==> res.value.rows == rows && res.value.cols == cols
      ensures res.Ok? ==> EntriesSquare() && res.value.Entries() == D.Inverse(Entries())
    {
      if rows != cols {
        return Err(NotSquare);
      }
      ghost var m := Entries();
      var determinant := Det();
      var result := CofactorMatrix(m);
      var adjugate := result.Transpose();
      var inverse := adjugate.ScaleBy(1.0 / determinant.value);
      return Ok(inverse);
    }

    /** The first loop of `inverse()`: entry (i, j) is the cofactor (i, j). */
    method CofactorMatrix(ghost m: seq<seq<real>>) returns (result: Matrix)
      requires Valid() && rows == cols && m == Entries() && IsSquare(m)
      ensures fresh(result) && fresh(result.data) && result.Valid()
      ensures result.rows == rows && result.cols == cols
      ensures result.Entries() == D.Cofactors(m)
    {
      result := new Matrix(rows, cols);
      for i := 0 to rows
        invariant fresh(result.data) && result.Valid() && result.rows == rows && result.cols == cols
        invariant forall k, l :: 0 <= k < i && 0 <= l < rows ==> result.data[k, l] == D.Cofactor(m, k, l)
      {
        CofactorRow(i, m, result);
      }
      result.EntriesAre(D.Cofactors(m));
    }

    /** Row i of the matrix of cofactors, written into result. */
    method CofactorRow(i: nat, ghost m: seq<seq<real>>, result: Matrix)
      requires Valid() && rows == cols && i < rows && m == Entries() && IsSquare(m)
      requires result.Valid() && result.rows == rows && result.cols == cols && result.data != data
      modifies result.data
      ensures forall k, l :: 0 <= k < rows && k != i && 0 <= l < rows ==> result.data[k, l] == old(result.data[k, l])
      ensures forall l :: 0 <= l < rows ==> result.data[i, l] == D.Cofactor(m, i, l)
    {
      for j := 0 to rows
        invariant Entries() == m
        invariant forall k, l :: 0 <= k < rows && k != i && 0 <= l < rows ==> result.data[k, l] == old(result.data[k, l])
        invariant forall l :: 0 <= l < j ==> result.data[i, l] == D.Cofactor(m, i, l)
      {
        var c := CofactorEntry(i, j, m);
        result.data[i, j] := c;
      }
    }

    /** Cofactor (i, j): the signed determinant of the minor without row i
        and column j. */
    method CofactorEntry(i: nat, j: nat, ghost m: seq<seq<real>>) returns (c: real)
      requires Valid() && rows == cols && i < rows && j < rows && m == Entries() && IsSquare(m)
      ensures c == D.Cofactor(m, i, j)
    {
      var minor := GetMinor(i, j);
      var minorDet := minor.Det();
      c := Sign(i + j) * minorDet.value;
      D.CofactorIs(m, i, j, minorDet.value);
    }
  }
}
