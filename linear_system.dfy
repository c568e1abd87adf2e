/** The linear-system classes: construction checks, the symmetry test, and
    the two solvers, Gaussian elimination with partial pivoting for a
    general square system and conjugate gradient for a symmetric positive
    definite one. Both solvers work on copies of the system's matrix and
    vector, so they modify nothing they did not allocate. */
module LinearSystems {
  import opened Errors
  import opened MatrixMath
  import V = VectorMath
  import E = Elimination
  import CG = ConjugateGradient
  import opened Vectors
  import opened Matrices

  /** Which `Solve` a system runs: the base class's Gaussian elimination or
      the positive-definite subclass's conjugate gradient. */
  datatype SolverKind = Gaussian | Conjugate

  /** The first n rows and columns of m are symmetric. */
  ghost predicate Symmetric(m: seq<seq<real>>, n: nat)
    requires n <= |m| && forall i :: 0 <= i < n ==> n <= |m[i]|
  {
    forall i, j :: 0 <= i < n && 0 <= j < n ==> m[i][j] == m[j][i]
  }

  /** A square matrix is symmetric exactly when it equals its transpose. */
  lemma SymmetricIffTransposed(m: seq<seq<real>>, n: nat)
    requires IsMatrix(m, n, n)
    ensures Symmetric(m, n) <==> Transpose(m, n) == m
  {
    if Symmetric(m, n) {
      forall i | 0 <= i < n
        ensures Transpose(m, n)[i] == m[i]
      {
        assert forall j :: 0 <= j < n ==> Transpose(m, n)[i][j] == m[i][j];
      }
    }
    if Transpose(m, n) == m {
      forall i, j | 0 <= i < n && 0 <= j < n
        ensures m[i][j] == m[j][i]
      {
        assert Transpose(m, n)[j][i] == m[i][j];
      }
    }
  }

  /** `isSymmetric(A)`: compares A[i][j] with A[j][i] for every i, j below
      the row count and stops at the first difference. The columns it reads
      must exist, so A has at least as many columns as rows. */
  method IsSymmetric(A: Matrix) returns (sym: bool)
    requires A.Valid() && A.rows <= A.cols
    ensures sym <==> Symmetric(A.Entries(), A.rows)
  {
    A.EntriesShape();
    var n := A.rows;
    for i := 0 to n
      invariant forall p, q :: 0 <= p < i && 0 <= q < n ==> A.data[p, q] == A.data[q, p]
    {
      for j := 0 to n
        invariant forall q :: 0 <= q < j ==> A.data[i, q] == A.data[q, i]
      {
        if A.data[i, j] != A.data[j, i] {
          return false;
        }
      }
    }
    return true;
  }

  /** `LinearSystem` and its subclass `PosSymLinSystem`: the size, and the
      matrix and vector the system refers to without owning them. */
  class LinearSystem {
    const size: nat          // mSize
    const a: Matrix          // mpA
    const b: Vector          // mpb
    const kind: SolverKind

    /** The matrix is size x size and the vector has size entries. A caller
        that reassigns the referenced matrix or vector can break this. */
    ghost predicate Valid()
      reads this, a, b
    {
      a.Valid() && b.Valid() && a.rows == size && a.cols == size && b.size == size
    }

    /** The shape checks of `LinearSystem`, and for a conjugate-gradient
        system the symmetry check of `PosSymLinSystem`, hold on entry. */
    constructor (A: Matrix, B: Vector, k: SolverKind)
      requires A.Valid() && B.Valid() && A.rows == A.cols == B.size
      requires k == Conjugate ==> Symmetric(A.Entries(), A.rows)
      ensures Valid() && a == A && b == B && size == A.rows && kind == k
    {
      size, a, b, kind := A.rows, A, B, k;
    }

    /** `LinearSystem(A, b)`: fails if A is not square, then if its row
        count differs from the size of b. */
    static method New(A: Matrix, B: Vector) returns (res: Result<LinearSystem>)
      requires A.Valid() && B.Valid()
      ensures res.Ok? <==> A.rows == A.cols && A.rows == B.size
      ensures res.Err? ==> res.error == if A.rows != A.cols then NotSquare else IncompatibleSystem
      ensures res.Ok? ==> fresh(res.value) && res.value.Valid() && res.value.kind == Gaussian
      ensures res.Ok? ==> res.value.a == A && res.value.b == B && res.value.size == A.rows
    {
      if A.rows != A.cols {
        return Err(NotSquare);
      }
      if A.rows != B.size {
        return Err(IncompatibleSystem);
      }
      var s := new LinearSystem(A, B, Gaussian);
      return Ok(s);
    }

    /** `PosSymLinSystem(A, b)`: the base checks first, then fails if A is
        not symmetric. Positive definiteness is not checked. */
    static method NewPosSym(A: Matrix, B: Vector) returns (res: Result<LinearSystem>)
      requires A.Valid() && B.Valid()
      ensures res.Ok? <==> A.rows == A.cols && A.rows == B.size && Symmetric(A.Entries(), A.rows)
      ensures res.Err? && A.rows != A.cols ==> res.error == NotSquare
      ensures res.Err? && A.rows == A.cols && A.rows != B.size ==> res.error == IncompatibleSystem
      ensures res.Err? && A.rows == A.cols && A.rows == B.size ==> res.error == NotSymmetric
      ensures res.Ok? ==> fresh(res.value) && res.value.Valid() && res.value.kind == Conjugate
      ensures res.Ok? ==> res.value.a == A && res.value.b == B && res.value.size == A.rows
    {
      if A.rows != A.cols {
        return Err(NotSquare);
      }
      if A.rows != B.size {
        return Err(IncompatibleSystem);
      }
      var sym := IsSymmetric(A);
      if !sym {
        return Err(NotSymmetric);
      }
      var s := new LinearSystem(A, B, Conjugate);
      return Ok(s);
    }

    /** The virtual `Solve`: Gaussian elimination for a plain system,
        conjugate gradient for a positive-definite one. Each has the
        precondition under which its divisions are defined over the reals. */
    method Solve() returns (x: Vector)
      requires Valid()
      requires kind == Gaussian ==> E.PivotsNonzero(E.System(a.Entries(), b.Contents()), size, size)
      requires kind == Conjugate ==> CG.PositiveDefinite(a.Entries(), size)
      requires kind == Conjugate ==> size == 0 || b.Contents() != V.Zeros(size)
      ensures fresh(x) && x.Valid() && x.size == size
      ensures kind == Gaussian ==> x.Contents() == E.Solution(E.System(a.Entries(), b.Contents()), size)
      ensures kind == Gaussian ==> MulVec(a.Entries(), x.Contents()) == b.Contents()
      ensures kind == Conjugate ==> x.Contents() == CG.Solution(a.Entries(), b.Contents(), size)
    {
      if kind == Gaussian {
        x := GaussianSolve(a, b);
      } else {
        x := ConjugateGradientSolve(a, b);
      }
    }
  }

  /** `GeneralLinSystem`: a separate class that checks only that the row
      count of A matches the size of b; A need not be square. */
  class GeneralLinSystem {
    const size: nat          // mSize
    const a: Matrix          // mpA
    const b: Vector          // mpb

    ghost predicate Valid()
      reads this, a, b
    {
      a.Valid() && b.Valid() && a.rows == size && b.size == size
    }

    constructor (A: Matrix, B: Vector)
      requires A.Valid() && B.Valid() && A.rows == B.size
      ensures Valid() && a == A && b == B && size == A.rows
    {
      size, a, b := A.rows, A, B;
    }

    /** `GeneralLinSystem(A, b)`: fails exactly when the row count of A
        differs from the size of b. */
    static method New(A: Matrix, B: Vector) returns (res: Result<GeneralLinSystem>)
      requires A.Valid() && B.Valid()
      ensures res.Ok? <==> A.rows == B.size
      ensures res.Err? ==> res.error == IncompatibleSystem
      ensures res.Ok? ==> fresh(res.value) && res.value.Valid()
      ensures res.Ok? ==> res.value.a == A && res.value.b == B && res.value.size == A.rows
    {
      if A.rows != B.size {
        return Err(IncompatibleSystem);
      }
      var s := new GeneralLinSystem(A, B);
      return Ok(s);
    }
  }

  /** Gaussian elimination with partial pivoting on copies of A and b,
      then back-substitution. Over the reals, with every pivot nonzero, the
      answer solves the system. */
  method GaussianSolve(A: Matrix, B: Vector) returns (x: Vector)
    requires A.Valid() && B.Valid() && A.rows == A.cols == B.size
    requires E.PivotsNonzero(E.System(A.Entries(), B.Contents()), A.rows, A.rows)
    ensures fresh(x) && x.Valid() && x.size == A.rows
    ensures x.Contents() == E.Solution(E.System(A.Entries(), B.Contents()), A.rows)
    ensures MulVec(A.Entries(), x.Contents()) == B.Contents()
  {
    ghost var s0 := E.System(A.Entries(), B.Contents());
    var n := A.rows;
    var M := new Matrix.Copy(A);
    var c := new Vector.Copy(B);
    ForwardPhase(M, c, n, s0);
    ghost var u := E.Forward(s0, n, n);
    E.ForwardDiagonal(s0, n);
    x := BackSubstitute(M, c, n, u);
    assert x.Contents() == E.Solution(s0, n);
    E.GaussianSolves(s0, n);
  }

  /** The forward phase in place: for each column i in turn, pivot, then
      eliminate the rows below row i. */
  method ForwardPhase(M: Matrix, c: Vector, n: nat, ghost s0: E.System)
    requires M.Valid() && c.Valid() && M.rows == n && M.cols == n && c.size == n
    requires E.WellFormed(s0, n) && E.PivotsNonzero(s0, n, n)
    requires M.Entries() == s0.a && c.Contents() == s0.b
    modifies M.data, c.data
    ensures M.Valid() && c.Valid() && M.data == old(M.data) && c.data == old(c.data)
    ensures M.Entries() == E.Forward(s0, n, n).a && c.Contents() == E.Forward(s0, n, n).b
  {
    for i := 0 to n
      invariant M.Valid() && c.Valid() && M.data == old(M.data) && c.data == old(c.data)
      invariant E.PivotsNonzero(s0, i, n)
      invariant M.Entries() == E.Forward(s0, i, n).a && c.Contents() == E.Forward(s0, i, n).b
    {
      E.PivotsNonzeroPrefix(s0, i + 1, n, n);
      ghost var t := E.Forward(s0, i, n);
      ghost var pv := E.Pivot(t, i, n);
      PivotInPlace(M, c, i, n, t);
      EliminateBelowInPlace(M, c, i, n, pv);
    }
  }

  /** The partial-pivoting step in place: find the pivot row for column i
      and, unless it is row i, exchange it with row i in both A and b. */
  method PivotInPlace(M: Matrix, c: Vector, i: nat, n: nat, ghost t: E.System)
    requires M.Valid() && c.Valid() && M.rows == n && M.cols == n && c.size == n && i < n
    requires E.WellFormed(t, n) && M.Entries() == t.a && c.Contents() == t.b
    modifies M.data, c.data
    ensures M.Valid() && c.Valid() && M.data == old(M.data) && c.data == old(c.data)
    ensures M.Entries() == E.Pivot(t, i, n).a && c.Contents() == E.Pivot(t, i, n).b
  {
    var maxRow := FindPivot(M, i, n);
    if maxRow != i {
      var swapped := M.SwapRows(i, maxRow);
      SwapEntries(c, i, maxRow);
    }
  }

  /** Entries i and j of c exchanged, as `std::swap(b[i], b[maxRow])`. */
  method SwapEntries(c: Vector, i: nat, j: nat)
    requires c.Valid() && i < c.size && j < c.size
    modifies c.data
    ensures c.Valid() && c.Contents() == SwapRows(old(c.Contents()), i, j)
  {
    c.data[i], c.data[j] := c.data[j], c.data[i];
  }

  /** The partial-pivoting scan: the row at or below i whose entry in
      column i is largest in magnitude, the first such row on a tie. */
  method FindPivot(M: Matrix, i: nat, n: nat) returns (maxRow: nat)
    requires M.Valid() && M.rows == n && M.cols == n && i < n
    ensures i <= maxRow < n && maxRow == E.PivotRow(M.Entries(), i, i, n)
    ensures forall k :: i <= k < n ==> E.Abs(M.Entries()[k][i]) <= E.Abs(M.Entries()[maxRow][i])
    ensures forall k :: i <= k < maxRow ==> E.Abs(M.Entries()[k][i]) < E.Abs(M.Entries()[maxRow][i])
  {
    M.EntriesShape();
    maxRow := i;
    for k := i + 1 to n
      invariant i <= maxRow < k
      invariant maxRow == E.PivotRow(M.Entries(), i, i, k)
    {
      if E.Abs(M.data[k, i]) > E.Abs(M.data[maxRow, i]) {
        maxRow := k;
      }
    }
  }

  /** Every row below row i eliminated against row i, top to bottom. */
  method EliminateBelowInPlace(M: Matrix, c: Vector, i: nat, n: nat, ghost pv: E.System)
    requires M.Valid() && c.Valid() && M.rows == n && M.cols == n && c.size == n && i < n
    requires E.WellFormed(pv, n) && pv.a[i][i] != 0.0
    requires M.Entries() == pv.a && c.Contents() == pv.b
    modifies M.data, c.data
    ensures M.Valid() && c.Valid() && M.data == old(M.data) && c.data == old(c.data)
    ensures M.Entries() == E.EliminateBelow(pv, i, n, n).a && c.Contents() == E.EliminateBelow(pv, i, n, n).b
  {
    for k := i + 1 to n
      invariant M.Valid() && c.Valid() && M.data == old(M.data) && c.data == old(c.data)
      invariant M.Entries() == E.EliminateBelow(pv, i, k, n).a && c.Contents() == E.EliminateBelow(pv, i, k, n).b
    {
      EliminateRowInPlace(M, c, i, k, n, E.EliminateBelow(pv, i, k, n));
    }
  }

  /** Row k of A minus factor times row i on columns i onwards, and the
      same on b, where factor = A[k][i] / A[i][i] is taken before the row
      changes. */
  method EliminateRowInPlace(M: Matrix, c: Vector, i: nat, k: nat, n: nat, ghost s: E.System)
    requires M.Valid() && c.Valid() && M.rows == n && M.cols == n && c.size == n && i < k < n
    requires E.WellFormed(s, n) && M.Entries() == s.a && c.Contents() == s.b && s.a[i][i] != 0.0
    modifies M.data, c.data
    ensures M.Valid() && c.Valid() && M.data == old(M.data) && c.data == old(c.data)
    ensures M.Entries() == E.EliminateRow(s, i, k, n).a && c.Contents() == E.EliminateRow(s, i, k, n).b
  {
    M.EntriesShape();
    var factor := M.data[k, i] / M.data[i, i];
    assert factor == s.a[k][i] / s.a[i][i];
    var v := c.data[k] - factor * c.data[i];
    E.EliminateRowRhs(s, i, k, n, v);
    UpdateEntry(c, k, v);
    SubtractRowMultiple(M, i, k, n, factor, s.a);
    M.EntriesAre(E.EliminateRow(s, i, k, n).a);
  }

  /** Entry k of c becomes v; the others stay as they are. */
  method UpdateEntry(c: Vector, k: nat, v: real)
    requires c.Valid() && k < c.size
    modifies c.data
    ensures c.Valid() && c.Contents() == old(c.Contents())[k := v]
  {
    c.data[k] := v;
  }

  /** Row k minus factor times row i, on columns i onwards; every other
      entry stays as it is. */
  method SubtractRowMultiple(M: Matrix, i: nat, k: nat, n: nat, factor: real, ghost a: seq<seq<real>>)
    requires M.Valid() && M.rows == n && M.cols == n && i < k < n && IsMatrix(a, n, n)
    requires forall p, q :: 0 <= p < n && 0 <= q < n ==> M.data[p, q] == a[p][q]
    modifies M.data
    ensures forall p, q :: 0 <= p < n && 0 <= q < n ==>
      M.data[p, q] == if p == k && i <= q then a[k][q] - factor * a[i][q] else a[p][q]
  {
    for j := i to n
      invariant forall p, q :: 0 <= p < n && 0 <= q < n ==>
        M.data[p, q] == if p == k && i <= q < j then a[k][q] - factor * a[i][q] else a[p][q]
    {
      M.data[k, j] := M.data[k, j] - factor * M.data[i, j];
    }
  }

  /** Back-substitution from the last row up on an upper-triangular U with
      nonzero diagonal. */
  method BackSubstitute(U: Matrix, c: Vector, n: nat, ghost t: E.System) returns (x: Vector)
    requires U.Valid() && c.Valid() && U.rows == n && U.cols == n && c.size == n
    requires E.WellFormed(t, n) && U.Entries() == t.a && c.Contents() == t.b
    requires forall q :: 0 <= q < n ==> t.a[q][q] != 0.0
    ensures fresh(x) && x.Valid() && x.size == n
    ensures x.Contents() == E.BackSub(t.a, t.b, 0, n)
  {
    x := new Vector(n);
    var i := n;
    while i > 0
      invariant 0 <= i <= n && x.Valid() && x.size == n && fresh(x.data)
      invariant x.Contents() == E.BackSub(t.a, t.b, i, n)
    {
      i := i - 1;
      BackSubstituteRow(U, c, x, i, n, t);
    }
  }

  /** Row i of back-substitution: x[i] starts as b[i], loses U[i][j] * x[j]
      for each later j, and is divided by U[i][i]. */
  method BackSubstituteRow(U: Matrix, c: Vector, x: Vector, i: nat, n: nat, ghost t: E.System)
    requires U.Valid() && c.Valid() && x.Valid() && U.rows == n && U.cols == n && c.size == n && x.size == n
    requires E.WellFormed(t, n) && U.Entries() == t.a && c.Contents() == t.b && i < n
    requires forall q :: 0 <= q < n ==> t.a[q][q] != 0.0
    requires x.Contents() == E.BackSub(t.a, t.b, i + 1, n)
    modifies x.data
    ensures x.Valid() && x.data == old(x.data)
    ensures x.Contents() == E.BackSub(t.a, t.b, i, n)
  {
    U.EntriesShape();
    ghost var y := E.BackSub(t.a, t.b, i + 1, n);
    x.data[i] := c.data[i];
    SubtractLaterTerms(U, x, i, n, t.a[i], y);
    x.data[i] := x.data[i] / U.data[i, i];
    ghost var v := (t.b[i] - V.SumProd(t.a[i], y, i + 1, n)) / t.a[i][i];
    assert x.data[i] == v;
    assert x.Contents() == y[i := v];
  }

  /** x[i] loses U[i][j] * x[j] for each j after i; the other entries of x,
      which equal y, stay as they are. */
  method SubtractLaterTerms(U: Matrix, x: Vector, i: nat, n: nat, ghost row: seq<real>, ghost y: seq<real>)
    requires U.Valid() && x.Valid() && U.rows == n && U.cols == n && x.size == n && i < n
    requires |row| == n && |y| == n && forall q :: 0 <= q < n ==> U.data[i, q] == row[q]
    requires forall q :: 0 <= q < n && q != i ==> x.data[q] == y[q]
    modifies x.data
    ensures forall q :: 0 <= q < n && q != i ==> x.data[q] == y[q]
    ensures x.data[i] == old(x.data[i]) - V.SumProd(row, y, i + 1, n)
  {
    for j := i + 1 to n
      invariant forall q :: 0 <= q < n && q != i ==> x.data[q] == y[q]
      invariant x.data[i] == old(x.data[i]) - V.SumProd(row, y, i + 1, j)
    {
      x.data[i] := x.data[i] - U.data[i, j] * x.data[j];
    }
  }

  /** Conjugate gradient on copies of A and b, from x = 0, for at most
      2 * size iterations, leaving early once the squared residual drops
      below the square of the tolerance. */
  method ConjugateGradientSolve(A: Matrix, B: Vector) returns (x: Vector)
    requires A.Valid() && B.Valid() && A.rows == A.cols == B.size
    requires CG.PositiveDefinite(A.Entries(), A.rows)
    requires A.rows == 0 || B.Contents() != V.Zeros(A.rows)
    ensures fresh(x) && x.Valid() && x.size == A.rows
    ensures x.Contents() == CG.Solution(A.Entries(), B.Contents(), A.rows)
  {
    A.EntriesShape();
    ghost var m := A.Entries();
    ghost var bv := B.Contents();
    var n := A.rows;
    var M := new Matrix.Copy(A);
    var b := new Vector.Copy(B);
    var r, p, rsOld;
    x, r, p, rsOld := ConjugateGradientStart(M, b, n, m, bv);
    x := ConjugateGradientLoop(M, x, r, p, rsOld, n, m, bv);
  }

  /** The iteration loop: at most 2 * size passes, leaving at the first
      pass whose squared residual is below the square of the tolerance. */
  method ConjugateGradientLoop(M: Matrix, x0: Vector, r0: Vector, p0: Vector, rs0: real, n: nat,
                               ghost m: seq<seq<real>>, ghost bv: seq<real>) returns (x: Vector)
    requires M.Valid() && x0.Valid() && r0.Valid() && p0.Valid()
    requires M.rows == n && M.cols == n && x0.size == n && r0.size == n && p0.size == n
    requires IsMatrix(m, n, n) && |bv| == n && M.Entries() == m
    requires CG.PositiveDefinite(m, n) && (n == 0 || bv != V.Zeros(n))
    requires var s := CG.Start(m, bv, n);
      x0.Contents() == s.x && r0.Contents() == s.r && p0.Contents() == s.p && rs0 == s.rs
    ensures (x == x0 || fresh(x)) && x.Valid() && x.size == n
    ensures x.Contents() == CG.Solution(m, bv, n)
  {
    x := x0;
    var r, p, rsOld := r0, p0, rs0;
    var maxIter := n * 2;
    var i := 0;
    ghost var stopped := false;
    while i < maxIter
      invariant 0 <= i <= maxIter && !stopped
      invariant (x == x0 || fresh(x)) && x.Valid() && r.Valid() && p.Valid()
      invariant x.size == n && r.size == n && p.size == n
      invariant M.Valid() && M.Entries() == m
      invariant Reached(m, bv, n, i, x, r, p, rsOld)
    {
      var stop;
      x, r, p, rsOld, stop := ConjugateGradientPass(M, x, r, p, rsOld, n, m, bv, i);
      if stop {
        stopped := true;
        break;
      }
      i := i + 1;
    }
    if !stopped {
      CG.SolutionAt(m, bv, n, i);
    }
  }

  /** The working vectors hold the running iterate after i passes. */
  ghost predicate Reached(m: seq<seq<real>>, bv: seq<real>, n: nat, i: nat,
                          x: Vector, r: Vector, p: Vector, rs: real)
    requires IsMatrix(m, n, n) && |bv| == n && CG.PositiveDefinite(m, n)
    requires (n == 0 || bv != V.Zeros(n)) && i <= 2 * n
    reads x, x.data, r, r.data, p, p.data
  {
    var s := CG.Iterate(m, bv, n, i);
    !s.done && x.Contents() == s.x && r.Contents() == s.r && p.Contents() == s.p && rs == s.rs
  }

  /** Pass i of the loop: either it stops, and x is the answer, or the
      vectors hold the running iterate after i + 1 passes. */
  method ConjugateGradientPass(M: Matrix, x: Vector, r: Vector, p: Vector, rsOld: real, n: nat,
                               ghost m: seq<seq<real>>, ghost bv: seq<real>, ghost i: nat)
    returns (x': Vector, r': Vector, p': Vector, rsNew: real, stop: bool)
    requires M.Valid() && x.Valid() && r.Valid() && p.Valid()
    requires M.rows == n && M.cols == n && x.size == n && r.size == n && p.size == n
    requires IsMatrix(m, n, n) && |bv| == n && M.Entries() == m
    requires CG.PositiveDefinite(m, n) && (n == 0 || bv != V.Zeros(n)) && i < 2 * n
    requires Reached(m, bv, n, i, x, r, p, rsOld)
    ensures fresh(x') && x'.Valid() && r'.Valid() && p'.Valid()
    ensures x'.size == n && r'.size == n && p'.size == n
    ensures stop ==> x'.Contents() == CG.Solution(m, bv, n)
    ensures !stop ==> Reached(m, bv, n, i + 1, x', r', p', rsNew)
  {
    ghost var st := CG.Iterate(m, bv, n, i);
    x', r', p', rsNew, stop := ConjugateGradientStep(M, x, r, p, rsOld, n, m, st);
    CG.IterateNext(m, bv, n, i);
    if stop {
      CG.SolutionAt(m, bv, n, i + 1);
    }
  }

  /** The set-up before the loop: x = 0, r = b - A x, p a copy of r, and
      rs = r . r. */
  method ConjugateGradientStart(M: Matrix, b: Vector, n: nat, ghost m: seq<seq<real>>, ghost bv: seq<real>)
    returns (x: Vector, r: Vector, p: Vector, rsOld: real)
    requires M.Valid() && b.Valid() && M.rows == n && M.cols == n && b.size == n
    requires M.Entries() == m && b.Contents() == bv && IsMatrix(m, n, n)
    ensures fresh(x) && x.Valid() && r.Valid() && p.Valid()
    ensures x.size == n && r.size == n && p.size == n
    ensures CG.Start(m, bv, n) == CG.State(x.Contents(), r.Contents(), p.Contents(), rsOld, false)
  {
    x := new Vector(n);
    var ax := M.MulVec(x);
    var r0 := b.Sub(ax.value);
    r := r0.value;
    p := new Vector.Copy(r);
    var rs := r.Dot(r);
    rsOld := rs.value;
  }

  /** One iteration of the conjugate-gradient loop: Ap = A p,
      alpha = rs / (p . Ap), x + alpha p, r - alpha Ap, and the new squared
      residual; unless that is below the square of the tolerance, the new
      direction r + beta p with beta = rs' / rs. */
  method ConjugateGradientStep(M: Matrix, x: Vector, r: Vector, p: Vector, rsOld: real, n: nat,
                               ghost m: seq<seq<real>>, ghost s: CG.State)
    returns (x': Vector, r': Vector, p': Vector, rsNew: real, stop: bool)
    requires M.Valid() && x.Valid() && r.Valid() && p.Valid()
    requires M.rows == n && M.cols == n && x.size == n && r.size == n && p.size == n
    requires IsMatrix(m, n, n) && M.Entries() == m && CG.PositiveDefinite(m, n) && n > 0
    requires CG.Runnable(n, s) && !s.done
    requires x.Contents() == s.x && r.Contents() == s.r && p.Contents() == s.p && rsOld == s.rs
    ensures fresh(x') && fresh(r') && x'.Valid() && r'.Valid() && p'.Valid()
    ensures x'.size == n && r'.size == n && p'.size == n
    ensures var t := CG.Step(m, n, s);
      && stop == t.done && x'.Contents() == t.x && r'.Contents() == t.r
      && (!stop ==> p'.Contents() == t.p && rsNew == t.rs)
  {
    CG.CurvaturePositive(m, n, s);
    var alpha;
    x', r', rsNew, alpha := MoveAlongDirection(M, x, r, p, rsOld, n, m);
    if rsNew < CG.Tol * CG.Tol {
      return x', r', p, rsNew, true;
    }
    var beta := rsNew / rsOld;
    var pStep := p.Scale(beta);
    var ps := r'.Add(pStep);
    p' := ps.value;
    stop := false;
  }

  /** The first half of a pass: alpha = rs / pᵗAp, x + alpha p, r - alpha Ap,
      and the new squared residual length. */
  method MoveAlongDirection(M: Matrix, x: Vector, r: Vector, p: Vector, rsOld: real, n: nat,
                            ghost m: seq<seq<real>>) returns (x': Vector, r': Vector, rsNew: real, alpha: real)
    requires M.Valid() && x.Valid() && r.Valid() && p.Valid()
    requires M.rows == n && M.cols == n && x.size == n && r.size == n && p.size == n
    requires IsMatrix(m, n, n) && M.Entries() == m && V.Dot(p.Contents(), MulVec(m, p.Contents())) != 0.0
    ensures fresh(x') && fresh(r') && x'.Valid() && r'.Valid() && x'.size == n && r'.size == n
    ensures alpha == rsOld / V.Dot(p.Contents(), MulVec(m, p.Contents()))
    ensures x'.Contents() == V.Add(x.Contents(), V.Scale(p.Contents(), alpha))
    ensures r'.Contents() == V.Sub(r.Contents(), V.Scale(MulVec(m, p.Contents()), alpha))
    ensures rsNew == V.Dot(r'.Contents(), r'.Contents())
  {
    var ap := M.MulVec(p);
    var pap := p.Dot(ap.value);
    alpha := rsOld / pap.value;
    var step := p.Scale(alpha);
    var xs := x.Add(step);
    x' := xs.value;
    var apStep := ap.value.Scale(alpha);
    var rs := r.Sub(apStep);
    r' := rs.value;
    var rr := r'.Dot(r');
    rsNew := rr.value;
  }
}
