/** Gaussian elimination with partial pivoting and back-substitution, as
    functions over a system (A, b) of n equations: the specification that
    the Gaussian `Solve` is proved against, with the facts that make it a
    solver. */
module Elimination {
  import opened MatrixMath
  import V = VectorMath

  /** The working copies of A and b. */
  datatype System = System(a: seq<seq<real>>, b: seq<real>)

  /** An n x n matrix and a right-hand side of n entries. */
  ghost predicate WellFormed(s: System, n: nat) {
    IsMatrix(s.a, n, n) && |s.b| == n
  }

  /** x solves the system. */
  ghost predicate Solves(s: System, x: seq<real>)
    requires forall i :: 0 <= i < |s.a| ==> |s.a[i]| == |x|
  {
    MulVec(s.a, x) == s.b
  }

  function Abs(x: real): real {
    if x < 0.0 then -x else x
  }

  /** The pivot row for column c among rows lo .. hi - 1: scanning from lo,
      a row replaces the current choice only when its entry is strictly
      larger in magnitude, so the first row of largest magnitude wins. */
  function PivotRow(m: seq<seq<real>>, c: nat, lo: nat, hi: nat): (p: nat)
    requires lo < hi <= |m| && forall k :: lo <= k < hi ==> c < |m[k]|
    ensures lo <= p < hi
    ensures forall k :: lo <= k < hi ==> Abs(m[k][c]) <= Abs(m[p][c])
    ensures forall k :: lo <= k < p ==> Abs(m[k][c]) < Abs(m[p][c])
    decreases hi - lo
  {
    if hi == lo + 1 then lo
    else
      var p := PivotRow(m, c, lo, hi - 1);
      if Abs(m[hi - 1][c]) > Abs(m[p][c]) then hi - 1 else p
  }

  /** Partial pivoting at step i: rows i and the pivot row are exchanged in
      both A and b, unless the pivot row is row i itself. */
  function Pivot(s: System, i: nat, n: nat): (r: System)
    requires WellFormed(s, n) && i < n
    ensures WellFormed(r, n)
  {
    var p := PivotRow(s.a, i, i, n);
    if p != i then System(SwapRows(s.a, i, p), SwapRows(s.b, i, p)) else s
  }

  /** Row k minus factor times row i, on columns i onwards only, where the
      factor is a[k][i] / a[i][i]; the same operation on b. */
  function EliminateRow(s: System, i: nat, k: nat, n: nat): (r: System)
    requires WellFormed(s, n) && i < k < n && s.a[i][i] != 0.0
    ensures WellFormed(r, n)
  {
    var f := s.a[k][i] / s.a[i][i];
    var row := seq(n, j requires 0 <= j < n => if j < i then s.a[k][j] else s.a[k][j] - f * s.a[i][j]);
    System(s.a[k := row], s.b[k := s.b[k] - f * s.b[i]])
  }

  /** The right-hand side after eliminating row k: only entry k changes. */
  lemma EliminateRowRhs(s: System, i: nat, k: nat, n: nat, v: real)
    requires WellFormed(s, n) && i < k < n && s.a[i][i] != 0.0
    requires v == s.b[k] - s.a[k][i] / s.a[i][i] * s.b[i]
    ensures EliminateRow(s, i, k, n).b == s.b[k := v]
  {
    var r := EliminateRow(s, i, k, n);
    assert r.b[k] == v;
    assert forall j :: 0 <= j < n ==> r.b[j] == s.b[k := v][j];
  }

  /** Rows i + 1 .. k - 1 eliminated against row i, in increasing order. */
  function EliminateBelow(s: System, i: nat, k: nat, n: nat): (r: System)
    requires WellFormed(s, n) && i < k <= n && s.a[i][i] != 0.0
    ensures WellFormed(r, n) && r.a[i] == s.a[i] && r.b[i] == s.b[i]
    decreases k
  {
    if k == i + 1 then s else EliminateRow(EliminateBelow(s, i, k - 1, n), i, k - 1, n)
  }

  /** Elimination step i: pivot, then clear column i below the diagonal. */
  function Step(s: System, i: nat, n: nat): (r: System)
    requires WellFormed(s, n) && i < n && Pivot(s, i, n).a[i][i] != 0.0
    ensures WellFormed(r, n)
  {
    EliminateBelow(Pivot(s, i, n), i, n, n)
  }

  /** The first i steps meet a nonzero pivot. Over the reals this is the
      condition under which every division of the forward phase is defined. */
  ghost predicate PivotsNonzero(s: System, i: nat, n: nat)
    requires WellFormed(s, n) && i <= n
    decreases i, 0
  {
    i == 0 || (PivotsNonzero(s, i - 1, n) && Pivot(Forward(s, i - 1, n), i - 1, n).a[i - 1][i - 1] != 0.0)
  }

  /** The system after the first i elimination steps. */
  function Forward(s: System, i: nat, n: nat): (r: System)
    requires WellFormed(s, n) && i <= n && PivotsNonzero(s, i, n)
    ensures WellFormed(r, n)
    decreases i, 1
  {
    if i == 0 then s else Step(Forward(s, i - 1, n), i - 1, n)
  }

  /** Back-substitution from row n - 1 down to row i, starting from the
      zero vector: entry k (for k >= i) is (c[k] - sum over j > k of
      u[k][j] * x[j]) / u[k][k]; entries below i are still zero. */
  function BackSub(u: seq<seq<real>>, c: seq<real>, i: nat, n: nat): (x: seq<real>)
    requires IsMatrix(u, n, n) && |c| == n && i <= n
    requires forall k :: i <= k < n ==> u[k][k] != 0.0
    ensures |x| == n
    decreases n - i
  {
    if i == n then V.Zeros(n)
    else
      var y := BackSub(u, c, i + 1, n);
      y[i := (c[i] - V.SumProd(u[i], y, i + 1, n)) / u[i][i]]
  }

  /** Every entry below the diagonal in the first i columns is zero. */
  ghost predicate Echelon(a: seq<seq<real>>, i: nat, n: nat)
    requires IsMatrix(a, n, n)
  {
    forall j, k :: 0 <= j < i && j < k < n ==> a[k][j] == 0.0
  }

  /** Pivoting exchanges row i with a row at or below it, and all such rows
      are already zero in the first i columns. */
  lemma PivotKeepsEchelon(t: System, i: nat, n: nat)
    requires WellFormed(t, n) && i < n && Echelon(t.a, i, n)
    ensures Echelon(Pivot(t, i, n).a, i, n)
  {
  }

  /** Eliminating rows i + 1 .. k - 1 against row i clears column i in
      those rows, keeps the first i columns clear, and leaves rows 0 .. i
      and rows k .. n - 1 as they were. */
  lemma {:induction false} EliminateBelowClears(t: System, i: nat, k: nat, n: nat)
    requires WellFormed(t, n) && i < k <= n && t.a[i][i] != 0.0 && Echelon(t.a, i, n)
    ensures Echelon(EliminateBelow(t, i, k, n).a, i, n)
    ensures forall q :: i < q < k ==> EliminateBelow(t, i, k, n).a[q][i] == 0.0
    ensures forall q :: 0 <= q < n && (q <= i || k <= q) ==> EliminateBelow(t, i, k, n).a[q] == t.a[q]
    decreases k
  {
    if k > i + 1 {
      EliminateBelowClears(t, i, k - 1, n);
      var u := EliminateBelow(t, i, k - 1, n);
      var r := EliminateRow(u, i, k - 1, n);
      V.CancelFactor(u.a[k - 1][i], u.a[i][i]);
      assert r.a[k - 1][i] == 0.0;
    }
  }

  /** Step i keeps the first i columns clear below the diagonal and clears
      column i as well. */
  lemma StepClearsColumn(t: System, i: nat, n: nat)
    requires WellFormed(t, n) && i < n && Pivot(t, i, n).a[i][i] != 0.0 && Echelon(t.a, i, n)
    ensures Echelon(Step(t, i, n).a, i + 1, n)
  {
    PivotKeepsEchelon(t, i, n);
    EliminateBelowClears(Pivot(t, i, n), i, n, n);
  }

  /** After step i, every entry below the diagonal in columns 0 .. i is 0. */
  lemma {:induction false} ForwardEchelon(s: System, i: nat, n: nat)
    requires WellFormed(s, n) && i <= n && PivotsNonzero(s, i, n)
    ensures Echelon(Forward(s, i, n).a, i, n)
  {
    if i > 0 {
      ForwardEchelon(s, i - 1, n);
      StepClearsColumn(Forward(s, i - 1, n), i - 1, n);
    }
  }

  /** Row i is zero in its first i columns. */
  ghost predicate RowClearBefore(a: seq<seq<real>>, i: nat, n: nat)
    requires IsMatrix(a, n, n) && i < n
  {
    forall j :: 0 <= j < i ==> a[i][j] == 0.0
  }

  /** Exchanging two rows of A exchanges the same two entries of A x. */
  lemma MulVecSwap(a: seq<seq<real>>, x: seq<real>, i: nat, p: nat, n: nat)
    requires IsMatrix(a, n, n) && |x| == n && i < n && p < n
    ensures MulVec(SwapRows(a, i, p), x) == SwapRows(MulVec(a, x), i, p)
  {
  }

  /** Pivoting does not change the set of solutions. */
  lemma PivotPreservesSolutions(t: System, i: nat, n: nat, x: seq<real>)
    requires WellFormed(t, n) && i < n && |x| == n
    ensures Solves(Pivot(t, i, n), x) <==> Solves(t, x)
  {
    var p := PivotRow(t.a, i, i, n);
    if p != i {
      MulVecSwap(t.a, x, i, p, n);
      SwapRowsTwice(MulVec(t.a, x), i, p);
      SwapRowsTwice(t.b, i, p);
    }
  }

  /** The eliminated row is row k plus (-factor) times row i on every
      column, because row i is zero before column i. */
  lemma EliminatedRowIsCombination(t: System, i: nat, k: nat, n: nat)
    requires WellFormed(t, n) && i < k < n && t.a[i][i] != 0.0 && RowClearBefore(t.a, i, n)
    ensures forall j :: 0 <= j < n ==>
      EliminateRow(t, i, k, n).a[k][j] == t.a[k][j] + (-(t.a[k][i] / t.a[i][i])) * t.a[i][j]
  {
  }

  /** A row operation does not change the set of solutions, in either
      direction. */
  lemma EliminateRowPreservesSolutions(t: System, i: nat, k: nat, n: nat, x: seq<real>)
    requires WellFormed(t, n) && i < k < n && t.a[i][i] != 0.0 && RowClearBefore(t.a, i, n) && |x| == n
    ensures Solves(EliminateRow(t, i, k, n), x) <==> Solves(t, x)
  {
    var r := EliminateRow(t, i, k, n);
    var f := t.a[k][i] / t.a[i][i];
    EliminatedRowIsCombination(t, i, k, n);
    V.DotLinear(r.a[k], t.a[k], t.a[i], -f, x);
    var dk, di := V.Dot(t.a[k], x), V.Dot(t.a[i], x);
    assert V.Dot(r.a[k], x) == dk + (-f) * di;
    if Solves(t, x) {
      assert forall q :: 0 <= q < n ==> MulVec(r.a, x)[q] == r.b[q];
    }
    if Solves(r, x) {
      assert MulVec(r.a, x)[i] == r.b[i];
      assert MulVec(r.a, x)[k] == r.b[k];
      assert forall q :: 0 <= q < n && q != k ==> MulVec(t.a, x)[q] == MulVec(r.a, x)[q];
      assert forall q :: 0 <= q < n ==> MulVec(t.a, x)[q] == t.b[q];
    }
  }

  lemma {:induction false} EliminateBelowPreservesSolutions(t: System, i: nat, k: nat, n: nat, x: seq<real>)
    requires WellFormed(t, n) && i < k <= n && t.a[i][i] != 0.0 && RowClearBefore(t.a, i, n) && |x| == n
    ensures Solves(EliminateBelow(t, i, k, n), x) <==> Solves(t, x)
    decreases k
  {
    if k > i + 1 {
      EliminateBelowPreservesSolutions(t, i, k - 1, n, x);
      EliminateRowPreservesSolutions(EliminateBelow(t, i, k - 1, n), i, k - 1, n, x);
    }
  }

  /** An elimination step does not change the set of solutions. */
  lemma StepPreservesSolutions(t: System, i: nat, n: nat, x: seq<real>)
    requires WellFormed(t, n) && i < n && Pivot(t, i, n).a[i][i] != 0.0 && Echelon(t.a, i, n) && |x| == n
    ensures Solves(Step(t, i, n), x) <==> Solves(t, x)
  {
    PivotPreservesSolutions(t, i, n, x);
    PivotKeepsEchelon(t, i, n);
    EliminateBelowPreservesSolutions(Pivot(t, i, n), i, n, n, x);
  }

  /** The forward phase does not change the set of solutions. */
  lemma {:induction false} ForwardPreservesSolutions(s: System, i: nat, n: nat, x: seq<real>)
    requires WellFormed(s, n) && i <= n && PivotsNonzero(s, i, n) && |x| == n
    ensures Solves(Forward(s, i, n), x) <==> Solves(s, x)
  {
    if i > 0 {
      ForwardPreservesSolutions(s, i - 1, n, x);
      ForwardEchelon(s, i - 1, n);
      StepPreservesSolutions(Forward(s, i - 1, n), i - 1, n, x);
    }
  }

  /** Step i leaves the rows above i alone, and row i is the pivot row. */
  lemma StepKeepsUpperRows(t: System, i: nat, n: nat)
    requires WellFormed(t, n) && i < n && Pivot(t, i, n).a[i][i] != 0.0
    ensures forall q :: 0 <= q < i ==> Step(t, i, n).a[q] == t.a[q]
    ensures Step(t, i, n).a[i] == Pivot(t, i, n).a[i]
  {
    var u := Pivot(t, i, n);
    assert forall q :: 0 <= q < i ==> u.a[q] == t.a[q];
    EliminateBelowUpperRows(u, i, n, n);
  }

  lemma {:induction false} EliminateBelowUpperRows(t: System, i: nat, k: nat, n: nat)
    requires WellFormed(t, n) && i < k <= n && t.a[i][i] != 0.0
    ensures forall q :: 0 <= q <= i ==> EliminateBelow(t, i, k, n).a[q] == t.a[q]
    decreases k
  {
    if k > i + 1 {
      EliminateBelowUpperRows(t, i, k - 1, n);
    }
  }

  /** Nonzero pivots for the first m steps means nonzero pivots for fewer. */
  lemma {:induction false} PivotsNonzeroPrefix(s: System, i: nat, m: nat, n: nat)
    requires WellFormed(s, n) && i <= m <= n && PivotsNonzero(s, m, n)
    ensures PivotsNonzero(s, i, n)
    decreases m - i
  {
    if i < m {
      PivotsNonzeroPrefix(s, i, m - 1, n);
    }
  }

  /** Once step i is done, row i never changes again. */
  lemma {:induction false} ForwardKeepsRow(s: System, i: nat, m: nat, n: nat)
    requires WellFormed(s, n) && i < m <= n && PivotsNonzero(s, m, n)
    ensures PivotsNonzero(s, i + 1, n)
    ensures Forward(s, m, n).a[i] == Forward(s, i + 1, n).a[i]
    decreases m
  {
    if m > i + 1 {
      LastStepKeepsRow(s, m, i, n);
      ForwardKeepsRow(s, i, m - 1, n);
    }
  }

  /** The last of m forward steps leaves row q, above its pivot row, alone. */
  lemma LastStepKeepsRow(s: System, m: nat, q: nat, n: nat)
    requires WellFormed(s, n) && q + 1 < m <= n && PivotsNonzero(s, m, n)
    ensures PivotsNonzero(s, m - 1, n)
    ensures Forward(s, m, n).a[q] == Forward(s, m - 1, n).a[q]
  {
    StepKeepsRow(Forward(s, m - 1, n), m - 1, q, n);
  }

  /** Step i leaves row q, above row i, alone. */
  lemma StepKeepsRow(t: System, i: nat, q: nat, n: nat)
    requires WellFormed(t, n) && q < i < n && Pivot(t, i, n).a[i][i] != 0.0
    ensures Step(t, i, n).a[q] == t.a[q]
  {
    StepKeepsUpperRows(t, i, n);
  }

  /** After the forward phase every diagonal entry is the pivot of its
      step, so none is zero. */
  lemma ForwardDiagonal(s: System, n: nat)
    requires WellFormed(s, n) && PivotsNonzero(s, n, n)
    ensures forall i :: 0 <= i < n ==> Forward(s, n, n).a[i][i] != 0.0
  {
    forall i | 0 <= i < n
      ensures Forward(s, n, n).a[i][i] != 0.0
    {
      ForwardKeepsRow(s, i, n, n);
      StepKeepsUpperRows(Forward(s, i, n), i, n);
    }
  }

  /** The result of the whole solver: back-substitution on the system the
      forward phase leaves. */
  function Solution(s: System, n: nat): (x: seq<real>)
    requires WellFormed(s, n) && PivotsNonzero(s, n, n)
    ensures |x| == n
  {
    ForwardDiagonal(s, n);
    var t := Forward(s, n, n);
    BackSub(t.a, t.b, 0, n)
  }

  /** Entries at or beyond k are settled once back-substitution reaches k. */
  lemma {:induction false} BackSubStable(u: seq<seq<real>>, c: seq<real>, i: nat, k: nat, n: nat)
    requires IsMatrix(u, n, n) && |c| == n && i <= k <= n
    requires forall q :: i <= q < n ==> u[q][q] != 0.0
    ensures forall j :: k <= j < n ==> BackSub(u, c, i, n)[j] == BackSub(u, c, k, n)[j]
    decreases k - i
  {
    if i < k {
      BackSubStable(u, c, i + 1, k, n);
    }
  }

  lemma PivotTerm(d: real, xk: real, a: real, rest: real)
    requires d != 0.0 && xk == (a - rest) / d
    ensures d * xk + rest == a
  {
  }

  /** Entry k of the back-substituted x, in terms of the later entries of x. */
  lemma BackSubEntry(u: seq<seq<real>>, c: seq<real>, k: nat, n: nat)
    requires IsMatrix(u, n, n) && |c| == n && k < n
    requires forall q :: 0 <= q < n ==> u[q][q] != 0.0
    ensures var x := BackSub(u, c, 0, n);
      x[k] == (c[k] - V.SumProd(u[k], x, k + 1, n)) / u[k][k]
  {
    var x := BackSub(u, c, 0, n);
    var y := BackSub(u, c, k + 1, n);
    BackSubStable(u, c, 0, k, n);
    BackSubStable(u, c, 0, k + 1, n);
    assert x[k] == BackSub(u, c, k, n)[k];
    V.SumProdCongruent(u[k], x, u[k], y, k + 1, n);
  }

  lemma SumProdSingle(u: seq<real>, v: seq<real>, k: nat)
    requires k < |u| && k < |v|
    ensures V.SumProd(u, v, k, k + 1) == u[k] * v[k]
  {
    assert V.SumProd(u, v, k, k) == 0.0;
  }

  /** Row k of an upper-triangular U times the back-substituted x gives c[k]. */
  lemma BackSubRow(u: seq<seq<real>>, c: seq<real>, k: nat, n: nat)
    requires IsMatrix(u, n, n) && |c| == n && Echelon(u, n, n) && k < n
    requires forall q :: 0 <= q < n ==> u[q][q] != 0.0
    ensures V.Dot(u[k], BackSub(u, c, 0, n)) == c[k]
  {
    var x := BackSub(u, c, 0, n);
    BackSubPivot(u, c, k, n);
    V.SumProdZero(u[k], x, 0, k);
    V.SumProdSplit(u[k], x, 0, k, n);
    V.SumProdSplit(u[k], x, k, k + 1, n);
    SumProdSingle(u[k], x, k);
  }

  /** Entry k of the back-substituted x satisfies equation k restricted to
      the columns from k on. */
  lemma BackSubPivot(u: seq<seq<real>>, c: seq<real>, k: nat, n: nat)
    requires IsMatrix(u, n, n) && |c| == n && k < n
    requires forall q :: 0 <= q < n ==> u[q][q] != 0.0
    ensures var x := BackSub(u, c, 0, n);
      u[k][k] * x[k] + V.SumProd(u[k], x, k + 1, n) == c[k]
  {
    var x := BackSub(u, c, 0, n);
    BackSubEntry(u, c, k, n);
    PivotTerm(u[k][k], x[k], c[k], V.SumProd(u[k], x, k + 1, n));
  }

  /** Back-substitution solves an upper-triangular system with nonzero
      diagonal. */
  lemma BackSubSolves(u: seq<seq<real>>, c: seq<real>, n: nat)
    requires IsMatrix(u, n, n) && |c| == n && Echelon(u, n, n)
    requires forall q :: 0 <= q < n ==> u[q][q] != 0.0
    ensures MulVec(u, BackSub(u, c, 0, n)) == c
  {
    forall k | 0 <= k < n
      ensures MulVec(u, BackSub(u, c, 0, n))[k] == c[k]
    {
      BackSubRow(u, c, k, n);
    }
  }

  /** Gaussian elimination with partial pivoting, followed by
      back-substitution, solves A x = b whenever every pivot is nonzero. */
  lemma GaussianSolves(s: System, n: nat)
    requires WellFormed(s, n) && PivotsNonzero(s, n, n)
    ensures MulVec(s.a, Solution(s, n)) == s.b
  {
    ForwardDiagonal(s, n);
    ForwardEchelon(s, n, n);
    var t := Forward(s, n, n);
    BackSubSolves(t.a, t.b, n);
    ForwardPreservesSolutions(s, n, n, Solution(s, n));
  }
}
