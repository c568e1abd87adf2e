/** Determinant by cofactor expansion and inverse by the adjugate, as
    functions over square matrices, with the source's own behaviour on the
    empty matrix kept beside the corrected definition. */
module Determinants {
  import opened MatrixMath
  import V = VectorMath

  /** The determinant, expanded along the first row. The empty matrix has
      determinant 1, so a 1 x 1 matrix's single cofactor is 1. */
  function Det(m: seq<seq<real>>): real
    requires IsSquare(m)
    decreases |m|, 1
  {
    if |m| == 0 then 1.0 else CofactorSum(m, |m|)
  }

  /** The first k terms of the first-row expansion, accumulated from column 0:
      the sum over i < k of Sign(i) * m[0][i] * Det(Minor(m, 0, i)). */
  function CofactorSum(m: seq<seq<real>>, k: nat): real
    requires IsSquare(m) && 0 < |m| && k <= |m|
    decreases |m|, 0, k + 2
  {
    if k == 0 then 0.0
    else CofactorSum(m, k - 1) + ExpansionTerm(m, k - 1)
  }

  /** Term i of the expansion: the entry (0, i) times its minor's
      determinant, negated for odd i. */
  function ExpansionTerm(m: seq<seq<real>>, i: nat): real
    requires IsSquare(m) && i < |m|
    decreases |m|, 0, 1
  {
    if i % 2 == 0 then EntryTimesMinor(m, i) else -EntryTimesMinor(m, i)
  }

  /** The entry (0, i) times the determinant of the minor without row 0 and
      column i. */
  function EntryTimesMinor(m: seq<seq<real>>, i: nat): real
    requires IsSquare(m) && i < |m|
    decreases |m|, 0, 0
  {
    m[0][i] * Det(Minor(m, 0, i))
  }

  /** `det()` as written: direct formulas for 1 x 1 and 2 x 2, the first-row
      expansion otherwise, which for the empty matrix is the empty sum 0. */
  function DetAsWritten(m: seq<seq<real>>): real
    requires IsSquare(m)
    decreases |m|, 1
  {
    if |m| == 1 then m[0][0]
    else if |m| == 2 then m[0][0] * m[1][1] - m[0][1] * m[1][0]
    else CofactorSumAsWritten(m, |m|)
  }

  function CofactorSumAsWritten(m: seq<seq<real>>, k: nat): real
    requires IsSquare(m) && k <= |m|
    decreases |m|, 0, k + 2
  {
    if k == 0 then 0.0
    else CofactorSumAsWritten(m, k - 1) + ExpansionTermAsWritten(m, k - 1)
  }

  function ExpansionTermAsWritten(m: seq<seq<real>>, i: nat): real
    requires IsSquare(m) && i < |m|
    decreases |m|, 0, 1
  {
    if i % 2 == 0 then EntryTimesMinorAsWritten(m, i) else -EntryTimesMinorAsWritten(m, i)
  }

  function EntryTimesMinorAsWritten(m: seq<seq<real>>, i: nat): real
    requires IsSquare(m) && i < |m|
    decreases |m|, 0, 0
  {
    m[0][i] * DetAsWritten(Minor(m, 0, i))
  }

  /** The determinant of a 1 x 1 matrix is its entry. */
  lemma DetOneByOne(m: seq<seq<real>>)
    requires IsMatrix(m, 1, 1)
    ensures Det(m) == m[0][0]
  {
    assert Minor(m, 0, 0) == [];
    calc {
      Det(m);
      CofactorSum(m, 1);
      CofactorSum(m, 0) + ExpansionTerm(m, 0);
      EntryTimesMinor(m, 0);
      m[0][0] * Det([]);
    }
  }

  /** The determinant of a 2 x 2 matrix is ad - bc. */
  lemma DetTwoByTwo(m: seq<seq<real>>)
    requires IsMatrix(m, 2, 2)
    ensures Det(m) == m[0][0] * m[1][1] - m[0][1] * m[1][0]
  {
    var m0, m1 := Minor(m, 0, 0), Minor(m, 0, 1);
    OneByOne(m0, m[1][1]);
    OneByOne(m1, m[1][0]);
    DetOneByOne(m0);
    DetOneByOne(m1);
    assert Det(m0) == m[1][1] && Det(m1) == m[1][0];
    calc {
      Det(m);
      CofactorSum(m, 2);
      CofactorSum(m, 1) + ExpansionTerm(m, 1);
      CofactorSum(m, 0) + ExpansionTerm(m, 0) + ExpansionTerm(m, 1);
      EntryTimesMinor(m, 0) - EntryTimesMinor(m, 1);
      m[0][0] * Det(m0) - m[0][1] * Det(m1);
    }
  }

  /** One more term of the first-row expansion. */
  lemma CofactorSumStep(m: seq<seq<real>>, i: nat)
    requires IsSquare(m) && i < |m|
    ensures CofactorSum(m, i + 1) == CofactorSum(m, i) + ExpansionTerm(m, i)
  {
  }

  /** The term computed from the entry x = m[0][i] and the minor's
      determinant d is term i of the expansion. */
  lemma ExpansionTermIs(m: seq<seq<real>>, i: nat, x: real, d: real, term: real)
    requires IsSquare(m) && i < |m| && x == m[0][i] && d == Det(Minor(m, 0, i))
    requires term == Sign(i) * x * d
    ensures term == ExpansionTerm(m, i)
  {
    SignTimes(i, x, d);
    assert EntryTimesMinor(m, i) == x * d;
  }

  lemma SignTimes(i: nat, x: real, d: real)
    ensures Sign(i) * x * d == if i % 2 == 0 then x * d else -(x * d)
  {
    if i % 2 == 0 {
      assert Sign(i) == 1.0;
    } else {
      assert Sign(i) == -1.0;
    }
  }

  /** On every non-empty matrix the corrected determinant is the source's. */
  lemma {:induction false} DetMatchesAsWritten(m: seq<seq<real>>)
    requires IsSquare(m) && |m| > 0
    ensures Det(m) == DetAsWritten(m)
    decreases |m|
  {
    if |m| == 1 {
      DetOneByOne(m);
    } else if |m| == 2 {
      DetTwoByTwo(m);
    } else {
      forall i | 0 <= i < |m|
        ensures ExpansionTerm(m, i) == ExpansionTermAsWritten(m, i)
      {
        DetMatchesAsWritten(Minor(m, 0, i));
      }
      CofactorSumsAgree(m, |m|);
    }
  }

  /** Expansions whose terms agree have the same partial sums. */
  lemma {:induction false} CofactorSumsAgree(m: seq<seq<real>>, k: nat)
    requires IsSquare(m) && |m| > 0 && k <= |m|
    requires forall i :: 0 <= i < k ==> ExpansionTerm(m, i) == ExpansionTermAsWritten(m, i)
    ensures CofactorSum(m, k) == CofactorSumAsWritten(m, k)
  {
    if k > 0 {
      CofactorSumsAgree(m, k - 1);
    }
  }

  /** Cofactor (i, j): the signed determinant of the minor without row i and
      column j. */
  function Cofactor(m: seq<seq<real>>, i: nat, j: nat): real
    requires IsSquare(m) && i < |m| && j < |m|
  {
    if (i + j) % 2 == 0 then Det(Minor(m, i, j)) else -Det(Minor(m, i, j))
  }

  /** The source's signed form of a cofactor: (+1 or -1) times the minor's
      determinant d. */
  lemma CofactorIs(m: seq<seq<real>>, i: nat, j: nat, d: real)
    requires IsSquare(m) && i < |m| && j < |m| && d == Det(Minor(m, i, j))
    ensures Sign(i + j) * d == Cofactor(m, i, j)
  {
    SignTimes(i + j, 1.0, d);
  }

  /** The matrix of cofactors. */
  function Cofactors(m: seq<seq<real>>): seq<seq<real>>
    requires IsSquare(m)
  {
    var n := |m|;
    seq(n, i requires 0 <= i < n => seq(n, j requires 0 <= j < n => Cofactor(m, i, j)))
  }

  /** The transpose of the matrix of cofactors. */
  function Adjugate(m: seq<seq<real>>): seq<seq<real>>
    requires IsSquare(m)
  {
    assert IsMatrix(Cofactors(m), |m|, |m|);
    Transpose(Cofactors(m), |m|)
  }

  /** The inverse: the adjugate scaled by 1 / det. */
  function Inverse(m: seq<seq<real>>): seq<seq<real>>
    requires IsSquare(m) && Det(m) != 0.0
  {
    Scale(Adjugate(m), 1.0 / Det(m))
  }

  /** `inverse()` as written, with the source's determinant throughout. */
  function InverseAsWritten(m: seq<seq<real>>): seq<seq<real>>
    requires IsSquare(m) && DetAsWritten(m) != 0.0
  {
    var n := |m|;
    var cof := seq(n, i requires 0 <= i < n => seq(n, j requires 0 <= j < n =>
      Sign(i + j) * DetAsWritten(Minor(m, i, j))));
    Scale(Transpose(cof, n), 1.0 / DetAsWritten(m))
  }

  /** As written, the inverse of every invertible 1 x 1 matrix [[a]] is [[0]]:
      its only minor is the empty matrix, whose determinant the source takes
      to be 0. So A * inverse(A) is [[0]], not the identity. */
  lemma InverseAsWrittenOneByOne(a: real)
    requires a != 0.0
    ensures DetAsWritten([[a]]) == a
    ensures InverseAsWritten([[a]]) == [[0.0]]
    ensures Mul([[a]], InverseAsWritten([[a]]), 1) != Identity(1)
  {
    var m := [[a]];
    assert Minor(m, 0, 0) == [];
    assert DetAsWritten([]) == 0.0;
    var inv := InverseAsWritten(m);
    assert inv[0][0] == 0.0;
    OneByOne(inv, 0.0);
    var p := Mul(m, inv, 1);
    assert p[0][0] == V.Dot(m[0], Column(inv, 0));
    assert V.Dot(m[0], Column(inv, 0)) == a * 0.0;
  }

  /** For an invertible 1 x 1 matrix, A * inverse(A) is the identity. */
  lemma InverseOneByOne(m: seq<seq<real>>)
    requires IsMatrix(m, 1, 1) && m[0][0] != 0.0
    ensures Det(m) != 0.0
    ensures Inverse(m) == [[1.0 / m[0][0]]]
    ensures Mul(m, Inverse(m), 1) == Identity(1)
  {
    var a := m[0][0];
    DetOneByOne(m);
    assert Minor(m, 0, 0) == [];
    var inv := Inverse(m);
    assert inv[0][0] == 1.0 * 1.0 * (1.0 / a);
    OneByOne(inv, 1.0 / a);
    var p := Mul(m, inv, 1);
    assert p[0][0] == V.Dot(m[0], Column(inv, 0)) == a * (1.0 / a);
    OneByOne(p, 1.0);
    OneByOne(Identity(1), 1.0);
  }

  /** The adjugate of [[a, b], [c, d]] is [[d, -b], [-c, a]]. */
  lemma AdjugateTwoByTwo(m: seq<seq<real>>)
    requires IsMatrix(m, 2, 2)
    ensures IsMatrix(Adjugate(m), 2, 2)
    ensures Adjugate(m)[0][0] == m[1][1] && Adjugate(m)[0][1] == -m[0][1]
    ensures Adjugate(m)[1][0] == -m[1][0] && Adjugate(m)[1][1] == m[0][0]
  {
    CofactorTwoByTwo(m, 0, 0, m[1][1]);
    CofactorTwoByTwo(m, 0, 1, m[1][0]);
    CofactorTwoByTwo(m, 1, 0, m[0][1]);
    CofactorTwoByTwo(m, 1, 1, m[0][0]);
    var adj := Adjugate(m);
    assert adj[0][0] == Cofactor(m, 0, 0) && adj[0][1] == Cofactor(m, 1, 0);
    assert adj[1][0] == Cofactor(m, 0, 1) && adj[1][1] == Cofactor(m, 1, 1);
  }

  lemma CofactorTwoByTwo(m: seq<seq<real>>, i: nat, j: nat, x: real)
    requires IsMatrix(m, 2, 2) && i < 2 && j < 2 && x == m[1 - i][1 - j]
    ensures Cofactor(m, i, j) == Sign(i + j) * x
  {
    OneByOne(Minor(m, i, j), x);
    DetOneByOne(Minor(m, i, j));
  }

  /** A dot product of two entries each. */
  lemma DotTwo(u: seq<real>, v: seq<real>)
    requires |u| == 2 && |v| == 2
    ensures V.Dot(u, v) == u[0] * v[0] + u[1] * v[1]
  {
    assert V.SumProd(u, v, 0, 1) == u[0] * v[0];
  }

  /** The product of two 2 x 2 matrices, entry by entry. */
  lemma MulTwoByTwo(x: seq<seq<real>>, y: seq<seq<real>>, i: nat, j: nat)
    requires IsMatrix(x, 2, 2) && IsMatrix(y, 2, 2) && i < 2 && j < 2
    ensures IsMatrix(Mul(x, y, 2), 2, 2)
    ensures Mul(x, y, 2)[i][j] == x[i][0] * y[0][j] + x[i][1] * y[1][j]
  {
    var col := Column(y, j);
    assert col[0] == y[0][j] && col[1] == y[1][j];
    DotTwo(x[i], col);
  }

  /** Each entry of the inverse is the adjugate's entry times t = 1 / det. */
  lemma InverseEntry(m: seq<seq<real>>, i: nat, j: nat, t: real)
    requires IsSquare(m) && i < |m| && j < |m| && Det(m) != 0.0 && t == 1.0 / Det(m)
    ensures IsMatrix(Inverse(m), |m|, |m|)
    ensures Inverse(m)[i][j] == Adjugate(m)[i][j] * t
  {
    ScaledAdjugateEntry(m, i, j, t);
  }

  lemma ScaledAdjugateEntry(m: seq<seq<real>>, i: nat, j: nat, s: real)
    requires IsSquare(m) && i < |m| && j < |m|
    ensures IsMatrix(Scale(Adjugate(m), s), |m|, |m|)
    ensures Scale(Adjugate(m), s)[i][j] == Adjugate(m)[i][j] * s
  {
    AdjugateShape(m);
    ScaleEntry(Adjugate(m), s, i, j);
  }

  lemma AdjugateShape(m: seq<seq<real>>)
    requires IsSquare(m)
    ensures IsMatrix(Adjugate(m), |m|, |m|)
  {
    assert IsMatrix(Cofactors(m), |m|, |m|);
  }

  lemma ScaleEntry(m: seq<seq<real>>, s: real, i: nat, j: nat)
    requires i < |m| && j < |m[i]|
    ensures |Scale(m, s)| == |m| && forall k :: 0 <= k < |m| ==> |Scale(m, s)[k]| == |m[k]|
    ensures Scale(m, s)[i][j] == m[i][j] * s
  {
  }

  /** The inverse of [[a, b], [c, d]] is [[d, -b], [-c, a]] / (ad - bc). */
  lemma InverseTwoByTwoEntries(m: seq<seq<real>>, t: real)
    requires IsMatrix(m, 2, 2) && Det(m) != 0.0 && t == 1.0 / Det(m)
    ensures IsMatrix(Inverse(m), 2, 2)
    ensures Inverse(m)[0][0] == m[1][1] * t && Inverse(m)[0][1] == -m[0][1] * t
    ensures Inverse(m)[1][0] == -m[1][0] * t && Inverse(m)[1][1] == m[0][0] * t
  {
    AdjugateTwoByTwo(m);
    InverseEntry(m, 0, 0, t);
    InverseEntry(m, 0, 1, t);
    InverseEntry(m, 1, 0, t);
    InverseEntry(m, 1, 1, t);
  }

  /** For an invertible 2 x 2 matrix, A * inverse(A) is the identity. */
  lemma InverseTwoByTwo(m: seq<seq<real>>)
    requires IsMatrix(m, 2, 2)
    requires m[0][0] * m[1][1] - m[0][1] * m[1][0] != 0.0
    ensures Det(m) != 0.0
    ensures Mul(m, Inverse(m), 2) == Identity(2)
  {
    DetTwoByTwo(m);
    var d := Det(m);
    var t := 1.0 / d;
    ReciprocalProduct(d, t);
    InverseTwoByTwoEntries(m, t);
    TimesTwoByTwoInverse(m, Inverse(m), d, t);
  }

  /** [[a, b], [c, d]] times [[d, -b], [-c, a]] * t is the identity when
      (ad - bc) * t = 1. */
  lemma TimesTwoByTwoInverse(m: seq<seq<real>>, inv: seq<seq<real>>, d: real, t: real)
    requires IsMatrix(m, 2, 2) && IsMatrix(inv, 2, 2)
    requires d == m[0][0] * m[1][1] - m[0][1] * m[1][0] && d * t == 1.0
    requires inv[0][0] == m[1][1] * t && inv[0][1] == -m[0][1] * t
    requires inv[1][0] == -m[1][0] * t && inv[1][1] == m[0][0] * t
    ensures Mul(m, inv, 2) == Identity(2)
  {
    var p := Mul(m, inv, 2);
    InverseTwoByTwoArithmetic(m[0][0], m[0][1], m[1][0], m[1][1], d, t);
    MulTwoByTwo(m, inv, 0, 0);
    MulTwoByTwo(m, inv, 0, 1);
    MulTwoByTwo(m, inv, 1, 0);
    MulTwoByTwo(m, inv, 1, 1);
    assert p[0][0] == 1.0 && p[0][1] == 0.0;
    assert p[1][0] == 0.0 && p[1][1] == 1.0;
    assert p[0] == Identity(2)[0];
    assert p[1] == Identity(2)[1];
  }

  lemma InverseTwoByTwoArithmetic(a: real, b: real, c: real, d: real, det: real, t: real)
    requires det == a * d - b * c && det * t == 1.0
    ensures a * (d * t) + b * (-c * t) == 1.0
    ensures a * (-b * t) + b * (a * t) == 0.0
    ensures c * (d * t) + d * (-c * t) == 0.0
    ensures c * (-b * t) + d * (a * t) == 1.0
  {
  }

  lemma ReciprocalProduct(d: real, t: real)
    requires d != 0.0 && t == 1.0 / d
    ensures d * t == 1.0
  {
  }

  lemma OneByOne(m: seq<seq<real>>, x: real)
    requires |m| == 1 && |m[0]| == 1 && m[0][0] == x
    ensures m == [[x]]
  {
    assert m[0] == [x];
  }
}
