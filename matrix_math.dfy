/** The mathematics of real matrices, as sequences of rows: the specification
    that the Matrix class is proved against. A matrix with no rows does not
    record its column count, so the functions that build a new shape take the
    column count as a parameter. */
module MatrixMath {
  import V = VectorMath

  /** m has r rows of c entries each. */
  ghost predicate IsMatrix(m: seq<seq<real>>, r: nat, c: nat) {
    |m| == r && forall i :: 0 <= i < r ==> |m[i]| == c
  }

  /** m is n x n for n = |m|. */
  ghost predicate IsSquare(m: seq<seq<real>>) {
    IsMatrix(m, |m|, |m|)
  }

  /** The r x c matrix of zeros. */
  function Zero(r: nat, c: nat): seq<seq<real>> {
    seq(r, _ => V.Zeros(c))
  }

  /** The n x n identity. */
  function Identity(n: nat): seq<seq<real>> {
    seq(n, i => seq(n, j => if i == j then 1.0 else 0.0))
  }

  function Neg(m: seq<seq<real>>): seq<seq<real>> {
    seq(|m|, i requires 0 <= i < |m| => V.Neg(m[i]))
  }

  /** Entrywise sum over the shape of a; b must cover every entry of a. */
  function Add(a: seq<seq<real>>, b: seq<seq<real>>): seq<seq<real>>
    requires forall i :: 0 <= i < |a| && 0 < |a[i]| ==> i < |b| && |a[i]| <= |b[i]|
  {
    seq(|a|, i requires 0 <= i < |a| => seq(|a[i]|, j requires 0 <= j < |a[i]| => a[i][j] + b[i][j]))
  }

  /** Entrywise difference over the shape of a; b must cover every entry of a. */
  function Sub(a: seq<seq<real>>, b: seq<seq<real>>): seq<seq<real>>
    requires forall i :: 0 <= i < |a| && 0 < |a[i]| ==> i < |b| && |a[i]| <= |b[i]|
  {
    seq(|a|, i requires 0 <= i < |a| => seq(|a[i]|, j requires 0 <= j < |a[i]| => a[i][j] - b[i][j]))
  }

  function Scale(m: seq<seq<real>>, s: real): seq<seq<real>> {
    seq(|m|, i requires 0 <= i < |m| => V.Scale(m[i], s))
  }

  /** Column j of m. */
  function Column(m: seq<seq<real>>, j: nat): seq<real>
    requires forall i :: 0 <= i < |m| ==> j < |m[i]|
  {
    seq(|m|, i requires 0 <= i < |m| => m[i][j])
  }

  /** The product of a (r x k) and b (k x c): entry (i, j) is the dot
      product of row i of a with column j of b. */
  function Mul(a: seq<seq<real>>, b: seq<seq<real>>, c: nat): seq<seq<real>>
    requires IsMatrix(b, |b|, c) && forall i :: 0 <= i < |a| ==> |a[i]| == |b|
  {
    seq(|a|, i requires 0 <= i < |a| => seq(c, j requires 0 <= j < c => V.Dot(a[i], Column(b, j))))
  }

  /** The product of a matrix with a column vector. */
  function MulVec(a: seq<seq<real>>, v: seq<real>): seq<real>
    requires forall i :: 0 <= i < |a| ==> |a[i]| == |v|
  {
    seq(|a|, i requires 0 <= i < |a| => V.Dot(a[i], v))
  }

  /** The c x r transpose of an r x c matrix. */
  function Transpose(m: seq<seq<real>>, c: nat): seq<seq<real>>
    requires IsMatrix(m, |m|, c)
  {
    seq(c, j requires 0 <= j < c => Column(m, j))
  }

  /** m with rows i and j exchanged. */
  function SwapRows<T>(m: seq<T>, i: nat, j: nat): seq<T>
    requires i < |m| && j < |m|
  {
    m[i := m[j]][j := m[i]]
  }

  /** m without row `row` and column `col`, the remaining entries in order. */
  function Minor(m: seq<seq<real>>, row: nat, col: nat): seq<seq<real>>
    requires row < |m| && IsMatrix(m, |m|, |m[0]|) && col < |m[0]|
  {
    var rest := m[..row] + m[row + 1..];
    seq(|rest|, i requires 0 <= i < |rest| && col < |rest[i]| => rest[i][..col] + rest[i][col + 1..])
  }

  /** Entry (k, l) of a minor is the entry of m past the dropped row and
      column. */
  lemma MinorEntries(m: seq<seq<real>>, r: nat, c: nat, row: nat, col: nat)
    requires IsMatrix(m, r, c) && row < r && col < c
    ensures IsMatrix(Minor(m, row, col), r - 1, c - 1)
    ensures forall k, l :: 0 <= k < r - 1 && 0 <= l < c - 1 ==>
      Minor(m, row, col)[k][l] == m[if k < row then k else k + 1][if l < col then l else l + 1]
  {
  }

  /** +1 for even k, -1 for odd k. */
  function Sign(k: nat): real {
    if k % 2 == 0 then 1.0 else -1.0
  }

  /** Transposing twice gives back the original. */
  lemma TransposeTwice(m: seq<seq<real>>, r: nat, c: nat)
    requires IsMatrix(m, r, c)
    ensures IsMatrix(Transpose(m, c), c, r)
    ensures Transpose(Transpose(m, c), r) == m
  {
    var t := Transpose(m, c);
    assert forall i :: 0 <= i < r ==> Transpose(t, r)[i] == m[i] by {
      forall i | 0 <= i < r
        ensures Transpose(t, r)[i] == m[i]
      {
        assert forall j :: 0 <= j < c ==> Transpose(t, r)[i][j] == m[i][j];
      }
    }
  }

  /** Exchanging the same two rows twice gives back the original, and no
      other row is touched. */
  lemma SwapRowsTwice<T>(m: seq<T>, i: nat, j: nat)
    requires i < |m| && j < |m|
    ensures SwapRows(SwapRows(m, i, j), i, j) == m
    ensures SwapRows(m, i, j)[i] == m[j] && SwapRows(m, i, j)[j] == m[i]
    ensures forall k :: 0 <= k < |m| && k != i && k != j ==> SwapRows(m, i, j)[k] == m[k]
  {
  }

  /** Adding then subtracting the same matrix gives back the original. */
  lemma AddSubCancel(a: seq<seq<real>>, b: seq<seq<real>>, r: nat, c: nat)
    requires IsMatrix(a, r, c) && IsMatrix(b, r, c)
    ensures Sub(Add(a, b), b) == a
  {
    assert forall i :: 0 <= i < r ==> Sub(Add(a, b), b)[i] == a[i] by {
      forall i | 0 <= i < r
        ensures Sub(Add(a, b), b)[i] == a[i]
      {
        assert forall j :: 0 <= j < c ==> Sub(Add(a, b), b)[i][j] == a[i][j];
      }
    }
  }
}
