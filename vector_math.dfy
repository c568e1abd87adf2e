/** The mathematics of real vectors, as sequences: the specification that the
    Vector class is proved against. */
module VectorMath {

  /** n zero entries. */
  function Zeros(n: nat): seq<real> {
    seq(n, _ => 0.0)
  }

  function Neg(u: seq<real>): seq<real> {
    seq(|u|, i requires 0 <= i < |u| => -u[i])
  }

  function Add(u: seq<real>, v: seq<real>): seq<real>
    requires |u| == |v|
  {
    seq(|u|, i requires 0 <= i < |u| => u[i] + v[i])
  }

  function Sub(u: seq<real>, v: seq<real>): seq<real>
    requires |u| == |v|
  {
    seq(|u|, i requires 0 <= i < |u| => u[i] - v[i])
  }

  function Scale(u: seq<real>, s: real): seq<real> {
    seq(|u|, i requires 0 <= i < |u| => u[i] * s)
  }

  /** u[lo]*v[lo] + ... + u[hi-1]*v[hi-1], accumulated from lo upwards. */
  function SumProd(u: seq<real>, v: seq<real>, lo: nat, hi: nat): real
    requires lo <= hi <= |u| && hi <= |v|
    decreases hi - lo
  {
    if hi == lo then 0.0 else SumProd(u, v, lo, hi - 1) + u[hi - 1] * v[hi - 1]
  }

  /** The dot product: the sum of the entrywise products. */
  function Dot(u: seq<real>, v: seq<real>): real
    requires |u| == |v|
  {
    SumProd(u, v, 0, |u|)
  }

  /** Subtracting what was added gives back the original vector. */
  lemma AddSubCancel(u: seq<real>, v: seq<real>)
    requires |u| == |v|
    ensures Sub(Add(u, v), v) == u
  {
    assert forall i :: 0 <= i < |u| ==> Sub(Add(u, v), v)[i] == u[i];
  }

  /** Negation is an involution. */
  lemma NegNeg(u: seq<real>)
    ensures Neg(Neg(u)) == u
  {
    assert forall i :: 0 <= i < |u| ==> Neg(Neg(u))[i] == u[i];
  }

  lemma {:induction false} SumProdSymmetric(u: seq<real>, v: seq<real>, lo: nat, hi: nat)
    requires lo <= hi <= |u| && hi <= |v|
    ensures SumProd(u, v, lo, hi) == SumProd(v, u, lo, hi)
    decreases hi - lo
  {
    if hi > lo {
      SumProdSymmetric(u, v, lo, hi - 1);
    }
  }

  /** The dot product is symmetric in its operands. */
  lemma DotSymmetric(u: seq<real>, v: seq<real>)
    requires |u| == |v|
    ensures Dot(u, v) == Dot(v, u)
  {
    SumProdSymmetric(u, v, 0, |u|);
  }

  /** A sum over [lo, hi) splits at any mid point. */
  lemma {:induction false} SumProdSplit(u: seq<real>, v: seq<real>, lo: nat, mid: nat, hi: nat)
    requires lo <= mid <= hi <= |u| && hi <= |v|
    ensures SumProd(u, v, lo, hi) == SumProd(u, v, lo, mid) + SumProd(u, v, mid, hi)
    decreases hi - mid
  {
    if hi > mid {
      SumProdSplit(u, v, lo, mid, hi - 1);
    }
  }

  /** A sum over a range where the left operand is zero vanishes. */
  lemma {:induction false} SumProdZero(u: seq<real>, v: seq<real>, lo: nat, hi: nat)
    requires lo <= hi <= |u| && hi <= |v|
    requires forall j :: lo <= j < hi ==> u[j] == 0.0
    ensures SumProd(u, v, lo, hi) == 0.0
    decreases hi - lo
  {
    if hi > lo {
      SumProdZero(u, v, lo, hi - 1);
    }
  }

  /** Sums over a range depend only on the entries in that range. */
  lemma {:induction false} SumProdCongruent(u: seq<real>, v: seq<real>, u': seq<real>, v': seq<real>, lo: nat, hi: nat)
    requires lo <= hi <= |u| && hi <= |v| && hi <= |u'| && hi <= |v'|
    requires forall j :: lo <= j < hi ==> u[j] == u'[j] && v[j] == v'[j]
    ensures SumProd(u, v, lo, hi) == SumProd(u', v', lo, hi)
    decreases hi - lo
  {
    if hi > lo {
      SumProdCongruent(u, v, u', v', lo, hi - 1);
    }
  }

  /** Linearity in the left operand: w = u + f*z entrywise gives
      sum(w.x) = sum(u.x) + f*sum(z.x). */
  lemma {:induction false} SumProdLinear(w: seq<real>, u: seq<real>, z: seq<real>, f: real, x: seq<real>, lo: nat, hi: nat)
    requires lo <= hi <= |w| && hi <= |u| && hi <= |z| && hi <= |x|
    requires forall j :: lo <= j < hi ==> w[j] == u[j] + f * z[j]
    ensures SumProd(w, x, lo, hi) == SumProd(u, x, lo, hi) + f * SumProd(z, x, lo, hi)
    decreases hi - lo
  {
    if hi > lo {
      SumProdLinear(w, u, z, f, x, lo, hi - 1);
      assert w[hi - 1] * x[hi - 1] == u[hi - 1] * x[hi - 1] + f * (z[hi - 1] * x[hi - 1]);
    }
  }

  /** The dot product is linear in its left operand. */
  lemma DotLinear(w: seq<real>, u: seq<real>, z: seq<real>, f: real, x: seq<real>)
    requires |w| == |u| == |z| == |x|
    requires forall j :: 0 <= j < |w| ==> w[j] == u[j] + f * z[j]
    ensures Dot(w, x) == Dot(u, x) + f * Dot(z, x)
  {
    SumProdLinear(w, u, z, f, x, 0, |w|);
  }

  /** The dot product is linear in its right operand. */
  lemma DotLinearRight(x: seq<real>, w: seq<real>, u: seq<real>, z: seq<real>, f: real)
    requires |w| == |u| == |z| == |x|
    requires forall j :: 0 <= j < |w| ==> w[j] == u[j] + f * z[j]
    ensures Dot(x, w) == Dot(x, u) + f * Dot(x, z)
  {
    DotSymmetric(x, w);
    DotSymmetric(x, u);
    DotSymmetric(x, z);
    DotLinear(w, u, z, f, x);
  }

  /** Scaling a vector scales its dot product with any other. */
  lemma DotScale(u: seq<real>, s: real, x: seq<real>)
    requires |u| == |x|
    ensures Dot(Scale(u, s), x) == s * Dot(u, x)
  {
    DotLinear(Scale(u, s), Zeros(|u|), u, s, x);
    SumProdZero(Zeros(|u|), x, 0, |u|);
  }

  /** A dot product of a vector with itself is zero only for the zero vector. */
  lemma {:induction false} SumProdSelfNonNegative(u: seq<real>, lo: nat, hi: nat)
    requires lo <= hi <= |u|
    ensures SumProd(u, u, lo, hi) >= 0.0
    decreases hi - lo
  {
    if hi > lo {
      SumProdSelfNonNegative(u, lo, hi - 1);
      AddSquare(SumProd(u, u, lo, hi - 1), u[hi - 1]);
    }
  }

  /** One nonzero entry in the range makes the sum of squares positive. */
  lemma SumProdSelfPositive(u: seq<real>, lo: nat, hi: nat, k: nat)
    requires lo <= k < hi <= |u| && u[k] != 0.0
    ensures SumProd(u, u, lo, hi) > 0.0
  {
    SumProdSplit(u, u, lo, k, hi);
    SumProdSplit(u, u, k, k + 1, hi);
    SumProdSelfNonNegative(u, lo, k);
    SumProdSelfNonNegative(u, k + 1, hi);
    assert SumProd(u, u, k, k + 1) > 0.0 by {
      AddSquare(SumProd(u, u, k, k), u[k]);
    }
  }

  /** Subtracting x / d times d from x leaves nothing: the cancellation that
      both elimination and conjugate gradient rely on. */
  lemma CancelFactor(x: real, d: real)
    requires d != 0.0
    ensures x - x / d * d == 0.0
  {
  }

  /** Adding a square to a non-negative value keeps it non-negative, and
      adding a nonzero square makes it positive. */
  lemma AddSquare(a: real, x: real)
    requires a >= 0.0
    ensures a + x * x >= 0.0
    ensures x != 0.0 ==> a + x * x > 0.0
  {
    if x > 0.0 {
      AddProduct(a, x, x);
    } else if x < 0.0 {
      AddProduct(a, -x, -x);
      assert (-x) * (-x) == x * x;
    }
  }

  // stated for two factors: the solver handles a product of distinct terms
  // more reliably than a square
  lemma AddProduct(a: real, x: real, y: real)
    requires a >= 0.0 && x > 0.0 && y > 0.0
    ensures a + x * y > 0.0
  {
  }

  /** The squared length of a vector is non-negative, and zero exactly for
      the zero vector. */
  lemma DotSelf(u: seq<real>)
    ensures Dot(u, u) >= 0.0
    ensures u != Zeros(|u|) ==> Dot(u, u) > 0.0
    ensures u == Zeros(|u|) ==> Dot(u, u) == 0.0
  {
    SumProdSelfNonNegative(u, 0, |u|);
    if u == Zeros(|u|) {
      SumProdZero(u, u, 0, |u|);
    } else {
      var k :| 0 <= k < |u| && u[k] != Zeros(|u|)[k];
      SumProdSelfPositive(u, 0, |u|, k);
    }
  }

  /** The dot product with the zero vector vanishes. */
  lemma DotZerosRight(u: seq<real>)
    ensures Dot(u, Zeros(|u|)) == 0.0
  {
    SumProdSymmetric(u, Zeros(|u|), 0, |u|);
    SumProdZero(Zeros(|u|), u, 0, |u|);
  }

  /** Subtracting the zero vector changes nothing. */
  lemma SubZeros(u: seq<real>)
    ensures Sub(u, Zeros(|u|)) == u
  {
  }
}
