/** The conjugate-gradient iteration of the positive-definite solver, as
    functions over the state it carries from one iteration to the next: the
    specification that the imperative `Solve` is proved against, with the
    invariants the iteration keeps. */
module ConjugateGradient {
  import opened MatrixMath
  import V = VectorMath

  /** The residual tolerance, 1e-10. */
  const Tol: real := 0.0000000001

  /** The iterate x, the residual r, the search direction p, the squared
      residual length rs that the next step divides by, and whether the
      early exit has been taken. */
  datatype State = State(x: seq<real>, r: seq<real>, p: seq<real>, rs: real, done: bool)

  /** vᵗ M v is positive for every nonzero v. The solver needs this and does
      not check it. */
  ghost predicate PositiveDefinite(m: seq<seq<real>>, n: nat)
    requires IsMatrix(m, n, n)
  {
    forall v: seq<real> {:trigger V.Dot(v, MulVec(m, v))} :: |v| == n && v != V.Zeros(n) ==> V.Dot(v, MulVec(m, v)) > 0.0
  }

  /** What holds of every state the iteration reaches: r is the true
      residual b - M x; while running, rᵗp equals rs and rs is positive; once
      stopped, the squared residual is below Tol². */
  ghost predicate Invariant(m: seq<seq<real>>, b: seq<real>, n: nat, s: State) {
    && IsMatrix(m, n, n) && |b| == n
    && |s.x| == n && |s.r| == n && |s.p| == n
    && s.r == V.Sub(b, MulVec(m, s.x))
    && (!s.done ==> V.Dot(s.r, s.p) == s.rs)
    && (!s.done && n > 0 ==> s.rs > 0.0)
    && (s.done ==> V.Dot(s.r, s.r) < Tol * Tol)
  }

  /** The part of the invariant that makes the next step defined. */
  ghost predicate Runnable(n: nat, s: State) {
    && |s.x| == n && |s.r| == n && |s.p| == n
    && (!s.done ==> V.Dot(s.r, s.p) == s.rs)
    && (!s.done && n > 0 ==> s.rs > 0.0)
  }

  /** The start: x = 0, r = b - M x, p = r, rs = rᵗr. */
  function Start(m: seq<seq<real>>, b: seq<real>, n: nat): (s: State)
    requires IsMatrix(m, n, n) && |b| == n
    ensures !s.done && s.x == V.Zeros(n)
  {
    var x := V.Zeros(n);
    var r := V.Sub(b, MulVec(m, x));
    State(x, r, r, V.Dot(r, r), false)
  }

  /** The direction p of a running state is never the zero vector, so the
      curvature pᵗ M p that the step divides by is positive. */
  lemma CurvaturePositive(m: seq<seq<real>>, n: nat, s: State)
    requires IsMatrix(m, n, n) && Runnable(n, s) && !s.done && n > 0 && PositiveDefinite(m, n)
    ensures V.Dot(s.p, MulVec(m, s.p)) > 0.0
  {
    if s.p == V.Zeros(n) {
      V.DotZerosRight(s.r);
      assert false;
    }
  }

  /** One iteration: alpha = rs / pᵗMp, x += alpha p, r -= alpha Mp; stop if
      the new squared residual is below Tol², else p = r + beta p with
      beta = rs' / rs. */
  function Step(m: seq<seq<real>>, n: nat, s: State): (t: State)
    requires IsMatrix(m, n, n) && Runnable(n, s) && !s.done && n > 0 && PositiveDefinite(m, n)
    ensures Runnable(n, t)
  {
    CurvaturePositive(m, n, s);
    var ap := MulVec(m, s.p);
    var alpha := s.rs / V.Dot(s.p, ap);
    var x := V.Add(s.x, V.Scale(s.p, alpha));
    var r := V.Sub(s.r, V.Scale(ap, alpha));
    var rsNew := V.Dot(r, r);
    if rsNew < Tol * Tol then State(x, r, s.p, s.rs, true)
    else
      var p := V.Add(r, V.Scale(s.p, rsNew / s.rs));
      StepOrthogonal(m, n, s.r, s.p, s.rs);
      V.DotLinearRight(r, p, r, s.p, rsNew / s.rs);
      State(x, r, p, rsNew, false)
  }

  /** The start state keeps the invariant when b is nonzero (or empty). */
  lemma StartInvariant(m: seq<seq<real>>, b: seq<real>, n: nat)
    requires IsMatrix(m, n, n) && |b| == n && (n == 0 || b != V.Zeros(n))
    ensures Invariant(m, b, n, Start(m, b, n))
  {
    var s := Start(m, b, n);
    assert MulVec(m, V.Zeros(n)) == V.Zeros(n) by {
      forall i | 0 <= i < n
        ensures MulVec(m, V.Zeros(n))[i] == 0.0
      {
        V.DotZerosRight(m[i]);
      }
    }
    V.SubZeros(b);
    V.DotSelf(b);
  }

  /** Moving x by alpha p and r by alpha Mp keeps r the residual of x. */
  lemma StepResidual(m: seq<seq<real>>, b: seq<real>, n: nat, x: seq<real>, p: seq<real>, alpha: real)
    requires IsMatrix(m, n, n) && |b| == n && |x| == n && |p| == n
    ensures V.Sub(V.Sub(b, MulVec(m, x)), V.Scale(MulVec(m, p), alpha))
         == V.Sub(b, MulVec(m, V.Add(x, V.Scale(p, alpha))))
  {
    var x' := V.Add(x, V.Scale(p, alpha));
    var lhs := V.Sub(V.Sub(b, MulVec(m, x)), V.Scale(MulVec(m, p), alpha));
    var rhs := V.Sub(b, MulVec(m, x'));
    forall i | 0 <= i < n
      ensures lhs[i] == rhs[i]
    {
      V.DotLinearRight(m[i], x', x, p, alpha);
    }
  }

  /** The new residual is orthogonal to the old direction. */
  lemma StepOrthogonal(m: seq<seq<real>>, n: nat, r: seq<real>, p: seq<real>, rs: real)
    requires IsMatrix(m, n, n) && |r| == n && |p| == n
    requires V.Dot(r, p) == rs && V.Dot(p, MulVec(m, p)) != 0.0
    ensures var ap := MulVec(m, p);
      V.Dot(V.Sub(r, V.Scale(ap, rs / V.Dot(p, ap))), p) == 0.0
  {
    var ap := MulVec(m, p);
    var d := V.Dot(p, ap);
    var alpha := rs / d;
    var r' := V.Sub(r, V.Scale(ap, alpha));
    V.DotLinear(r', r, ap, -alpha, p);
    V.DotSymmetric(ap, p);
    V.CancelFactor(rs, d);
  }

  /** A step from a running state keeps the invariant. */
  lemma StepInvariant(m: seq<seq<real>>, b: seq<real>, n: nat, s: State)
    requires Invariant(m, b, n, s) && !s.done && n > 0 && PositiveDefinite(m, n)
    ensures Invariant(m, b, n, Step(m, n, s))
  {
    CurvaturePositive(m, n, s);
    var t := Step(m, n, s);
    var ap := MulVec(m, s.p);
    var alpha := s.rs / V.Dot(s.p, ap);
    StepResidual(m, b, n, s.x, s.p, alpha);
  }

  /** The state after k iterations of the loop, which stops early once the
      squared residual drops below Tol². */
  function Iterate(m: seq<seq<real>>, b: seq<real>, n: nat, k: nat): (s: State)
    requires IsMatrix(m, n, n) && |b| == n && PositiveDefinite(m, n)
    requires (n == 0 || b != V.Zeros(n)) && k <= 2 * n
    ensures Runnable(n, s)
    decreases k
  {
    if k == 0 then
      StartInvariant(m, b, n);
      Start(m, b, n)
    else
      Advance(m, n, Iterate(m, b, n, k - 1))
  }

  /** One pass of the loop body: a stopped state stays as it is. */
  function Advance(m: seq<seq<real>>, n: nat, s: State): (t: State)
    requires IsMatrix(m, n, n) && Runnable(n, s) && PositiveDefinite(m, n)
    requires !s.done ==> n > 0
    ensures Runnable(n, t)
  {
    if s.done then s else Step(m, n, s)
  }

  /** A running iterate advances by one step. */
  lemma IterateNext(m: seq<seq<real>>, b: seq<real>, n: nat, k: nat)
    requires IsMatrix(m, n, n) && |b| == n && PositiveDefinite(m, n)
    requires (n == 0 || b != V.Zeros(n)) && k < 2 * n && !Iterate(m, b, n, k).done
    ensures Iterate(m, b, n, k + 1) == Step(m, n, Iterate(m, b, n, k))
  {
  }

  /** Every iterate keeps the invariant: its residual is the true residual,
      and it stopped only on a squared residual below Tol². */
  lemma {:induction false} IterateInvariant(m: seq<seq<real>>, b: seq<real>, n: nat, k: nat)
    requires IsMatrix(m, n, n) && |b| == n && PositiveDefinite(m, n)
    requires (n == 0 || b != V.Zeros(n)) && k <= 2 * n
    ensures Invariant(m, b, n, Iterate(m, b, n, k))
  {
    if k == 0 {
      StartInvariant(m, b, n);
    } else {
      IterateInvariant(m, b, n, k - 1);
      var s := Iterate(m, b, n, k - 1);
      if !s.done {
        StepInvariant(m, b, n, s);
      }
    }
  }

  /** The solver's answer: the iterate after at most 2n iterations. */
  function Solution(m: seq<seq<real>>, b: seq<real>, n: nat): (x: seq<real>)
    requires IsMatrix(m, n, n) && |b| == n && PositiveDefinite(m, n)
    requires n == 0 || b != V.Zeros(n)
    ensures |x| == n
  {
    Iterate(m, b, n, 2 * n).x
  }

  /** Once stopped, the iteration stays where it is. */
  lemma {:induction false} DoneStable(m: seq<seq<real>>, b: seq<real>, n: nat, k: nat, l: nat)
    requires IsMatrix(m, n, n) && |b| == n && PositiveDefinite(m, n)
    requires (n == 0 || b != V.Zeros(n)) && k <= l <= 2 * n
    requires Iterate(m, b, n, k).done
    ensures Iterate(m, b, n, l) == Iterate(m, b, n, k)
    decreases l
  {
    if l > k {
      DoneStable(m, b, n, k, l - 1);
    }
  }

  /** The answer is the iterate at which the loop stopped, or the last one. */
  lemma SolutionAt(m: seq<seq<real>>, b: seq<real>, n: nat, k: nat)
    requires IsMatrix(m, n, n) && |b| == n && PositiveDefinite(m, n)
    requires (n == 0 || b != V.Zeros(n)) && k <= 2 * n
    requires Iterate(m, b, n, k).done || k == 2 * n
    ensures Solution(m, b, n) == Iterate(m, b, n, k).x
  {
    if k < 2 * n {
      DoneStable(m, b, n, k, 2 * n);
    }
  }

  /** The answer either has a squared residual below Tol², or no earlier
      iterate stopped and the loop ran all 2n iterations. */
  lemma SolutionResidual(m: seq<seq<real>>, b: seq<real>, n: nat)
    requires IsMatrix(m, n, n) && |b| == n && PositiveDefinite(m, n)
    requires n == 0 || b != V.Zeros(n)
    ensures var x := Solution(m, b, n);
      var r := V.Sub(b, MulVec(m, x));
      V.Dot(r, r) < Tol * Tol || forall k :: 0 <= k <= 2 * n ==> !Iterate(m, b, n, k).done
  {
    var s := Iterate(m, b, n, 2 * n);
    IterateInvariant(m, b, n, 2 * n);
    if !s.done {
      forall k | 0 <= k <= 2 * n
        ensures !Iterate(m, b, n, k).done
      {
        if Iterate(m, b, n, k).done {
          DoneStable(m, b, n, k, 2 * n);
        }
      }
    }
  }
}
