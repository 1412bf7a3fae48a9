/**
 * Exact polynomials in the power (monomial) basis: a univariate polynomial is its
 * coefficient sequence b, b[k] multiplying t^k; a bivariate one is a matrix M whose row m
 * holds the coefficients of x^m y^l, l = 0, 1, ...
 *
 * This is the arithmetic behind BLRCanalSurface::initGlobalSelfIntersectionData: the
 * matrix F of the divided difference (B(x) - B(y)) / (x - y) of a polynomial B, filled by
 * a triple loop of += over a zeroed n x n matrix.
 */
module PowerPoly {

  /**
   * Value at t of the part of b from coefficient k on, shifted down to degree 0:
   * b[k] + b[k + 1] t + b[k + 2] t^2 + ... (Horner's scheme).
   */
  function EvalFrom(b: seq<real>, k: nat, t: real): real
    decreases |b| - k
  {
    if k < |b| then b[k] + t * EvalFrom(b, k + 1, t) else 0.0
  }

  /** Value at (x, y) of rows m, m + 1, ... of a bivariate polynomial, row m' weighted by x^(m' - m). */
  function Eval2From(rows: seq<seq<real>>, m: nat, x: real, y: real): real
    decreases |rows| - m
  {
    if m < |rows| then EvalFrom(rows[m], 0, y) + x * Eval2From(rows, m + 1, x, y) else 0.0
  }

  /** Coefficient k of b, zero past its end. */
  function Coeff(b: seq<real>, k: nat): real {
    if k < |b| then b[k] else 0.0
  }

  /** Coefficientwise a - b, as long as the longer of the two. */
  function Sub(a: seq<real>, b: seq<real>): (r: seq<real>)
    ensures |r| == if |a| < |b| then |b| else |a|
  {
    var w := if |a| < |b| then |b| else |a|;
    seq(w, k requires 0 <= k < w => Coeff(a, k) - Coeff(b, k))
  }

  /** Coefficientwise a + b, as long as the longer of the two. */
  function Add(a: seq<real>, b: seq<real>): (r: seq<real>)
    ensures |r| == if |a| < |b| then |b| else |a|
  {
    var w := if |a| < |b| then |b| else |a|;
    seq(w, k requires 0 <= k < w => Coeff(a, k) + Coeff(b, k))
  }

  /** s * b, coefficientwise. */
  function Scale(s: real, b: seq<real>): (r: seq<real>)
    ensures |r| == |b|
  {
    seq(|b|, k requires 0 <= k < |b| => s * b[k])
  }

  /**
   * (p[i] + p[i + 1] t + ...) * q, by the schoolbook rule: p[i] q plus t times the rest.
   * It stands for the polynomial engine's multiply, of which only the degree matters here.
   */
  function MulFrom(p: seq<real>, q: seq<real>, i: nat): (r: seq<real>)
    ensures i < |p| && |q| >= 1 ==> |r| == |p| - i + |q| - 1
    decreases |p| - i
  {
    if i < |p| then Add(Scale(p[i], q), [0.0] + MulFrom(p, q, i + 1)) else []
  }

  /** The product of two polynomials. */
  function Mul(p: seq<real>, q: seq<real>): (r: seq<real>)
    ensures |p| >= 1 && |q| >= 1 ==> |r| == |p| + |q| - 1
  {
    MulFrom(p, q, 0)
  }

  // ---------------------------------------------------------------------------------
  // Evaluation is a ring homomorphism
  // ---------------------------------------------------------------------------------

  /** One step of Horner's scheme, past the end of b included. */
  lemma EvalFromStep(b: seq<real>, k: nat, t: real)
    ensures EvalFrom(b, k, t) == Coeff(b, k) + t * EvalFrom(b, k + 1, t)
  {
  }

  /** Row m of a bivariate polynomial plus x times the rows after it, over value parameters. */
  lemma Eval2Step(rows: seq<seq<real>>, m: nat, x: real, y: real, whole: real, row: real, rest: real)
    requires m < |rows| && whole == Eval2From(rows, m, x, y) && row == EvalFrom(rows[m], 0, y)
    requires rest == Eval2From(rows, m + 1, x, y)
    ensures whole == row + x * rest
  {
  }

  /** Horner's first step, over value parameters: b(t) == b[0] + t * (b[1] + b[2] t + ...). */
  lemma EvalHead(b: seq<real>, t: real, value: real, b0: real, rest: real)
    requires |b| >= 1 && value == EvalFrom(b, 0, t) && b0 == b[0] && rest == EvalFrom(b, 1, t)
    ensures value == b0 + t * rest
  {
  }

  /** Evaluation from k on of a + b, b and r = a + b, knowing it from k + 1 on. */
  lemma AddStepFrom(a: seq<real>, b: seq<real>, r: seq<real>, k: nat, t: real)
    requires k < |r| && r[k] == Coeff(a, k) + Coeff(b, k)
    requires EvalFrom(r, k + 1, t) == EvalFrom(a, k + 1, t) + EvalFrom(b, k + 1, t)
    ensures EvalFrom(r, k, t) == EvalFrom(a, k, t) + EvalFrom(b, k, t)
  {
    EvalFromStep(a, k, t);
    EvalFromStep(b, k, t);
    SumStep(t, EvalFrom(r, k, t), r[k], EvalFrom(r, k + 1, t), EvalFrom(a, k, t), Coeff(a, k),
      EvalFrom(a, k + 1, t), EvalFrom(b, k, t), Coeff(b, k), EvalFrom(b, k + 1, t));
  }

  lemma SubStepFrom(a: seq<real>, b: seq<real>, r: seq<real>, k: nat, t: real)
    requires k < |r| && r[k] == Coeff(a, k) - Coeff(b, k)
    requires EvalFrom(r, k + 1, t) == EvalFrom(a, k + 1, t) - EvalFrom(b, k + 1, t)
    ensures EvalFrom(r, k, t) == EvalFrom(a, k, t) - EvalFrom(b, k, t)
  {
    EvalFromStep(a, k, t);
    EvalFromStep(b, k, t);
    DifferenceStep(t, EvalFrom(r, k, t), r[k], EvalFrom(r, k + 1, t), EvalFrom(a, k, t), Coeff(a, k),
      EvalFrom(a, k + 1, t), EvalFrom(b, k, t), Coeff(b, k), EvalFrom(b, k + 1, t));
  }

  lemma ScaleStepFrom(s: real, b: seq<real>, r: seq<real>, k: nat, t: real)
    requires k < |b| && k < |r| && r[k] == s * b[k]
    requires EvalFrom(r, k + 1, t) == s * EvalFrom(b, k + 1, t)
    ensures EvalFrom(r, k, t) == s * EvalFrom(b, k, t)
  {
    ScaleStep(s, t, EvalFrom(r, k, t), r[k], EvalFrom(r, k + 1, t), EvalFrom(b, k, t), b[k],
      EvalFrom(b, k + 1, t));
  }

  /** Evaluation is additive: the value of a + b is the value of a plus the value of b. */
  lemma {:induction false} EvalAdd(a: seq<real>, b: seq<real>, k: nat, t: real)
    ensures EvalFrom(Add(a, b), k, t) == EvalFrom(a, k, t) + EvalFrom(b, k, t)
    decreases (if |a| < |b| then |b| else |a|) - k
  {
    if k < |Add(a, b)| {
      EvalAdd(a, b, k + 1, t);
      AddStepFrom(a, b, Add(a, b), k, t);
    }
  }

  lemma {:induction false} EvalSub(a: seq<real>, b: seq<real>, k: nat, t: real)
    ensures EvalFrom(Sub(a, b), k, t) == EvalFrom(a, k, t) - EvalFrom(b, k, t)
    decreases (if |a| < |b| then |b| else |a|) - k
  {
    if k < |Sub(a, b)| {
      EvalSub(a, b, k + 1, t);
      SubStepFrom(a, b, Sub(a, b), k, t);
    }
  }

  lemma {:induction false} EvalScale(s: real, b: seq<real>, k: nat, t: real)
    ensures EvalFrom(Scale(s, b), k, t) == s * EvalFrom(b, k, t)
    decreases |b| - k
  {
    if k < |b| {
      EvalScale(s, b, k + 1, t);
      ScaleStepFrom(s, b, Scale(s, b), k, t);
    }
  }

  /** Prepending a zero coefficient shifts the tail: [0] + b read from k + 1 on is b read from k on. */
  lemma {:induction false} EvalShiftFrom(b: seq<real>, k: nat, t: real)
    ensures EvalFrom([0.0] + b, k + 1, t) == EvalFrom(b, k, t)
    decreases |b| - k
  {
    if k < |b| {
      EvalShiftFrom(b, k + 1, t);
      assert ([0.0] + b)[k + 1] == b[k];
    }
  }

  /** Prepending a zero coefficient multiplies the value by t; r and v are the two values. */
  lemma ShiftValue(b: seq<real>, t: real, r: real, v: real)
    requires r == EvalFrom([0.0] + b, 0, t) && v == EvalFrom(b, 0, t)
    ensures r == t * v
  {
    EvalShiftFrom(b, 0, t);
  }

  /**
   * Evaluation is multiplicative, for the partial product p[i..] * q: r, v and w are the
   * values at t of p[i..] * q, of p from coefficient i on and of q, and r == v * w.
   */
  lemma {:induction false} EvalMulFrom(p: seq<real>, q: seq<real>, i: nat, t: real, r: real, v: real, w: real)
    requires r == EvalFrom(MulFrom(p, q, i), 0, t) && v == EvalFrom(p, i, t) && w == EvalFrom(q, 0, t)
    ensures r == v * w
    decreases |p| - i
  {
    if i < |p| {
      var rest, vNext := EvalFrom(MulFrom(p, q, i + 1), 0, t), EvalFrom(p, i + 1, t);
      EvalMulFrom(p, q, i + 1, t, rest, vNext, w);
      MulFromValue(p, q, i, t, r, w, rest);
      EvalFromStep(p, i, t);
      ProductStep(t, r, rest, p[i], v, vNext, w);
    } else {
      ZeroProduct(r, v, w);
    }
  }

  /** One step of the schoolbook rule in values: p[i..] * q is p[i] q plus t times p[i + 1..] * q. */
  lemma MulFromValue(p: seq<real>, q: seq<real>, i: nat, t: real, r: real, w: real, rest: real)
    requires i < |p|
    requires r == EvalFrom(MulFrom(p, q, i), 0, t) && w == EvalFrom(q, 0, t)
    requires rest == EvalFrom(MulFrom(p, q, i + 1), 0, t)
    ensures r == p[i] * w + t * rest
  {
    var scaled, tail := Scale(p[i], q), MulFrom(p, q, i + 1);
    var a, shifted := EvalFrom(scaled, 0, t), EvalFrom([0.0] + tail, 0, t);
    EvalAdd(scaled, [0.0] + tail, 0, t);
    ScaleValue(p[i], q, t, a, w);
    ShiftValue(tail, t, shifted, rest);
  }

  /** s * b evaluates to s times the value w of b. */
  lemma ScaleValue(s: real, b: seq<real>, t: real, r: real, w: real)
    requires r == EvalFrom(Scale(s, b), 0, t) && w == EvalFrom(b, 0, t)
    ensures r == s * w
  {
    EvalScale(s, b, 0, t);
  }

  lemma ProductStep(t: real, r: real, rest: real, c: real, v: real, vNext: real, q: real)
    requires r == c * q + t * rest && rest == vNext * q && v == c + t * vNext
    ensures r == v * q
  {
  }

  lemma ZeroProduct(r: real, v: real, q: real)
    requires r == 0.0 && v == 0.0
    ensures r == v * q
  {
  }

  /**
   * Evaluation is multiplicative: r, v and w are the values at t of p * q, p and q, and
   * r == v * w.
   */
  lemma EvalMul(p: seq<real>, q: seq<real>, t: real, r: real, v: real, w: real)
    requires r == EvalFrom(Mul(p, q), 0, t) && v == EvalFrom(p, 0, t) && w == EvalFrom(q, 0, t)
    ensures r == v * w
  {
    EvalMulFrom(p, q, 0, t, r, v, w);
  }

  lemma SumStep(t: real, r: real, r0: real, rt: real, a: real, a0: real, at: real, b: real, b0: real, bt: real)
    requires r == r0 + t * rt && a == a0 + t * at && b == b0 + t * bt
    requires r0 == a0 + b0 && rt == at + bt
    ensures r == a + b
  {
    assert t * rt == t * at + t * bt;
  }

  lemma DifferenceStep(t: real, r: real, r0: real, rt: real, a: real, a0: real, at: real, b: real, b0: real, bt: real)
    requires r == r0 + t * rt && a == a0 + t * at && b == b0 + t * bt
    requires r0 == a0 - b0 && rt == at - bt
    ensures r == a - b
  {
    assert t * rt == t * at - t * bt;
  }

  lemma ScaleStep(s: real, t: real, r: real, r0: real, rt: real, b: real, b0: real, bt: real)
    requires r == r0 + t * rt && b == b0 + t * bt
    requires r0 == s * b0 && rt == s * bt
    ensures r == s * b
  {
    assert t * (s * bt) == s * (t * bt);
  }

  // ---------------------------------------------------------------------------------
  // The divided-difference matrix F
  // ---------------------------------------------------------------------------------

  /**
   * Entry (m, l) of the n x n matrix F of b, n = |b| - 1: b[m + l + 1] where
   * m + l <= n - 1, zero elsewhere.
   */
  function FEntry(b: seq<real>, m: nat, l: nat): real {
    if m + l + 1 < |b| then b[m + l + 1] else 0.0
  }

  /** The matrix F of b as rows. */
  function FMatrix(b: seq<real>): (rows: seq<seq<real>>)
    requires |b| >= 1
    ensures |rows| == |b| - 1
    ensures forall m :: 0 <= m < |rows| ==> |rows[m]| == |b| - 1
  {
    var n := |b| - 1;
    seq(n, m requires 0 <= m < n => seq(n, l requires 0 <= l < n => FEntry(b, m, l)))
  }

  /**
   * The coefficient loop of initGlobalSelfIntersectionData for one basis polynomial b:
   * starting from the zero n x n matrix, for k = 1..n and m = 0..k-1 it adds b[k] to
   * entry (m, k - 1 - m). Every entry receives at most one contribution, so the result
   * is the matrix F of b.
   */
  method PowerCoeffMatrix(b: seq<real>) returns (f: array2<real>)
    requires |b| >= 1
    ensures fresh(f) && f.Length0 == |b| - 1 && f.Length1 == |b| - 1
    ensures forall m, l :: 0 <= m < f.Length0 && 0 <= l < f.Length1 ==> f[m, l] == FEntry(b, m, l)
  {
    var n := |b| - 1;
    f := new real[n, n]((m, l) => 0.0);
    var k := 1;
    while k < n + 1
      invariant 1 <= k <= n + 1
      invariant forall p, l :: 0 <= p < n && 0 <= l < n ==>
        f[p, l] == if p + l + 1 < k then b[p + l + 1] else 0.0
    {
      var m := 0;
      while m < k
        invariant 0 <= m <= k
        invariant forall p, l :: 0 <= p < n && 0 <= l < n ==>
          f[p, l] == if p + l + 1 < k || (p + l + 1 == k && p < m) then b[p + l + 1] else 0.0
      {
        f[m, k - 1 - m] := f[m, k - 1 - m] + b[k];
        m := m + 1;
      }
      k := k + 1;
    }
  }

  /** The rows of a matrix read out of an array. */
  function Rows(f: array2<real>): (rows: seq<seq<real>>)
    reads f
    ensures |rows| == f.Length0
    ensures forall m :: 0 <= m < |rows| ==> |rows[m]| == f.Length1
  {
    seq(f.Length0, m requires 0 <= m < f.Length0 reads f =>
      seq(f.Length1, l requires 0 <= l < f.Length1 reads f => f[m, l]))
  }

  /** The array PowerCoeffMatrix fills holds exactly the matrix F. */
  lemma PowerCoeffRows(b: seq<real>, f: array2<real>)
    requires |b| >= 1 && f.Length0 == |b| - 1 && f.Length1 == |b| - 1
    requires forall m, l :: 0 <= m < f.Length0 && 0 <= l < f.Length1 ==> f[m, l] == FEntry(b, m, l)
    ensures Rows(f) == FMatrix(b)
  {
    var rows, fm := Rows(f), FMatrix(b);
    forall m | 0 <= m < |rows|
      ensures rows[m] == fm[m]
    {
      assert forall l :: 0 <= l < |rows[m]| ==> rows[m][l] == f[m, l] == fm[m][l];
    }
  }

  /** Row m of F, read from coefficient l on, is b read from coefficient m + 1 + l on. */
  lemma {:induction false} FRowEval(b: seq<real>, m: nat, l: nat, y: real)
    requires |b| >= 1 && m < |b| - 1 && l <= |b| - 1
    ensures EvalFrom(FMatrix(b)[m], l, y) == EvalFrom(b, m + 1 + l, y)
    decreases |b| - l
  {
    if l < |b| - 1 {
      FRowEval(b, m, l + 1, y);
      EvalFromStep(b, m + 1 + l, y);
    }
  }

  /**
   * One step of the divided difference, for rows f whose row m evaluates like b from m + 1
   * on; the values involved are passed in, bound by the requires clauses.
   */
  lemma DividedStepFrom(f: seq<seq<real>>, b: seq<real>, m: nat, x: real, y: real,
                        fm: real, fNext: real, pNext: real, qNext: real, p: real, q: real)
    requires m < |f| && m < |b|
    requires fm == Eval2From(f, m, x, y) && fNext == Eval2From(f, m + 1, x, y)
    requires pNext == EvalFrom(b, m + 1, x) && qNext == EvalFrom(b, m + 1, y)
    requires p == EvalFrom(b, m, x) && q == EvalFrom(b, m, y)
    requires EvalFrom(f[m], 0, y) == qNext
    requires (x - y) * fNext == pNext - qNext
    ensures (x - y) * fm == p - q
  {
    DividedStep(x, y, b[m], fm, fNext, pNext, qNext, p, q);
  }

  lemma DividedStep(x: real, y: real, c: real, f: real, fNext: real, pNext: real, qNext: real, p: real, q: real)
    requires f == qNext + x * fNext && (x - y) * fNext == pNext - qNext
    requires p == c + x * pNext && q == c + y * qNext
    ensures (x - y) * f == p - q
  {
    calc {
      (x - y) * f;
      (x - y) * qNext + x * ((x - y) * fNext);
      (x - y) * qNext + x * (pNext - qNext);
    }
  }

  /**
   * F is the divided difference of b: (x - y) F(x, y) == b(x) - b(y) for all x, y, with f
   * the value of F at (x, y) and p and q those of b at x and at y. Rows m, m + 1, ... of F
   * are, in the same way, the divided difference of b[m] + b[m + 1] t + b[m + 2] t^2 + ...
   */
  lemma {:induction false} DividedDifference(b: seq<real>, m: nat, x: real, y: real, f: real, p: real, q: real)
    requires |b| >= 1 && m <= |b| - 1
    requires f == Eval2From(FMatrix(b), m, x, y) && p == EvalFrom(b, m, x) && q == EvalFrom(b, m, y)
    ensures (x - y) * f == p - q
    decreases |b| - m
  {
    if m < |b| - 1 {
      var fNext, pNext, qNext := Eval2From(FMatrix(b), m + 1, x, y), EvalFrom(b, m + 1, x), EvalFrom(b, m + 1, y);
      DividedDifference(b, m + 1, x, y, fNext, pNext, qNext);
      FRowEval(b, m, 0, y);
      DividedStepFrom(FMatrix(b), b, m, x, y, f, fNext, pNext, qNext, p, q);
    } else {
      DividedBase(b, x, y, f, p, q);
    }
  }

  /** The last row: F has n rows, so from row n on its value is zero, and so is b[n] - b[n]. */
  lemma DividedBase(b: seq<real>, x: real, y: real, f: real, p: real, q: real)
    requires |b| >= 1 && f == Eval2From(FMatrix(b), |b| - 1, x, y)
    requires p == EvalFrom(b, |b| - 1, x) && q == EvalFrom(b, |b| - 1, y)
    ensures (x - y) * f == p - q
  {
    EvalFromStep(b, |b| - 1, x);
    EvalFromStep(b, |b| - 1, y);
  }
}
