/**
 * The degree bookkeeping of the polynomial systems a canal surface builds from its Bezier
 * spine of degree n (derivDeg = n - 1, deriv2Deg = n - 2): each system is composed here
 * from coefficient sequences by sums, products and derivatives of the same degrees as the
 * engine's, and the length of the result is shown to be one more than the degree of the
 * type the result is stored in. Only the degrees correspond: Tangent and PointAt read the
 * coefficients in the power basis, the engine's Bernstein operations read them in the
 * Bernstein basis, and GlobalSystem combines a dist_nt built from a table G of any basis
 * with a power-basis tangent, so its values are not the engine's.
 *
 * A degree-d polynomial is a coefficient sequence of length d + 1; a spine is three such
 * component sequences of length n + 1 (SelfIntersection.IsSpine).
 */
module Degrees {
  import opened PowerPoly
  import opened SelfIntersection

  // ---------------------------------------------------------------------------------
  // Derivative and degree elevation
  // ---------------------------------------------------------------------------------

  /**
   * The derivative. The degree drops by one, but a constant's derivative is the zero
   * constant, still of degree 0: this is why zDeg of checkRenderVector has two cases.
   */
  function Derivative(b: seq<real>): (r: seq<real>)
    requires |b| >= 1
    ensures |r| == if |b| >= 2 then |b| - 1 else 1
    ensures |b| == 1 ==> r == [0.0]
  {
    if |b| == 1 then [0.0] else seq(|b| - 1, k requires 0 <= k < |b| - 1 => (k + 1) as real * b[k + 1])
  }

  /** b written as a polynomial of degree d >= its own, by zero coefficients on top. */
  function Elevate(b: seq<real>, d: nat): (r: seq<real>)
    requires |b| <= d + 1
    ensures |r| == d + 1
  {
    b + seq(d + 1 - |b|, _ => 0.0)
  }

  /** A tail of zero coefficients contributes nothing. */
  lemma {:induction false} ZeroTail(b: seq<real>, k: nat, t: real)
    requires forall i :: k <= i < |b| ==> b[i] == 0.0
    ensures EvalFrom(b, k, t) == 0.0
    decreases |b| - k
  {
    if k < |b| {
      ZeroTail(b, k + 1, t);
    }
  }

  /** Padding with zeros keeps every tail value. */
  lemma {:induction false} PaddedTail(b: seq<real>, z: seq<real>, k: nat, t: real)
    requires k <= |b| && forall i :: 0 <= i < |z| ==> z[i] == 0.0
    ensures EvalFrom(b + z, k, t) == EvalFrom(b, k, t)
    decreases |b| - k
  {
    if k < |b| {
      PaddedTail(b, z, k + 1, t);
    } else {
      ZeroTail(b + z, k, t);
    }
  }

  /** Elevation does not change the polynomial: its value is the same everywhere. */
  lemma ElevateValue(b: seq<real>, d: nat, t: real)
    requires |b| <= d + 1
    ensures EvalFrom(Elevate(b, d), 0, t) == EvalFrom(b, 0, t)
  {
    PaddedTail(b, seq(d + 1 - |b|, _ => 0.0), 0, t);
  }

  // ---------------------------------------------------------------------------------
  // checkRenderVector
  // ---------------------------------------------------------------------------------

  /** zDeg of checkRenderVector, for the derivative degree d. */
  function ZDeg(d: nat): nat {
    2 * d + (if 2 * d > 0 then 2 * d - 1 else 0)
  }

  /** The three derivatives of a spine's components. */
  function Tangent(gamma: seq<seq<real>>): (dgamma: seq<seq<real>>)
    requires |gamma| == 3 && forall c :: 0 <= c < 3 ==> |gamma[c]| >= 2
    ensures |dgamma| == 3 && forall c :: 0 <= c < 3 ==> |dgamma[c]| == |gamma[c]| - 1
  {
    [Derivative(gamma[0]), Derivative(gamma[1]), Derivative(gamma[2])]
  }

  /** a_0 b_0 + a_1 b_1 + a_2 b_2 for three polynomials of one degree. */
  function Dot(a: seq<seq<real>>, b: seq<seq<real>>): (r: seq<real>)
    requires |a| == 3 && |b| == 3
    requires forall c :: 0 <= c < 3 ==> |a[c]| == |a[0]| >= 1 && |b[c]| == |b[0]| >= 1
    ensures |r| == |a[0]| + |b[0]| - 1
  {
    Add(Add(Mul(a[0], b[0]), Mul(a[1], b[1])), Mul(a[2], b[2]))
  }

  /** The cross product r x dgamma of a fixed vector with polynomial components. */
  function CrossWithVector(r: (real, real, real), dgamma: seq<seq<real>>): (x: seq<seq<real>>)
    requires |dgamma| == 3 && forall c :: 0 <= c < 3 ==> |dgamma[c]| == |dgamma[0]|
    ensures |x| == 3 && forall c :: 0 <= c < 3 ==> |x[c]| == |dgamma[0]|
  {
    [Sub(Scale(r.1, dgamma[2]), Scale(r.2, dgamma[1])),
     Sub(Scale(r.2, dgamma[0]), Scale(r.0, dgamma[2])),
     Sub(Scale(r.0, dgamma[1]), Scale(r.1, dgamma[0]))]
  }

  /** |gamma'|^2, of degree 2 derivDeg: q of checkRenderVector, dgamma_square of the local system. */
  function TangentSquare(gamma: seq<seq<real>>): (q: seq<real>)
    requires |gamma| == 3 && IsSpine(gamma, |gamma[0]|) && |gamma[0]| >= 2
    ensures |q| == 2 * (|gamma[0]| - 2) + 1
  {
    var dgamma := Tangent(gamma);
    Dot(dgamma, dgamma)
  }

  /** |r x gamma'|^2, of degree 2 derivDeg: p of checkRenderVector. */
  function NormalSquare(gamma: seq<seq<real>>, r: (real, real, real)): (p: seq<real>)
    requires |gamma| == 3 && IsSpine(gamma, |gamma[0]|) && |gamma[0]| >= 2
    ensures |p| == 2 * (|gamma[0]| - 2) + 1
  {
    var x := CrossWithVector(r, Tangent(gamma));
    Dot(x, x)
  }

  /** p' q - p q' for p and q of one degree 2d: degree ZDeg(d). */
  function QuotientNumerator(p: seq<real>, q: seq<real>, d: nat): (z: seq<real>)
    requires |p| == |q| == 2 * d + 1
    ensures |z| == ZDeg(d) + 1
  {
    Sub(Mul(Derivative(p), q), Mul(p, Derivative(q)))
  }

  /**
   * checkRenderVector's target polynomial z = p' q - p q', with p = |r x gamma'|^2 and
   * q = |gamma'|^2, for a spine of degree n >= 1: z has degree zDeg.
   */
  function RenderTarget(gamma: seq<seq<real>>, r: (real, real, real)): (z: seq<real>)
    requires |gamma| == 3 && IsSpine(gamma, |gamma[0]|) && |gamma[0]| >= 2
    ensures |z| == ZDeg(|gamma[0]| - 2) + 1
  {
    QuotientNumerator(NormalSquare(gamma, r), TangentSquare(gamma), |gamma[0]| - 2)
  }

  // ---------------------------------------------------------------------------------
  // computeLocalSelfIntersectionPolynomial
  // ---------------------------------------------------------------------------------

  /** The cross product gamma' x gamma'', of degree derivDeg + deriv2Deg in each component. */
  function CrossProduct(dgamma: seq<seq<real>>, d2gamma: seq<seq<real>>): (x: seq<seq<real>>)
    requires |dgamma| == 3 && |d2gamma| == 3
    requires forall c :: 0 <= c < 3 ==> |dgamma[c]| == |dgamma[0]| >= 1 && |d2gamma[c]| == |d2gamma[0]| >= 1
    ensures |x| == 3 && forall c :: 0 <= c < 3 ==> |x[c]| == |dgamma[0]| + |d2gamma[0]| - 1
  {
    [Sub(Mul(dgamma[1], d2gamma[2]), Mul(dgamma[2], d2gamma[1])),
     Sub(Mul(dgamma[2], d2gamma[0]), Mul(dgamma[0], d2gamma[2])),
     Sub(Mul(dgamma[0], d2gamma[1]), Mul(dgamma[1], d2gamma[0]))]
  }

  /** rmax^2 |gamma' x gamma''|^2, of degree 2 (derivDeg + deriv2Deg), for n >= 2. */
  function CrossSquare(gamma: seq<seq<real>>, rmax: real): (s: seq<real>)
    requires |gamma| == 3 && IsSpine(gamma, |gamma[0]|) && |gamma[0]| >= 3
    ensures |s| == 2 * ((|gamma[0]| - 2) + (|gamma[0]| - 3)) + 1
  {
    var dgamma := Tangent(gamma);
    var x := CrossProduct(dgamma, Tangent(dgamma));
    Scale(rmax * rmax, Dot(x, x))
  }

  /** |gamma'|^6, of degree 6 derivDeg. */
  function TangentCube(gamma: seq<seq<real>>): (s: seq<real>)
    requires |gamma| == 3 && IsSpine(gamma, |gamma[0]|) && |gamma[0]| >= 2
    ensures |s| == 6 * (|gamma[0]| - 2) + 1
  {
    var sq := TangentSquare(gamma);
    Mul(Mul(sq, sq), sq)
  }

  /**
   * The local self-intersection polynomial, rmax^2 |gamma' x gamma''|^2 elevated to degree
   * 6 derivDeg minus |gamma'|^6, for a spine of degree n >= 2 (the source's deriv2Deg = n - 2
   * needs it).
   */
  function LocalSelfIntersection(gamma: seq<seq<real>>, rmax: real): (p: seq<real>)
    requires |gamma| == 3 && IsSpine(gamma, |gamma[0]|) && |gamma[0]| >= 3
    ensures |p| == 6 * (|gamma[0]| - 2) + 1
  {
    Sub(Elevate(CrossSquare(gamma, rmax), 6 * (|gamma[0]| - 2)), TangentCube(gamma))
  }

  /**
   * The elevation in computeLocalSelfIntersectionPolynomial is well-defined for every n >= 2
   * (degree 2 (derivDeg + deriv2Deg) never exceeds 6 derivDeg), raises the degree by 2n and
   * keeps the polynomial's value.
   */
  lemma CrossSquareElevation(gamma: seq<seq<real>>, rmax: real, t: real)
    requires |gamma| == 3 && IsSpine(gamma, |gamma[0]|) && |gamma[0]| >= 3
    ensures |CrossSquare(gamma, rmax)| <= 6 * (|gamma[0]| - 2) + 1
    ensures |LocalSelfIntersection(gamma, rmax)| - |CrossSquare(gamma, rmax)| == 2 * (|gamma[0]| - 1)
    ensures EvalFrom(Elevate(CrossSquare(gamma, rmax), 6 * (|gamma[0]| - 2)), 0, t)
         == EvalFrom(CrossSquare(gamma, rmax), 0, t)
  {
    ElevateValue(CrossSquare(gamma, rmax), 6 * (|gamma[0]| - 2), t);
  }

  // ---------------------------------------------------------------------------------
  // Bivariate products
  // ---------------------------------------------------------------------------------

  /** Every row of a holds w coefficients. */
  predicate Rect(a: BiPoly, w: nat) {
    forall m :: 0 <= m < |a| ==> |a[m]| == w
  }

  /** Coefficient (m, l) of u(x) * a(x, y): the sum of u[k] a[m - k][l] over k >= k0. */
  function ConvX(a: BiPoly, u: seq<real>, m: nat, l: nat, k: nat): real
    requires forall i :: 0 <= i < |a| ==> l < |a[i]|
    decreases |u| - k
  {
    if k < |u| then
      (if k <= m < k + |a| then u[k] * a[m - k][l] else 0.0) + ConvX(a, u, m, l, k + 1)
    else 0.0
  }

  /** u(x) * a(x, y): the x-degree grows by the degree of u. */
  function MulX(a: BiPoly, u: seq<real>, w: nat): (r: BiPoly)
    requires |a| >= 1 && |u| >= 1 && Rect(a, w)
    ensures |r| == |a| + |u| - 1 && Rect(r, w)
  {
    seq(|a| + |u| - 1, m requires 0 <= m < |a| + |u| - 1 =>
      seq(w, l requires 0 <= l < w => ConvX(a, u, m, l, 0)))
  }

  /** u(y) * a(x, y): the y-degree grows by the degree of u. */
  function MulY(a: BiPoly, u: seq<real>, w: nat): (r: BiPoly)
    requires w >= 1 && |u| >= 1 && Rect(a, w)
    ensures |r| == |a| && Rect(r, w + |u| - 1)
  {
    seq(|a|, m requires 0 <= m < |a| => Mul(a[m], u))
  }

  /** The sum of three bivariate polynomials of one shape. */
  function BiSum3(a: BiPoly, b: BiPoly, c: BiPoly, w: nat): (r: BiPoly)
    requires |a| == |b| == |c| && Rect(a, w) && Rect(b, w) && Rect(c, w)
    ensures |r| == |a| && Rect(r, w)
  {
    BiAdd(BiAdd(a, b), c)
  }

  /**
   * p = sum_c dist_c(x, y) * u_c(x) and q = sum_c dist_c(x, y) * v_c(y) for three distance
   * components of one shape (rows x w) and two tangents of one degree.
   */
  function InnerProducts(dist: seq<BiPoly>, w: nat, u: seq<seq<real>>, v: seq<seq<real>>): (pq: (BiPoly, BiPoly))
    requires |dist| == 3 && |dist[0]| >= 1 && w >= 1
    requires forall c :: 0 <= c < 3 ==> |dist[c]| == |dist[0]| && Rect(dist[c], w)
    requires |u| == 3 && |v| == 3 && forall c :: 0 <= c < 3 ==> |u[c]| == |u[0]| >= 1 && |v[c]| == |v[0]| >= 1
    ensures |pq.0| == |dist[0]| + |u[0]| - 1 && Rect(pq.0, w)
    ensures |pq.1| == |dist[0]| && Rect(pq.1, w + |v[0]| - 1)
  {
    (BiSum3(MulX(dist[0], u[0], w), MulX(dist[1], u[1], w), MulX(dist[2], u[2], w), w),
     BiSum3(MulY(dist[0], v[0], w), MulY(dist[1], v[1], w), MulY(dist[2], v[2], w), w + |v[0]| - 1))
  }

  // ---------------------------------------------------------------------------------
  // computeGlobalSelfIntersectionSystem
  // ---------------------------------------------------------------------------------

  /**
   * p and q of the global self-intersection system, from dist_nt. In the power basis dist_nt
   * has x-degree n - 1 and y-degree 2n - 1, so p fits BiBernsteinPolynomial<2n-1+derivDeg,
   * 2n-1> (x-degree n - 1 + derivDeg, y-degree 2n - 1) and q is exactly of bidegree
   * (n - 1, 2n - 1 + derivDeg), inside <2n-1, 2n-1+derivDeg>. Only these shapes are
   * claimed: g may come from any basis, while Tangent reads gamma in the power basis.
   */
  function GlobalSystem(g: seq<seq<BiPoly>>, gamma: seq<seq<real>>): (pq: (BiPoly, BiPoly))
    requires TableShape(g) && IsSpine(gamma, |g|)
    ensures |pq.0| == (|g| - 2) + (|g| - 2) + 1 && Rect(pq.0, 2 * (|g| - 1))
    ensures |pq.0| <= (2 * (|g| - 1) - 1 + (|g| - 2)) + 1
    ensures |pq.1| == |g| - 1 && Rect(pq.1, (2 * (|g| - 1) - 1 + (|g| - 2)) + 1)
  {
    var n := |g| - 1;
    var dist := [DistanceNT(g, gamma[0]), DistanceNT(g, gamma[1]), DistanceNT(g, gamma[2])];
    assert forall c :: 0 <= c < 3 ==> HasShape(dist[c], n);
    var dgamma := Tangent(gamma);
    InnerProducts(dist, 2 * n, dgamma, dgamma)
  }

  /**
   * An edge polynomial curve'(t) . (curve(t) - point): the sum over the three components of
   * curve_c' * (curve_c - point_c), of degree n + derivDeg.
   */
  function EdgePolynomial(curve: seq<seq<real>>, point: (real, real, real)): (e: seq<real>)
    requires |curve| == 3 && IsSpine(curve, |curve[0]|) && |curve[0]| >= 2
    ensures |e| == (|curve[0]| - 1) + (|curve[0]| - 2) + 1
  {
    var d := Tangent(curve);
    Dot(d, [Sub(curve[0], [point.0]), Sub(curve[1], [point.1]), Sub(curve[2], [point.2])])
  }

  /** The point of a curve at parameter t. */
  function PointAt(curve: seq<seq<real>>, t: real): (real, real, real)
    requires |curve| == 3
  {
    (EvalFrom(curve[0], 0, t), EvalFrom(curve[1], 0, t), EvalFrom(curve[2], 0, t))
  }

  /** The factor curve_c(t) - curve_c(a) vanishes at t = a. */
  lemma EdgeFactorVanishes(curve: seq<seq<real>>, a: real, c: nat)
    requires |curve| == 3 && c < 3
    ensures EvalFrom(Sub(curve[c], [EvalFrom(curve[c], 0, a)]), 0, a) == 0.0
  {
    var v := EvalFrom(curve[c], 0, a);
    EvalSub(curve[c], [v], 0, a);
    assert EvalFrom([v], 1, a) == 0.0;
  }

  /** d(t) (curve_c(t) - curve_c(a)) vanishes at t = a, whatever the polynomial d. */
  lemma EdgeTermVanishes(curve: seq<seq<real>>, d: seq<real>, a: real, c: nat)
    requires |curve| == 3 && c < 3
    ensures EvalFrom(Mul(d, Sub(curve[c], [EvalFrom(curve[c], 0, a)])), 0, a) == 0.0
  {
    var f := Sub(curve[c], [EvalFrom(curve[c], 0, a)]);
    var r, v, w := EvalFrom(Mul(d, f), 0, a), EvalFrom(d, 0, a), EvalFrom(f, 0, a);
    EdgeFactorVanishes(curve, a, c);
    EvalMul(d, f, a, r, v, w);
  }

  /**
   * The edge polynomial against the curve's own point at a, (gamma(t) - gamma(a)) . gamma'(t),
   * vanishes at t = a: the trivial solution that the global system's corners share.
   */
  lemma EdgeVanishesAtOwnPoint(curve: seq<seq<real>>, a: real)
    requires |curve| == 3 && IsSpine(curve, |curve[0]|) && |curve[0]| >= 2
    ensures EvalFrom(EdgePolynomial(curve, PointAt(curve, a)), 0, a) == 0.0
  {
    var p, d := PointAt(curve, a), Tangent(curve);
    var m0 := Mul(d[0], Sub(curve[0], [p.0]));
    var m1 := Mul(d[1], Sub(curve[1], [p.1]));
    var m2 := Mul(d[2], Sub(curve[2], [p.2]));
    assert EdgePolynomial(curve, p) == Add(Add(m0, m1), m2);
    EdgeTermVanishes(curve, d[0], a, 0);
    EdgeTermVanishes(curve, d[1], a, 1);
    EdgeTermVanishes(curve, d[2], a, 2);
    EvalAdd(Add(m0, m1), m2, 0, a);
    EvalAdd(m0, m1, 0, a);
  }

  /** The two edge polynomials of the global system, at the spine's points gamma(0) and gamma(1). */
  function GlobalEdges(gamma: seq<seq<real>>): (edges: (seq<real>, seq<real>))
    requires |gamma| == 3 && IsSpine(gamma, |gamma[0]|) && |gamma[0]| >= 2
    ensures |edges.0| == |edges.1| == (|gamma[0]| - 1) + (|gamma[0]| - 2) + 1
  {
    (EdgePolynomial(gamma, PointAt(gamma, 0.0)), EdgePolynomial(gamma, PointAt(gamma, 1.0)))
  }

  // ---------------------------------------------------------------------------------
  // computeIntersectionSystem
  // ---------------------------------------------------------------------------------

  /**
   * The power coefficients of u(x) - v(y): u's coefficients down the column y^0 and minus
   * v's along the row x^0.
   */
  function PowerDifference(u: seq<real>, v: seq<real>): (d: BiPoly)
    requires |u| == |v| >= 1
    ensures |d| == |u| && Rect(d, |v|)
  {
    seq(|u|, m requires 0 <= m < |u| =>
      seq(|v|, l requires 0 <= l < |v| =>
        (if l == 0 then u[m] else 0.0) - (if m == 0 then v[l] else 0.0)))
  }

  /** Row 0 of the difference from column k >= 1 on is minus v from k on. */
  lemma {:induction false} DifferenceFirstRow(u: seq<real>, v: seq<real>, k: nat, y: real)
    requires |u| == |v| >= 1 && 1 <= k
    ensures EvalFrom(PowerDifference(u, v)[0], k, y) == -EvalFrom(v, k, y)
    decreases |v| - k
  {
    if k < |v| {
      DifferenceFirstRow(u, v, k + 1, y);
    }
  }

  /** Rows m >= 1 of the difference hold u[m] alone. */
  lemma {:induction false} DifferenceLowerRows(u: seq<real>, v: seq<real>, m: nat, x: real, y: real)
    requires |u| == |v| >= 1 && 1 <= m
    ensures Eval2From(PowerDifference(u, v), m, x, y) == EvalFrom(u, m, x)
    decreases |u| - m
  {
    if m < |u| {
      DifferenceLowerRows(u, v, m + 1, x, y);
      var row := PowerDifference(u, v)[m];
      ZeroTail(row, 1, y);
    }
  }

  /** PowerDifference(u, v) is the polynomial u(x) - v(y). */
  lemma PowerDifferenceValue(u: seq<real>, v: seq<real>, x: real, y: real)
    requires |u| == |v| >= 1
    ensures Eval2From(PowerDifference(u, v), 0, x, y) == EvalFrom(u, 0, x) - EvalFrom(v, 0, y)
  {
    var d := PowerDifference(u, v);
    var whole, row0, lower := Eval2From(d, 0, x, y), EvalFrom(d[0], 0, y), Eval2From(d, 1, x, y);
    var corner, row0Rest := d[0][0], EvalFrom(d[0], 1, y);
    var uValue, u0, uRest := EvalFrom(u, 0, x), u[0], EvalFrom(u, 1, x);
    var vValue, v0, vRest := EvalFrom(v, 0, y), v[0], EvalFrom(v, 1, y);
    DifferenceLowerRows(u, v, 1, x, y);
    DifferenceFirstRow(u, v, 1, y);
    Eval2Step(d, 0, x, y, whole, row0, lower);
    EvalHead(d[0], y, row0, corner, row0Rest);
    EvalHead(u, x, uValue, u0, uRest);
    EvalHead(v, y, vValue, v0, vRest);
    DifferenceCorner(x, y, whole, row0, corner, row0Rest, lower, uValue, u0, uRest, vValue, v0, vRest);
  }

  /** The corner step of PowerDifferenceValue, over the values Horner's scheme gives. */
  lemma DifferenceCorner(x: real, y: real, whole: real, row0: real, corner: real, row0Rest: real, lower: real,
                         uValue: real, u0: real, uRest: real, vValue: real, v0: real, vRest: real)
    requires whole == row0 + x * lower && row0 == corner + y * row0Rest
    requires corner == u0 - v0 && row0Rest == -vRest && lower == uRest
    requires uValue == u0 + x * uRest && vValue == v0 + y * vRest
    ensures whole == uValue - vValue
  {
  }

  /**
   * p and q of the intersection system of two tubes of degree n: p has bidegree
   * (n + derivDeg, n) and q has bidegree (n, n + derivDeg), as declared.
   */
  function PairSystem(gamma: seq<seq<real>>, delta: seq<seq<real>>): (pq: (BiPoly, BiPoly))
    requires |gamma| == 3 && IsSpine(gamma, |gamma[0]|) && IsSpine(delta, |gamma[0]|) && |gamma[0]| >= 2
    ensures |pq.0| == (|gamma[0]| - 1) + (|gamma[0]| - 2) + 1 && Rect(pq.0, |gamma[0]|)
    ensures |pq.1| == |gamma[0]| && Rect(pq.1, (|gamma[0]| - 1) + (|gamma[0]| - 2) + 1)
  {
    var dist := [PowerDifference(gamma[0], delta[0]), PowerDifference(gamma[1], delta[1]),
                 PowerDifference(gamma[2], delta[2])];
    InnerProducts(dist, |gamma[0]|, Tangent(gamma), Tangent(delta))
  }

  /**
   * The four edge polynomials of two tubes: delta against gamma(0) and gamma(1), gamma
   * against delta(0) and delta(1), each of degree n + derivDeg.
   */
  function PairEdges(gamma: seq<seq<real>>, delta: seq<seq<real>>): (edges: seq<seq<real>>)
    requires |gamma| == 3 && IsSpine(gamma, |gamma[0]|) && IsSpine(delta, |gamma[0]|) && |gamma[0]| >= 2
    ensures |edges| == 4 && forall e :: 0 <= e < 4 ==> |edges[e]| == (|gamma[0]| - 1) + (|gamma[0]| - 2) + 1
  {
    [EdgePolynomial(delta, PointAt(gamma, 0.0)), EdgePolynomial(delta, PointAt(gamma, 1.0)),
     EdgePolynomial(gamma, PointAt(delta, 0.0)), EdgePolynomial(gamma, PointAt(delta, 1.0))]
  }
}
