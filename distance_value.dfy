/**
 * What dist_nt of computeGlobalSelfIntersectionSystem means as a polynomial. The table G
 * holds G(i, j)(x, y) = B_j(y) F_i(x, y) - B_i(y) F_j(x, y), F_i being the divided difference
 * of the basis polynomial B_i, and dist_nt sums gamma[i] G(i, j) over all pairs. Its value
 * therefore satisfies
 *
 *   (x - y) dist_nt(x, y) == gamma(x) S(y) - gamma(y) S(x)
 *
 * where gamma(t) = sum_i gamma[i] B_i(t) is the spine component and S(t) = sum_j B_j(t). For
 * a basis that sums to one, as the Bernstein basis does, this is gamma(x) - gamma(y): dist_nt
 * is the divided difference of the spine component, the distance vector gamma(x) - gamma(y)
 * with the trivial solution x = y factored out.
 *
 * Products of two evaluated polynomials are stated over value parameters bound by the
 * requires clauses (r == value of ..., v == value of ...), which keeps the proofs small.
 */
module DistanceValue {
  import opened PowerPoly
  import opened SelfIntersection

  // ---------------------------------------------------------------------------------
  // Bivariate evaluation is linear
  // ---------------------------------------------------------------------------------

  /**
   * Evaluation is linear in the rows: if every row of r evaluates, as a polynomial in y, to
   * alpha times that row of a plus beta times that row of b, then rows m, m + 1, ... of r
   * evaluate to alpha times those of a plus beta times those of b.
   */
  lemma {:induction false} LinearRows(r: BiPoly, a: BiPoly, b: BiPoly, alpha: real, beta: real, m: nat, x: real, y: real,
                                      rv: real, av: real, bv: real)
    requires |r| == |a| == |b|
    requires forall k :: 0 <= k < |r| ==> EvalFrom(r[k], 0, y) == alpha * EvalFrom(a[k], 0, y) + beta * EvalFrom(b[k], 0, y)
    requires rv == Eval2From(r, m, x, y) && av == Eval2From(a, m, x, y) && bv == Eval2From(b, m, x, y)
    ensures rv == alpha * av + beta * bv
    decreases |r| - m
  {
    if m < |r| {
      var rNext, aNext, bNext := Eval2From(r, m + 1, x, y), Eval2From(a, m + 1, x, y), Eval2From(b, m + 1, x, y);
      var r0, a0, b0 := EvalFrom(r[m], 0, y), EvalFrom(a[m], 0, y), EvalFrom(b[m], 0, y);
      LinearRows(r, a, b, alpha, beta, m + 1, x, y, rNext, aNext, bNext);
      LinearRow(r, a, b, alpha, beta, m, y, r0, a0, b0);
      Eval2Step(r, m, x, y, rv, r0, rNext);
      Eval2Step(a, m, x, y, av, a0, aNext);
      Eval2Step(b, m, x, y, bv, b0, bNext);
      LinearStep(x, alpha, beta, rv, r0, rNext, av, a0, aNext, bv, b0, bNext);
    } else {
      LinearBase(alpha, beta, rv, av, bv);
    }
  }

  lemma LinearRow(r: BiPoly, a: BiPoly, b: BiPoly, alpha: real, beta: real, k: nat, y: real, r0: real, a0: real, b0: real)
    requires |r| == |a| == |b| && k < |r|
    requires forall k :: 0 <= k < |r| ==> EvalFrom(r[k], 0, y) == alpha * EvalFrom(a[k], 0, y) + beta * EvalFrom(b[k], 0, y)
    requires r0 == EvalFrom(r[k], 0, y) && a0 == EvalFrom(a[k], 0, y) && b0 == EvalFrom(b[k], 0, y)
    ensures r0 == alpha * a0 + beta * b0
  {
  }

  lemma LinearStep(x: real, alpha: real, beta: real, rv: real, r0: real, rNext: real,
                   av: real, a0: real, aNext: real, bv: real, b0: real, bNext: real)
    requires rv == r0 + x * rNext && av == a0 + x * aNext && bv == b0 + x * bNext
    requires r0 == alpha * a0 + beta * b0 && rNext == alpha * aNext + beta * bNext
    ensures rv == alpha * av + beta * bv
  {
    calc {
      rv;
      alpha * a0 + beta * b0 + x * (alpha * aNext + beta * bNext);
      alpha * (a0 + x * aNext) + beta * (b0 + x * bNext);
    }
  }

  lemma LinearBase(alpha: real, beta: real, rv: real, av: real, bv: real)
    requires rv == 0.0 && av == 0.0 && bv == 0.0
    ensures rv == alpha * av + beta * bv
  {
  }

  /** The value of a + b is the value of a plus the value of b. */
  lemma Eval2Add(a: BiPoly, b: BiPoly, x: real, y: real, r: real, u: real, v: real)
    requires |a| == |b|
    requires r == Eval2From(BiAdd(a, b), 0, x, y) && u == Eval2From(a, 0, x, y) && v == Eval2From(b, 0, x, y)
    ensures r == u + v
  {
    var sum := BiAdd(a, b);
    forall k | 0 <= k < |sum|
      ensures EvalFrom(sum[k], 0, y) == 1.0 * EvalFrom(a[k], 0, y) + 1.0 * EvalFrom(b[k], 0, y)
    {
      EvalAdd(a[k], b[k], 0, y);
    }
    LinearRows(sum, a, b, 1.0, 1.0, 0, x, y, r, u, v);
  }

  /** The value of s * a is s times the value of a. */
  lemma Eval2Scale(s: real, a: BiPoly, x: real, y: real, r: real, v: real)
    requires r == Eval2From(BiScale(s, a), 0, x, y) && v == Eval2From(a, 0, x, y)
    ensures r == s * v
  {
    var scaled := BiScale(s, a);
    forall k | 0 <= k < |scaled|
      ensures EvalFrom(scaled[k], 0, y) == s * EvalFrom(a[k], 0, y) + 0.0 * EvalFrom(a[k], 0, y)
    {
      EvalScale(s, a[k], 0, y);
    }
    LinearRows(scaled, a, a, s, 0.0, 0, x, y, r, v, v);
  }

  /** A polynomial with only zero coefficients has value zero. */
  lemma {:induction false} ZeroRowValue(row: seq<real>, k: nat, y: real)
    requires forall l :: 0 <= l < |row| ==> row[l] == 0.0
    ensures EvalFrom(row, k, y) == 0.0
    decreases |row| - k
  {
    if k < |row| {
      ZeroRowValue(row, k + 1, y);
    }
  }

  lemma {:induction false} ZeroValue(a: BiPoly, m: nat, x: real, y: real)
    requires forall r, l :: 0 <= r < |a| && 0 <= l < |a[r]| ==> a[r][l] == 0.0
    ensures Eval2From(a, m, x, y) == 0.0
    decreases |a| - m
  {
    if m < |a| {
      ZeroValue(a, m + 1, x, y);
      ZeroRowValue(a[m], 0, y);
    }
  }

  // ---------------------------------------------------------------------------------
  // The value of one entry G(i, j)
  // ---------------------------------------------------------------------------------

  /** c * f[m] for every row m: a polynomial in y times a bivariate one. */
  function MulRows(c: seq<real>, f: BiPoly): (r: BiPoly)
    ensures |r| == |f|
  {
    seq(|f|, m requires 0 <= m < |f| => Mul(c, f[m]))
  }

  /** a - b, rowwise. */
  function BiSub(a: BiPoly, b: BiPoly): (r: BiPoly)
    requires |a| == |b|
    ensures |r| == |a|
  {
    seq(|a|, m requires 0 <= m < |a| => Sub(a[m], b[m]))
  }

  /** Rows m, m + 1, ... of c * f evaluate to cv times those of f, cv being the value of c at y. */
  lemma {:induction false} MulRowsValue(c: seq<real>, f: BiPoly, m: nat, x: real, y: real, r: real, cv: real, fv: real)
    requires r == Eval2From(MulRows(c, f), m, x, y) && cv == EvalFrom(c, 0, y) && fv == Eval2From(f, m, x, y)
    ensures r == cv * fv
    decreases |f| - m
  {
    var rows := MulRows(c, f);
    if m < |f| {
      var rNext, fNext := Eval2From(rows, m + 1, x, y), Eval2From(f, m + 1, x, y);
      var row, fm := rows[m], f[m];
      var r0, f0 := EvalFrom(row, 0, y), EvalFrom(fm, 0, y);
      MulRowsValue(c, f, m + 1, x, y, rNext, cv, fNext);
      Eval2Step(rows, m, x, y, r, r0, rNext);
      Eval2Step(f, m, x, y, fv, f0, fNext);
      assert row == Mul(c, fm);
      EvalMul(c, fm, y, r0, cv, f0);
      RowProductStep(x, r, r0, rNext, cv, fv, f0, fNext);
    } else {
      ZeroProduct(r, fv, cv);
    }
  }

  lemma RowProductStep(x: real, r: real, r0: real, rNext: real, cv: real, fv: real, f0: real, fNext: real)
    requires r == r0 + x * rNext && fv == f0 + x * fNext && r0 == cv * f0 && rNext == cv * fNext
    ensures r == cv * fv
  {
    calc {
      r;
      cv * f0 + x * (cv * fNext);
      cv * (f0 + x * fNext);
    }
  }

  /** The value of a - b is the value of a minus the value of b. */
  lemma Eval2Sub(a: BiPoly, b: BiPoly, x: real, y: real, r: real, u: real, v: real)
    requires |a| == |b|
    requires r == Eval2From(BiSub(a, b), 0, x, y) && u == Eval2From(a, 0, x, y) && v == Eval2From(b, 0, x, y)
    ensures r == u - v
  {
    var diff := BiSub(a, b);
    forall k | 0 <= k < |diff|
      ensures EvalFrom(diff[k], 0, y) == 1.0 * EvalFrom(a[k], 0, y) + -1.0 * EvalFrom(b[k], 0, y)
    {
      EvalSub(a[k], b[k], 0, y);
    }
    LinearRows(diff, a, b, 1.0, -1.0, 0, x, y, r, u, v);
  }

  /**
   * B_j(y) * F_i - B_i(y) * F_j evaluates to u f1 - v f2, where u and v are the values of
   * B_j and B_i at y and f1 and f2 those of F_i and F_j at (x, y).
   */
  lemma GProductValue(bi: seq<real>, bj: seq<real>, fi: BiPoly, fj: BiPoly, x: real, y: real,
                      gv: real, u: real, v: real, f1: real, f2: real)
    requires |fi| == |fj|
    requires gv == Eval2From(GProduct(bi, bj, fi, fj), 0, x, y)
    requires u == EvalFrom(bj, 0, y) && v == EvalFrom(bi, 0, y)
    requires f1 == Eval2From(fi, 0, x, y) && f2 == Eval2From(fj, 0, x, y)
    ensures gv == u * f1 - v * f2
  {
    var left, right := MulRows(bj, fi), MulRows(bi, fj);
    assert GProduct(bi, bj, fi, fj) == BiSub(left, right);
    var lv, rv := Eval2From(left, 0, x, y), Eval2From(right, 0, x, y);
    Eval2Sub(left, right, x, y, gv, lv, rv);
    MulRowsValue(bj, fi, 0, x, y, lv, u, f1);
    MulRowsValue(bi, fj, 0, x, y, rv, v, f2);
  }

  /**
   * (x - y) G(i, j)(x, y) == B_i(x) B_j(y) - B_i(y) B_j(x): gv is the value of G(i, j) at
   * (x, y), and bix, biy, bjx, bjy those of B_i and B_j at x and at y.
   */
  lemma GEntryValue(basis: seq<seq<real>>, i: nat, j: nat, x: real, y: real,
                    gv: real, bix: real, biy: real, bjx: real, bjy: real)
    requires IsBasis(basis) && i < |basis| && j < |basis|
    requires gv == Eval2From(GEntry(basis, i, j), 0, x, y)
    requires bix == EvalFrom(basis[i], 0, x) && biy == EvalFrom(basis[i], 0, y)
    requires bjx == EvalFrom(basis[j], 0, x) && bjy == EvalFrom(basis[j], 0, y)
    ensures (x - y) * gv == bix * bjy - biy * bjx
  {
    var fi, fj := FMatrix(basis[i]), FMatrix(basis[j]);
    var f1, f2 := Eval2From(fi, 0, x, y), Eval2From(fj, 0, x, y);
    GProductValue(basis[i], basis[j], fi, fj, x, y, gv, bjy, biy, f1, f2);
    DividedDifference(basis[i], 0, x, y, f1, bix, biy);
    DividedDifference(basis[j], 0, x, y, f2, bjx, bjy);
    EntryStep(x, y, gv, bjy, biy, f1, f2, bix, bjx);
  }

  lemma EntryStep(x: real, y: real, gv: real, bjy: real, biy: real, f1: real, f2: real, bix: real, bjx: real)
    requires gv == bjy * f1 - biy * f2 && (x - y) * f1 == bix - biy && (x - y) * f2 == bjx - bjy
    ensures (x - y) * gv == bix * bjy - biy * bjx
  {
    calc {
      (x - y) * gv;
      bjy * ((x - y) * f1) - biy * ((x - y) * f2);
      bjy * (bix - biy) - biy * (bjx - bjy);
    }
  }

  // ---------------------------------------------------------------------------------
  // The value of dist_nt
  // ---------------------------------------------------------------------------------

  /** B_0(t), ..., B_n(t). */
  function Values(basis: seq<seq<real>>, t: real): (v: seq<real>)
    ensures |v| == |basis|
  {
    seq(|basis|, k requires 0 <= k < |basis| => EvalFrom(basis[k], 0, t))
  }

  /** v[0] + ... + v[k-1]. */
  function Sum(v: seq<real>, k: nat): real
    requires k <= |v|
  {
    if k == 0 then 0.0 else Sum(v, k - 1) + v[k - 1]
  }

  /** gamma[0] v[0] + ... + gamma[k-1] v[k-1]. */
  function Combination(gamma: seq<real>, v: seq<real>, k: nat): real
    requires k <= |v| && |gamma| == |v|
  {
    if k == 0 then 0.0 else Combination(gamma, v, k - 1) + gamma[k - 1] * v[k - 1]
  }

  /** S(t) = B_0(t) + ... + B_n(t). */
  function BasisSum(basis: seq<seq<real>>, t: real): real {
    Sum(Values(basis, t), |basis|)
  }

  /** gamma(t) = gamma[0] B_0(t) + ... + gamma[n] B_n(t): the spine component at t. */
  function SpineValue(basis: seq<seq<real>>, gamma: seq<real>, t: real): real
    requires |gamma| == |basis|
  {
    Combination(gamma, Values(basis, t), |basis|)
  }

  /** The value at (x, y) of the finished dist_nt of one component. */
  function DistanceNTAt(basis: seq<seq<real>>, gamma: seq<real>, x: real, y: real): real
    requires IsBasis(basis) && |gamma| == |basis|
  {
    GTableShape(basis);
    Eval2From(DistanceNT(GTable(basis), gamma), 0, x, y)
  }

  /** The value at (x, y) of the entry g[i][j]. */
  function EntryValue(g: seq<seq<BiPoly>>, i: nat, j: nat, x: real, y: real): real
    requires TableShape(g) && i < |g| && j < |g|
  {
    Eval2From(g[i][j], 0, x, y)
  }

  /**
   * Every entry of the table g behaves as G does: (x - y) g[i][j](x, y) == vx[i] vy[j] -
   * vy[i] vx[j], vx and vy holding the basis values at x and at y.
   */
  predicate EntryValues(g: seq<seq<BiPoly>>, x: real, y: real, vx: seq<real>, vy: seq<real>)
    requires TableShape(g)
  {
    |vx| == |g| && |vy| == |g| &&
    forall i, j {:trigger EntryValue(g, i, j, x, y)} :: 0 <= i < |g| && 0 <= j < |g| ==>
      (x - y) * EntryValue(g, i, j, x, y) == vx[i] * vy[j] - vy[i] * vx[j]
  }

  /** GEntryValue, for the entry as it sits in the table G. */
  lemma TableEntryValue(basis: seq<seq<real>>, g: seq<seq<BiPoly>>, i: nat, j: nat, x: real, y: real,
                        vx: seq<real>, vy: seq<real>)
    requires IsBasis(basis) && g == GTable(basis) && TableShape(g) && i < |basis| && j < |basis|
    requires vx == Values(basis, x) && vy == Values(basis, y)
    ensures (x - y) * EntryValue(g, i, j, x, y) == vx[i] * vy[j] - vy[i] * vx[j]
  {
    var gv := EntryValue(g, i, j, x, y);
    var bix, biy, bjx, bjy := vx[i], vy[i], vx[j], vy[j];
    GEntryValue(basis, i, j, x, y, gv, bix, biy, bjx, bjy);
  }

  /** The table G has the entry values that the double loop relies on. */
  lemma TableValues(basis: seq<seq<real>>, g: seq<seq<BiPoly>>, x: real, y: real, vx: seq<real>, vy: seq<real>)
    requires IsBasis(basis) && g == GTable(basis)
    requires vx == Values(basis, x) && vy == Values(basis, y)
    ensures TableShape(g) && EntryValues(g, x, y, vx, vy)
  {
    GTableShape(basis);
    forall i, j | 0 <= i < |g| && 0 <= j < |g|
      ensures (x - y) * EntryValue(g, i, j, x, y) == vx[i] * vy[j] - vy[i] * vx[j]
    {
      TableEntryValue(basis, g, i, j, x, y, vx, vy);
    }
  }

  /** One instance of EntryValues, over value parameters. */
  lemma EntryAt(g: seq<seq<BiPoly>>, x: real, y: real, vx: seq<real>, vy: seq<real>, i: nat, j: nat,
                gv: real, bix: real, biy: real, bjx: real, bjy: real)
    requires TableShape(g) && EntryValues(g, x, y, vx, vy) && i < |g| && j < |g|
    requires gv == Eval2From(g[i][j], 0, x, y)
    requires bix == vx[i] && biy == vy[i] && bjx == vx[j] && bjy == vy[j]
    ensures (x - y) * gv == bix * bjy - biy * bjx
  {
    assert gv == EntryValue(g, i, j, x, y);
  }

  /**
   * One step of the double loop, dist_nt += G(i, j) * gamma[i], for any table g: the value
   * grows from before to after vy gamma[i] times the value gv of g[i][j].
   */
  lemma PairValue(g: seq<seq<BiPoly>>, gamma: seq<real>, i: nat, j: nat, x: real, y: real,
                  c: real, before: real, after: real, gv: real)
    requires TableShape(g) && |gamma| == |g| && i < |g| && j < |g| && c == gamma[i]
    requires before == Eval2From(Accumulated(g, gamma, i, j), 0, x, y)
    requires after == Eval2From(Accumulated(g, gamma, i, j + 1), 0, x, y)
    requires gv == Eval2From(g[i][j], 0, x, y)
    ensures after == before + c * gv
  {
    var term := BiScale(c, g[i][j]);
    AccumulatedStep(g, gamma, i, j);
    var scaled := Eval2From(term, 0, x, y);
    Eval2Add(Accumulated(g, gamma, i, j), term, x, y, after, before, scaled);
    Eval2Scale(c, g[i][j], x, y, scaled, gv);
  }

  /**
   * One step of the double loop, over a table with G's entry values: times (x - y),
   * dist_nt grows from before to after vy gamma[i] (B_i(x) B_j(y) - B_i(y) B_j(x)).
   */
  lemma PairGrowth(g: seq<seq<BiPoly>>, gamma: seq<real>, i: nat, j: nat, x: real, y: real,
                   c: real, before: real, after: real, vx: seq<real>, vy: seq<real>,
                   bix: real, biy: real, bjx: real, bjy: real)
    requires TableShape(g) && EntryValues(g, x, y, vx, vy) && |gamma| == |g| && i < |g| && j < |g| && c == gamma[i]
    requires before == Eval2From(Accumulated(g, gamma, i, j), 0, x, y)
    requires after == Eval2From(Accumulated(g, gamma, i, j + 1), 0, x, y)
    requires bix == vx[i] && biy == vy[i] && bjx == vx[j] && bjy == vy[j]
    ensures (x - y) * after == (x - y) * before + c * (bix * bjy - biy * bjx)
  {
    var gv := Eval2From(g[i][j], 0, x, y);
    PairValue(g, gamma, i, j, x, y, c, before, after, gv);
    EntryAt(g, x, y, vx, vy, i, j, gv, bix, biy, bjx, bjy);
    PairStep(x, y, after, before, c, gv, bix, biy, bjx, bjy);
  }

  lemma PairStep(x: real, y: real, after: real, before: real, c: real, gv: real,
                 bix: real, biy: real, bjx: real, bjy: real)
    requires after == before + c * gv && (x - y) * gv == bix * bjy - biy * bjx
    ensures (x - y) * after == (x - y) * before + c * (bix * bjy - biy * bjx)
  {
    calc {
      (x - y) * after;
      (x - y) * before + c * ((x - y) * gv);
    }
  }

  /**
   * Within row i of the double loop: after the pairs (i, 0), ..., (i, j - 1), dist_nt has
   * grown, times (x - y), vy gamma[i] (B_i(x) S_j(y) - B_i(y) S_j(x)), S_j being the sum of
   * the first j basis values.
   */
  lemma {:induction false} RowValue(g: seq<seq<BiPoly>>, gamma: seq<real>, i: nat, j: nat, x: real, y: real,
                                    c: real, d0: real, dj: real, vx: seq<real>, vy: seq<real>,
                                    bix: real, biy: real, sx: real, sy: real)
    requires TableShape(g) && EntryValues(g, x, y, vx, vy) && |gamma| == |g| && i < |g| && j <= |g| && c == gamma[i]
    requires d0 == Eval2From(Accumulated(g, gamma, i, 0), 0, x, y)
    requires dj == Eval2From(Accumulated(g, gamma, i, j), 0, x, y)
    requires bix == vx[i] && biy == vy[i]
    requires sx == Sum(vx, j) && sy == Sum(vy, j)
    ensures (x - y) * dj == (x - y) * d0 + c * (bix * sy - biy * sx)
    decreases j
  {
    if j == 0 {
      RowBase(x, y, dj, d0, c, bix, biy, sx, sy);
    } else {
      var prev := Eval2From(Accumulated(g, gamma, i, j - 1), 0, x, y);
      var sxPrev, syPrev := Sum(vx, j - 1), Sum(vy, j - 1);
      var bjx, bjy := vx[j - 1], vy[j - 1];
      RowValue(g, gamma, i, j - 1, x, y, c, d0, prev, vx, vy, bix, biy, sxPrev, syPrev);
      PairGrowth(g, gamma, i, j - 1, x, y, c, prev, dj, vx, vy, bix, biy, bjx, bjy);
      RowStep(x, y, dj, d0, prev, c, bix, biy, bjx, bjy, sx, sy, sxPrev, syPrev);
    }
  }

  lemma RowBase(x: real, y: real, dj: real, d0: real, c: real, bix: real, biy: real, sx: real, sy: real)
    requires dj == d0 && sx == 0.0 && sy == 0.0
    ensures (x - y) * dj == (x - y) * d0 + c * (bix * sy - biy * sx)
  {
  }

  lemma RowStep(x: real, y: real, dj: real, d0: real, prev: real, c: real,
                bix: real, biy: real, bjx: real, bjy: real, sx: real, sy: real, sxPrev: real, syPrev: real)
    requires (x - y) * prev == (x - y) * d0 + c * (bix * syPrev - biy * sxPrev)
    requires (x - y) * dj == (x - y) * prev + c * (bix * bjy - biy * bjx)
    requires sx == sxPrev + bjx && sy == syPrev + bjy
    ensures (x - y) * dj == (x - y) * d0 + c * (bix * sy - biy * sx)
  {
    calc {
      (x - y) * dj;
      (x - y) * d0 + c * (bix * syPrev - biy * sxPrev) + c * (bix * bjy - biy * bjx);
      (x - y) * d0 + c * (bix * (syPrev + bjy) - biy * (sxPrev + bjx));
    }
  }

  /** A whole row i of the double loop, (i, 0) .. (i, n), which ends where row i + 1 starts. */
  lemma RowGrowth(g: seq<seq<BiPoly>>, gamma: seq<real>, i: nat, x: real, y: real,
                  c: real, before: real, after: real, vx: seq<real>, vy: seq<real>,
                  bix: real, biy: real, sx: real, sy: real)
    requires TableShape(g) && EntryValues(g, x, y, vx, vy) && |gamma| == |g| && i < |g| && c == gamma[i]
    requires before == Eval2From(Accumulated(g, gamma, i, 0), 0, x, y)
    requires after == Eval2From(Accumulated(g, gamma, i + 1, 0), 0, x, y)
    requires bix == vx[i] && biy == vy[i]
    requires sx == Sum(vx, |g|) && sy == Sum(vy, |g|)
    ensures (x - y) * after == (x - y) * before + c * (bix * sy - biy * sx)
  {
    AccumulatedNextRow(g, gamma, i);
    RowValue(g, gamma, i, |g|, x, y, c, before, after, vx, vy, bix, biy, sx, sy);
  }

  /**
   * Before row i of the double loop, (x - y) dist_nt(x, y) is cx S(y) - cy S(x), cx and cy
   * being the partial spine values over the first i basis values.
   */
  lemma {:induction false} RowsValue(g: seq<seq<BiPoly>>, gamma: seq<real>, i: nat, x: real, y: real,
                                     di: real, vx: seq<real>, vy: seq<real>, cx: real, cy: real, sx: real, sy: real)
    requires TableShape(g) && EntryValues(g, x, y, vx, vy) && |gamma| == |g| && i <= |g|
    requires di == Eval2From(Accumulated(g, gamma, i, 0), 0, x, y)
    requires cx == Combination(gamma, vx, i) && cy == Combination(gamma, vy, i)
    requires sx == Sum(vx, |g|) && sy == Sum(vy, |g|)
    ensures (x - y) * di == cx * sy - cy * sx
    decreases i
  {
    if i == 0 {
      RowsStart(g, gamma, x, y, di, cx, cy, sx, sy);
    } else {
      var prev := Eval2From(Accumulated(g, gamma, i - 1, 0), 0, x, y);
      var cxPrev, cyPrev := Combination(gamma, vx, i - 1), Combination(gamma, vy, i - 1);
      var bix, biy := vx[i - 1], vy[i - 1];
      var c := gamma[i - 1];
      RowsValue(g, gamma, i - 1, x, y, prev, vx, vy, cxPrev, cyPrev, sx, sy);
      RowGrowth(g, gamma, i - 1, x, y, c, prev, di, vx, vy, bix, biy, sx, sy);
      SpineStep(gamma, vx, i, c, bix, cxPrev, cx);
      SpineStep(gamma, vy, i, c, biy, cyPrev, cy);
      RowsStep(x, y, di, prev, c, bix, biy, sx, sy, cx, cy, cxPrev, cyPrev);
    }
  }

  /** Before the double loop, dist_nt is zero, and so are both partial spine values. */
  lemma RowsStart(g: seq<seq<BiPoly>>, gamma: seq<real>, x: real, y: real,
                  di: real, cx: real, cy: real, sx: real, sy: real)
    requires TableShape(g) && |gamma| == |g|
    requires di == Eval2From(Accumulated(g, gamma, 0, 0), 0, x, y)
    requires cx == 0.0 && cy == 0.0
    ensures (x - y) * di == cx * sy - cy * sx
  {
    AccumulatedStart(g, gamma);
    ZeroValue(ZeroDistance(g), 0, x, y);
    RowsBase(x, y, di, cx, cy, sx, sy);
  }

  lemma SpineStep(gamma: seq<real>, v: seq<real>, k: nat, c: real, b: real, prev: real, cur: real)
    requires 0 < k <= |v| && |gamma| == |v| && c == gamma[k - 1] && b == v[k - 1]
    requires prev == Combination(gamma, v, k - 1) && cur == Combination(gamma, v, k)
    ensures cur == prev + c * b
  {
  }

  lemma RowsBase(x: real, y: real, di: real, cx: real, cy: real, sx: real, sy: real)
    requires di == 0.0 && cx == 0.0 && cy == 0.0
    ensures (x - y) * di == cx * sy - cy * sx
  {
  }

  lemma RowsStep(x: real, y: real, di: real, prev: real, c: real, bix: real, biy: real, sx: real, sy: real,
                 cx: real, cy: real, cxPrev: real, cyPrev: real)
    requires (x - y) * prev == cxPrev * sy - cyPrev * sx
    requires (x - y) * di == (x - y) * prev + c * (bix * sy - biy * sx)
    requires cx == cxPrev + c * bix && cy == cyPrev + c * biy
    ensures (x - y) * di == cx * sy - cy * sx
  {
    calc {
      (x - y) * di;
      cxPrev * sy - cyPrev * sx + c * (bix * sy - biy * sx);
      (cxPrev + c * bix) * sy - (cyPrev + c * biy) * sx;
    }
  }

  /**
   * The value of dist_nt, for any basis: with d its value at (x, y), cx and cy the spine
   * component at x and at y, and sx and sy the sum of the basis polynomials at x and at y,
   * (x - y) d == cx sy - cy sx.
   */
  lemma DistanceNTValue(basis: seq<seq<real>>, gamma: seq<real>, x: real, y: real,
                        d: real, cx: real, cy: real, sx: real, sy: real)
    requires IsBasis(basis) && |gamma| == |basis|
    requires d == DistanceNTAt(basis, gamma, x, y)
    requires cx == SpineValue(basis, gamma, x) && cy == SpineValue(basis, gamma, y)
    requires sx == BasisSum(basis, x) && sy == BasisSum(basis, y)
    ensures (x - y) * d == cx * sy - cy * sx
  {
    var g, vx, vy := GTable(basis), Values(basis, x), Values(basis, y);
    TableValues(basis, g, x, y, vx, vy);
    RowsValue(g, gamma, |g|, x, y, d, vx, vy, cx, cy, sx, sy);
  }

  /**
   * For a basis that sums to one at x and at y, as the Bernstein basis does everywhere,
   * dist_nt is the divided difference of the spine component: (x - y) d == cx - cy, so
   * d == (cx - cy) / (x - y) wherever x != y.
   */
  lemma DistanceNTDivided(basis: seq<seq<real>>, gamma: seq<real>, x: real, y: real, d: real, cx: real, cy: real)
    requires IsBasis(basis) && |gamma| == |basis|
    requires BasisSum(basis, x) == 1.0 && BasisSum(basis, y) == 1.0
    requires d == DistanceNTAt(basis, gamma, x, y)
    requires cx == SpineValue(basis, gamma, x) && cy == SpineValue(basis, gamma, y)
    ensures (x - y) * d == cx - cy
    ensures x != y ==> d == (cx - cy) / (x - y)
  {
    var sx, sy := BasisSum(basis, x), BasisSum(basis, y);
    DistanceNTValue(basis, gamma, x, y, d, cx, cy, sx, sy);
    UnitSums(x, y, d, cx, cy, sx, sy);
    if x != y {
      Quotient(x, y, d, cx, cy);
    }
  }

  lemma UnitSums(x: real, y: real, d: real, cx: real, cy: real, sx: real, sy: real)
    requires (x - y) * d == cx * sy - cy * sx && sx == 1.0 && sy == 1.0
    ensures (x - y) * d == cx - cy
  {
  }

  lemma Quotient(x: real, y: real, d: real, cx: real, cy: real)
    requires x != y && (x - y) * d == cx - cy
    ensures d == (cx - cy) / (x - y)
  {
  }
}
