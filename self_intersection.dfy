/**
 * The coefficient construction of BLRCanalSurface (a Bezier spine with a radius linearly
 * interpolated between r0 and r1):
 *   - initGlobalSelfIntersectionData: the matrices F_i of the divided differences of the
 *     Bernstein basis polynomials B_i and the table G(i, j) = B_j(y) F_i - B_i(y) F_j;
 *   - computeGlobalSelfIntersectionSystem: the distance vector dist_nt, accumulated from
 *     zero as the double sum of G(i, j) * gamma_c[i];
 *   - computeIntersectionSystem: the distance vector of two tubes, entry (i, j) being
 *     gamma_c[i] - delta_c[j];
 *   - getMinRadius / getMaxRadius.
 *
 * Polynomials are exact, in the power basis (PowerPoly). The power coefficients of the
 * Bernstein basis polynomials of degree n, which the polynomial engine supplies, are an
 * input `basis` (n + 1 polynomials of n + 1 coefficients each).
 */
module SelfIntersection {
  import opened PowerPoly

  /** A bivariate polynomial: row m holds the coefficients of x^m y^l, l = 0, 1, ... */
  type BiPoly = seq<seq<real>>

  /** n + 1 polynomials of n + 1 coefficients each, for a degree n >= 1. */
  predicate IsBasis(basis: seq<seq<real>>) {
    |basis| >= 2 && forall i :: 0 <= i < |basis| ==> |basis[i]| == |basis|
  }

  // ---------------------------------------------------------------------------------
  // Bivariate arithmetic
  // ---------------------------------------------------------------------------------

  /** The zero polynomial with the given numbers of rows and columns. */
  function ZeroBi(rows: nat, cols: nat): (z: BiPoly)
    ensures |z| == rows
  {
    seq(rows, m requires 0 <= m < rows => seq(cols, l requires 0 <= l < cols => 0.0))
  }

  /** a + b, rowwise; both have the same number of rows. */
  function BiAdd(a: BiPoly, b: BiPoly): (r: BiPoly)
    requires |a| == |b|
    ensures |r| == |a|
  {
    seq(|a|, m requires 0 <= m < |a| => Add(a[m], b[m]))
  }

  /** s * a */
  function BiScale(s: real, a: BiPoly): (r: BiPoly)
    ensures |r| == |a|
  {
    seq(|a|, m requires 0 <= m < |a| => Scale(s, a[m]))
  }

  // ---------------------------------------------------------------------------------
  // The table G
  // ---------------------------------------------------------------------------------

  /** B_j(y) * F_i - B_i(y) * F_j, row by row, for F_i and F_j of the same shape. */
  function GProduct(bi: seq<real>, bj: seq<real>, fi: BiPoly, fj: BiPoly): (r: BiPoly)
    requires |fi| == |fj|
    ensures |r| == |fi|
  {
    seq(|fi|, m requires 0 <= m < |fi| => Sub(Mul(bj, fi[m]), Mul(bi, fj[m])))
  }

  /** G(i, j) of initGlobalSelfIntersectionData. */
  function GEntry(basis: seq<seq<real>>, i: nat, j: nat): (g: BiPoly)
    requires IsBasis(basis) && i < |basis| && j < |basis|
    ensures |g| == |basis| - 1
  {
    GProduct(basis[i], basis[j], FMatrix(basis[i]), FMatrix(basis[j]))
  }

  /** The whole table, G(i, j) for i, j = 0..n. */
  function GTable(basis: seq<seq<real>>): (g: seq<seq<BiPoly>>)
    requires IsBasis(basis)
    ensures |g| == |basis|
  {
    seq(|basis|, i requires 0 <= i < |basis| =>
      seq(|basis|, j requires 0 <= j < |basis| => GEntry(basis, i, j)))
  }

  /** A bivariate polynomial of n rows of 2n coefficients: x-degree n - 1, y-degree 2n - 1. */
  predicate HasShape(d: BiPoly, n: nat) {
    |d| == n && forall m :: 0 <= m < n ==> |d[m]| == 2 * n
  }

  /** An (n + 1) x (n + 1) table whose entries all have n rows of 2n coefficients, n >= 1. */
  predicate TableShape(g: seq<seq<BiPoly>>) {
    |g| >= 2 && forall i :: 0 <= i < |g| ==> |g[i]| == |g| && forall j :: 0 <= j < |g| ==> HasShape(g[i][j], |g| - 1)
  }

  /** Each G(i, j) has n rows of 2n coefficients, as F has n x n and B_i has n + 1. */
  lemma GTableShape(basis: seq<seq<real>>)
    requires IsBasis(basis)
    ensures TableShape(GTable(basis))
  {
    var n := |basis| - 1;
    forall i, j, m | 0 <= i < |basis| && 0 <= j < |basis| && 0 <= m < n
      ensures |GEntry(basis, i, j)[m]| == 2 * n
    {
      assert |FMatrix(basis[i])[m]| == n && |FMatrix(basis[j])[m]| == n;
      assert |Mul(basis[j], FMatrix(basis[i])[m])| == 2 * n;
      assert |Mul(basis[i], FMatrix(basis[j])[m])| == 2 * n;
    }
  }

  /**
   * initGlobalSelfIntersectionData. For each basis polynomial the coefficient loop fills
   * F_i; then G(i, j) is formed from B_i, B_j, F_i and F_j for every pair.
   */
  method InitGlobalSelfIntersectionData(basis: seq<seq<real>>) returns (g: seq<seq<BiPoly>>)
    requires IsBasis(basis)
    ensures g == GTable(basis)
  {
    var f := DividedDifferenceMatrices(basis);
    g := [];
    var i := 0;
    while i < |basis|
      invariant 0 <= i <= |basis| && |g| == i
      invariant forall k :: 0 <= k < i ==> g[k] == GTable(basis)[k]
    {
      var row := GRow(basis, f, i);
      g := g + [row];
      i := i + 1;
    }
  }

  /** The first loop of initGlobalSelfIntersectionData: F_i for i = 0..n. */
  method DividedDifferenceMatrices(basis: seq<seq<real>>) returns (f: seq<BiPoly>)
    requires IsBasis(basis)
    ensures |f| == |basis| && forall k :: 0 <= k < |basis| ==> f[k] == FMatrix(basis[k])
  {
    f := [];
    var i := 0;
    while i < |basis|
      invariant 0 <= i <= |basis| && |f| == i
      invariant forall k :: 0 <= k < i ==> f[k] == FMatrix(basis[k])
    {
      var coeffs := PowerCoeffMatrix(basis[i]);
      PowerCoeffRows(basis[i], coeffs);
      f := f + [Rows(coeffs)];
      i := i + 1;
    }
  }

  /** Row i of the second loop: G(i, j) for j = 0..n. */
  method GRow(basis: seq<seq<real>>, f: seq<BiPoly>, i: nat) returns (row: seq<BiPoly>)
    requires IsBasis(basis) && i < |basis|
    requires |f| == |basis| && forall k :: 0 <= k < |basis| ==> f[k] == FMatrix(basis[k])
    ensures row == GTable(basis)[i]
  {
    row := [];
    var j := 0;
    while j < |basis|
      invariant 0 <= j <= |basis| && |row| == j
      invariant forall k :: 0 <= k < j ==> row[k] == GEntry(basis, i, k)
    {
      row := row + [GProduct(basis[i], basis[j], f[i], f[j])];
      j := j + 1;
    }
  }

  /** G(i, i) is the zero polynomial. */
  lemma GDiagonalZero(basis: seq<seq<real>>, i: nat, m: nat, l: nat)
    requires IsBasis(basis) && i < |basis|
    requires m < |GEntry(basis, i, i)| && l < |GEntry(basis, i, i)[m]|
    ensures GEntry(basis, i, i)[m][l] == 0.0
  {
  }

  /** G(i, j) == -G(j, i), coefficient by coefficient. */
  lemma GAntisymmetric(basis: seq<seq<real>>, i: nat, j: nat, m: nat, l: nat)
    requires IsBasis(basis) && i < |basis| && j < |basis|
    requires m < |basis| - 1 && l < |GEntry(basis, i, j)[m]|
    ensures |GEntry(basis, j, i)[m]| == |GEntry(basis, i, j)[m]|
    ensures GEntry(basis, i, j)[m][l] == -GEntry(basis, j, i)[m][l]
  {
    var n := |basis| - 1;
    assert |FMatrix(basis[i])[m]| == n && |FMatrix(basis[j])[m]| == n;
  }

  // ---------------------------------------------------------------------------------
  // dist_nt: the single-tube distance vector
  // ---------------------------------------------------------------------------------

  /** The zero polynomial dist_nt starts from, shaped like the entries of the table. */
  function ZeroDistance(g: seq<seq<BiPoly>>): (z: BiPoly)
    requires TableShape(g)
    ensures HasShape(z, |g| - 1)
  {
    ZeroBi(|g| - 1, 2 * (|g| - 1))
  }

  /**
   * Coefficient (m, l) of dist_nt after the pairs (0, 0), ..., (i, j - 1) of the double
   * loop, in row-major order, for one component with Bernstein coefficients gamma: the sum
   * of gamma[p] times coefficient (m, l) of G(p, q) over those pairs.
   */
  function DistanceCoeff(g: seq<seq<BiPoly>>, gamma: seq<real>, i: nat, j: nat, m: nat, l: nat): real
    requires TableShape(g) && |gamma| == |g|
    requires i <= |g| && j <= |g| && (i == |g| ==> j == 0)
    requires m < |g| - 1 && l < 2 * (|g| - 1)
    decreases i, j
  {
    if j == 0 then
      if i == 0 then 0.0 else DistanceCoeff(g, gamma, i - 1, |g|, m, l)
    else
      DistanceCoeff(g, gamma, i, j - 1, m, l) + gamma[i] * g[i][j - 1][m][l]
  }

  /** dist_nt after the pairs (0, 0), ..., (i, j - 1), coefficient by coefficient. */
  function Accumulated(g: seq<seq<BiPoly>>, gamma: seq<real>, i: nat, j: nat): (d: BiPoly)
    requires TableShape(g) && |gamma| == |g|
    requires i <= |g| && j <= |g| && (i == |g| ==> j == 0)
    ensures HasShape(d, |g| - 1)
  {
    var n := |g| - 1;
    seq(n, m requires 0 <= m < n => seq(2 * n, l requires 0 <= l < 2 * n => DistanceCoeff(g, gamma, i, j, m, l)))
  }

  /** The full double sum. */
  function DistanceNT(g: seq<seq<BiPoly>>, gamma: seq<real>): (d: BiPoly)
    requires TableShape(g) && |gamma| == |g|
    ensures HasShape(d, |g| - 1)
  {
    Accumulated(g, gamma, |g|, 0)
  }

  /** Before the loop: dist_nt is the zero polynomial. */
  lemma AccumulatedStart(g: seq<seq<BiPoly>>, gamma: seq<real>)
    requires TableShape(g) && |gamma| == |g|
    ensures ZeroDistance(g) == Accumulated(g, gamma, 0, 0)
  {
    var z, a := ZeroDistance(g), Accumulated(g, gamma, 0, 0);
    forall m | 0 <= m < |z|
      ensures z[m] == a[m]
    {
      assert forall l :: 0 <= l < |z[m]| ==> z[m][l] == a[m][l];
    }
  }

  /** dist_nt += G(i, j) * gamma[i] moves the row-major sum on by the pair (i, j). */
  lemma AccumulatedStep(g: seq<seq<BiPoly>>, gamma: seq<real>, i: nat, j: nat)
    requires TableShape(g) && |gamma| == |g| && i < |g| && j < |g|
    ensures BiAdd(Accumulated(g, gamma, i, j), BiScale(gamma[i], g[i][j])) == Accumulated(g, gamma, i, j + 1)
  {
    var prev, term := Accumulated(g, gamma, i, j), BiScale(gamma[i], g[i][j]);
    var sum, next := BiAdd(prev, term), Accumulated(g, gamma, i, j + 1);
    forall m | 0 <= m < |sum|
      ensures sum[m] == next[m]
    {
      assert |term[m]| == |prev[m]|;
      forall l | 0 <= l < |next[m]|
        ensures sum[m][l] == next[m][l]
      {
        assert sum[m][l] == prev[m][l] + gamma[i] * g[i][j][m][l];
      }
    }
  }

  /** The end of row i is the start of row i + 1. */
  lemma AccumulatedNextRow(g: seq<seq<BiPoly>>, gamma: seq<real>, i: nat)
    requires TableShape(g) && |gamma| == |g| && i < |g|
    ensures Accumulated(g, gamma, i, |g|) == Accumulated(g, gamma, i + 1, 0)
  {
    var a, b := Accumulated(g, gamma, i, |g|), Accumulated(g, gamma, i + 1, 0);
    forall m | 0 <= m < |a|
      ensures a[m] == b[m]
    {
      assert forall l :: 0 <= l < |a[m]| ==> a[m][l] == b[m][l];
    }
  }

  predicate IsSpine(gamma: seq<seq<real>>, size: nat) {
    |gamma| == 3 && forall c :: 0 <= c < 3 ==> |gamma[c]| == size
  }

  /**
   * The dist_nt loop of computeGlobalSelfIntersectionSystem: three zero polynomials, then
   * for i, j = 0..n each component c receives G(i, j) * gamma_c[i].
   */
  method GlobalDistance(g: seq<seq<BiPoly>>, gamma: seq<seq<real>>) returns (dist: seq<BiPoly>)
    requires TableShape(g) && IsSpine(gamma, |g|)
    ensures |dist| == 3 && forall c :: 0 <= c < 3 ==> dist[c] == DistanceNT(g, gamma[c])
  {
    var size := |g|;
    var zero := ZeroDistance(g);
    AccumulatedStart(g, gamma[0]);
    AccumulatedStart(g, gamma[1]);
    AccumulatedStart(g, gamma[2]);
    dist := [zero, zero, zero];
    var i := 0;
    while i < size
      invariant 0 <= i <= size
      invariant |dist| == 3 && forall c :: 0 <= c < 3 ==> dist[c] == Accumulated(g, gamma[c], i, 0)
    {
      var j := 0;
      while j < size
        invariant 0 <= j <= size
        invariant |dist| == 3 && forall c :: 0 <= c < 3 ==> dist[c] == Accumulated(g, gamma[c], i, j)
      {
        AccumulatedStep(g, gamma[0], i, j);
        AccumulatedStep(g, gamma[1], i, j);
        AccumulatedStep(g, gamma[2], i, j);
        dist := [
          BiAdd(dist[0], BiScale(gamma[0][i], g[i][j])),
          BiAdd(dist[1], BiScale(gamma[1][i], g[i][j])),
          BiAdd(dist[2], BiScale(gamma[2][i], g[i][j]))];
        j := j + 1;
      }
      AccumulatedNextRow(g, gamma[0], i);
      AccumulatedNextRow(g, gamma[1], i);
      AccumulatedNextRow(g, gamma[2], i);
      i := i + 1;
    }
  }

  // ---------------------------------------------------------------------------------
  // Sums over an antisymmetric table
  // ---------------------------------------------------------------------------------

  /**
   * The terms dist_nt sums for coefficient (m, l), as an (n + 1) x (n + 1) matrix: entry
   * (p, q) is gamma[p] times coefficient (m, l) of G(p, q).
   */
  function WeightedMatrix(g: seq<seq<BiPoly>>, gamma: seq<real>, m: nat, l: nat): (a: seq<seq<real>>)
    requires TableShape(g) && |gamma| == |g| && m < |g| - 1 && l < 2 * (|g| - 1)
    ensures Square(a) && |a| == |g|
  {
    seq(|g|, p requires 0 <= p < |g| => seq(|g|, q requires 0 <= q < |g| => gamma[p] * g[p][q][m][l]))
  }

  predicate Square(a: seq<seq<real>>) {
    forall p :: 0 <= p < |a| ==> |a[p]| == |a|
  }

  predicate Antisymmetric(a: seq<seq<real>>) {
    Square(a) && forall p, q :: 0 <= p < |a| && 0 <= q < |a| ==> a[p][q] == -a[q][p]
  }

  /** a[p][0] + ... + a[p][k - 1] */
  function RowSum(a: seq<seq<real>>, p: nat, k: nat): real
    requires Square(a) && p < |a| && k <= |a|
  {
    if k == 0 then 0.0 else RowSum(a, p, k - 1) + a[p][k - 1]
  }

  /** a[0][q] + ... + a[k - 1][q] */
  function ColumnSum(a: seq<seq<real>>, q: nat, k: nat): real
    requires Square(a) && q < |a| && k <= |a|
  {
    if k == 0 then 0.0 else ColumnSum(a, q, k - 1) + a[k - 1][q]
  }

  /** The sum of the block of rows 0..k-1 and columns 0..w-1. */
  function BlockSum(a: seq<seq<real>>, k: nat, w: nat): real
    requires Square(a) && k <= |a| && w <= |a|
  {
    if k == 0 then 0.0 else BlockSum(a, k - 1, w) + RowSum(a, k - 1, w)
  }

  /** The sum of the entries (0, 0), ..., (i, j - 1) in row-major order, as the dist_nt loop visits them. */
  function RowMajorSum(a: seq<seq<real>>, i: nat, j: nat): real
    requires Square(a) && i <= |a| && j <= |a| && (i == |a| ==> j == 0)
    decreases i, j
  {
    if j == 0 then
      if i == 0 then 0.0 else RowMajorSum(a, i - 1, |a|)
    else
      RowMajorSum(a, i, j - 1) + a[i][j - 1]
  }

  /** Row-major order visits the complete rows 0..i-1, then columns 0..j-1 of row i. */
  lemma {:induction false} RowMajorBlock(a: seq<seq<real>>, i: nat, j: nat)
    requires Square(a) && i < |a| && j <= |a|
    ensures RowMajorSum(a, i, j) == BlockSum(a, i, |a|) + RowSum(a, i, j)
    decreases i, j
  {
    if j > 0 {
      RowMajorBlock(a, i, j - 1);
    } else if i > 0 {
      RowMajorBlock(a, i - 1, |a|);
    }
  }

  /** Widening a block by column w adds the first k entries of that column. */
  lemma {:induction false} BlockColumn(a: seq<seq<real>>, k: nat, w: nat)
    requires Square(a) && k <= |a| && w < |a|
    ensures BlockSum(a, k, w + 1) == BlockSum(a, k, w) + ColumnSum(a, w, k)
  {
    if k > 0 {
      BlockColumn(a, k - 1, w);
    }
  }

  /** In an antisymmetric matrix, the start of row k cancels the start of column k. */
  lemma {:induction false} RowColumnCancel(a: seq<seq<real>>, k: nat, j: nat)
    requires Antisymmetric(a) && k < |a| && j <= |a|
    ensures RowSum(a, k, j) + ColumnSum(a, k, j) == 0.0
  {
    if j > 0 {
      RowColumnCancel(a, k, j - 1);
      assert a[k][j - 1] == -a[j - 1][k];
    }
  }

  /** Every leading square block of an antisymmetric matrix sums to zero. */
  lemma {:induction false} SquareBlockZero(a: seq<seq<real>>, k: nat)
    requires Antisymmetric(a) && k <= |a|
    ensures BlockSum(a, k, k) == 0.0
  {
    if k > 0 {
      SquareBlockZero(a, k - 1);
      BlockColumn(a, k - 1, k - 1);
      RowColumnCancel(a, k - 1, k - 1);
      assert a[k - 1][k - 1] == -a[k - 1][k - 1];
    }
  }

  /** The whole row-major sum of an antisymmetric matrix is zero. */
  lemma AntisymmetricSumZero(a: seq<seq<real>>)
    requires Antisymmetric(a) && |a| > 0
    ensures RowMajorSum(a, |a|, 0) == 0.0
  {
    RowMajorBlock(a, |a| - 1, |a|);
    SquareBlockZero(a, |a|);
  }

  /** Coefficient (m, l) of dist_nt is the row-major sum of the weighted coefficients (m, l) of G. */
  lemma {:induction false} DistanceCoeffSum(g: seq<seq<BiPoly>>, gamma: seq<real>, i: nat, j: nat, m: nat, l: nat)
    requires TableShape(g) && |gamma| == |g|
    requires i <= |g| && j <= |g| && (i == |g| ==> j == 0) && m < |g| - 1 && l < 2 * (|g| - 1)
    ensures DistanceCoeff(g, gamma, i, j, m, l) == RowMajorSum(WeightedMatrix(g, gamma, m, l), i, j)
    decreases i, j
  {
    if j > 0 {
      DistanceCoeffSum(g, gamma, i, j - 1, m, l);
    } else if i > 0 {
      DistanceCoeffSum(g, gamma, i - 1, |g|, m, l);
    }
  }

  /** Coefficient (m, l) of G(p, q) is minus coefficient (m, l) of G(q, p), for all p, q. */
  predicate CoeffAntisymmetric(g: seq<seq<BiPoly>>, m: nat, l: nat)
    requires TableShape(g) && m < |g| - 1 && l < 2 * (|g| - 1)
  {
    forall p, q :: 0 <= p < |g| && 0 <= q < |g| ==> g[p][q][m][l] == -g[q][p][m][l]
  }

  /** The table G is antisymmetric, coefficient by coefficient. */
  lemma GTableAntisymmetric(basis: seq<seq<real>>, m: nat, l: nat)
    requires IsBasis(basis) && m < |basis| - 1 && l < 2 * (|basis| - 1)
    ensures TableShape(GTable(basis)) && CoeffAntisymmetric(GTable(basis), m, l)
  {
    GTableShape(basis);
    forall p, q | 0 <= p < |basis| && 0 <= q < |basis|
      ensures GTable(basis)[p][q][m][l] == -GTable(basis)[q][p][m][l]
    {
      GAntisymmetric(basis, p, q, m, l);
    }
  }

  /**
   * With all coefficients of the component equal, the weighted coefficients (m, l) of an
   * antisymmetric table form an antisymmetric matrix.
   */
  lemma WeightedAntisymmetric(g: seq<seq<BiPoly>>, gamma: seq<real>, c: real, m: nat, l: nat)
    requires TableShape(g) && |gamma| == |g| && forall p :: 0 <= p < |gamma| ==> gamma[p] == c
    requires m < |g| - 1 && l < 2 * (|g| - 1) && CoeffAntisymmetric(g, m, l)
    ensures Antisymmetric(WeightedMatrix(g, gamma, m, l))
  {
    var a := WeightedMatrix(g, gamma, m, l);
    forall p, q | 0 <= p < |a| && 0 <= q < |a|
      ensures a[p][q] == -a[q][p]
    {
      OppositeMultiples(gamma[p], gamma[q], g[p][q][m][l], g[q][p][m][l]);
    }
  }

  lemma OppositeMultiples(s: real, t: real, x: real, y: real)
    requires s == t && x == -y
    ensures s * x == -(t * y)
  {
  }

  /**
   * A spine component whose control coordinates are all equal has the zero dist_nt: the
   * contributions G(i, j) and G(j, i) cancel and G(i, i) vanishes.
   */
  lemma DistanceNTConstant(basis: seq<seq<real>>, gamma: seq<real>, c: real)
    requires IsBasis(basis) && |gamma| == |basis| && forall p :: 0 <= p < |gamma| ==> gamma[p] == c
    ensures TableShape(GTable(basis)) && DistanceNT(GTable(basis), gamma) == ZeroDistance(GTable(basis))
  {
    GTableShape(basis);
    var g := GTable(basis);
    var d, z := DistanceNT(g, gamma), ZeroDistance(g);
    forall m | 0 <= m < |d|
      ensures d[m] == z[m]
    {
      forall l | 0 <= l < |d[m]|
        ensures d[m][l] == 0.0
      {
        GTableAntisymmetric(basis, m, l);
        WeightedAntisymmetric(g, gamma, c, m, l);
        DistanceCoeffSum(g, gamma, |g|, 0, m, l);
        AntisymmetricSumZero(WeightedMatrix(g, gamma, m, l));
      }
    }
  }

  // ---------------------------------------------------------------------------------
  // The distance vector of two tubes
  // ---------------------------------------------------------------------------------

  /** Coefficient (i, j) of the distance of two curve components: gamma[i] - delta[j]. */
  function PairDistanceMatrix(gamma: seq<real>, delta: seq<real>): (d: seq<seq<real>>)
    ensures |d| == |gamma| && forall i :: 0 <= i < |d| ==> |d[i]| == |delta|
  {
    seq(|gamma|, i requires 0 <= i < |gamma| =>
      seq(|delta|, j requires 0 <= j < |delta| => gamma[i] - delta[j]))
  }

  /**
   * The coefficient loop of computeIntersectionSystem: one double loop writes entry (i, j)
   * of all three components.
   */
  method PairDistance(gamma: seq<seq<real>>, delta: seq<seq<real>>)
    returns (d0: array2<real>, d1: array2<real>, d2: array2<real>)
    requires |gamma| == 3 && IsSpine(gamma, |gamma[0]|) && IsSpine(delta, |gamma[0]|)
    ensures fresh(d0) && fresh(d1) && fresh(d2)
    ensures Rows(d0) == PairDistanceMatrix(gamma[0], delta[0])
    ensures Rows(d1) == PairDistanceMatrix(gamma[1], delta[1])
    ensures Rows(d2) == PairDistanceMatrix(gamma[2], delta[2])
  {
    var g0, g1, g2, e0, e1, e2 := gamma[0], gamma[1], gamma[2], delta[0], delta[1], delta[2];
    var size := |g0|;
    d0 := new real[size, size]((i, j) => 0.0);
    d1 := new real[size, size]((i, j) => 0.0);
    d2 := new real[size, size]((i, j) => 0.0);
    var i := 0;
    while i < size
      invariant 0 <= i <= size
      invariant d0 != d1 && d1 != d2 && d0 != d2
      invariant forall p, q :: 0 <= p < i && 0 <= q < size ==> d0[p, q] == g0[p] - e0[q]
      invariant forall p, q :: 0 <= p < i && 0 <= q < size ==> d1[p, q] == g1[p] - e1[q]
      invariant forall p, q :: 0 <= p < i && 0 <= q < size ==> d2[p, q] == g2[p] - e2[q]
    {
      var j := 0;
      while j < size
        invariant 0 <= j <= size
        invariant forall p, q :: (0 <= p < i && 0 <= q < size) || (p == i && 0 <= q < j) ==>
          d0[p, q] == g0[p] - e0[q]
        invariant forall p, q :: (0 <= p < i && 0 <= q < size) || (p == i && 0 <= q < j) ==>
          d1[p, q] == g1[p] - e1[q]
        invariant forall p, q :: (0 <= p < i && 0 <= q < size) || (p == i && 0 <= q < j) ==>
          d2[p, q] == g2[p] - e2[q]
      {
        d0[i, j] := g0[i] - e0[j];
        d1[i, j] := g1[i] - e1[j];
        d2[i, j] := g2[i] - e2[j];
        j := j + 1;
      }
      i := i + 1;
    }
    RowsOfFilled(d0, PairDistanceMatrix(g0, e0));
    RowsOfFilled(d1, PairDistanceMatrix(g1, e1));
    RowsOfFilled(d2, PairDistanceMatrix(g2, e2));
  }

  lemma RowsOfFilled(a: array2<real>, m: seq<seq<real>>)
    requires |m| == a.Length0 && forall i :: 0 <= i < |m| ==> |m[i]| == a.Length1
    requires forall i, j :: 0 <= i < a.Length0 && 0 <= j < a.Length1 ==> a[i, j] == m[i][j]
    ensures Rows(a) == m
  {
    var rows := Rows(a);
    forall i | 0 <= i < |m|
      ensures rows[i] == m[i]
    {
      assert forall j :: 0 <= j < a.Length1 ==> rows[i][j] == a[i, j];
    }
  }

  // ---------------------------------------------------------------------------------
  // The class
  // ---------------------------------------------------------------------------------

  /** n zero coefficients. */
  function Zeros(n: nat): seq<real> {
    seq(n, _ => 0.0)
  }

  class BLRCanalSurface {
    /** Bernstein coefficients (control point coordinates) of the three spine components. */
    var spine: seq<seq<real>>
    /** The radii at the two ends, which the linear radius interpolator returns as a pair. */
    var r0: real
    var r1: real
    /** The power coefficients of the Bernstein basis of the spine degree. */
    var basis: seq<seq<real>>
    /** The precomputed table G. */
    var g: seq<seq<BiPoly>>

    ghost predicate Valid()
      reads this
    {
      IsBasis(basis) && IsSpine(spine, |basis|) && g == GTable(basis)
    }

    /**
     * The default constructor: the base class's zero spine, that is three polynomials of the
     * spine degree with all coefficients zero, and G computed for that degree. The radius
     * interpolator is default-constructed, so the radii are left unconstrained.
     */
    constructor Default(basis: seq<seq<real>>)
      requires IsBasis(basis)
      ensures Valid() && this.basis == basis
      ensures spine == [Zeros(|basis|), Zeros(|basis|), Zeros(|basis|)]
    {
      var table := InitGlobalSelfIntersectionData(basis);
      var zero := Zeros(|basis|);
      spine, this.basis, g := [zero, zero, zero], basis, table;
    }

    /** From the three component polynomials and the two radii. */
    constructor FromComponents(components: seq<seq<real>>, r0: real, r1: real, basis: seq<seq<real>>)
      requires IsBasis(basis) && IsSpine(components, |basis|)
      ensures Valid()
      ensures spine == components && this.r0 == r0 && this.r1 == r1 && this.basis == basis
    {
      var table := InitGlobalSelfIntersectionData(basis);
      spine, this.r0, this.r1, this.basis, g := components, r0, r1, basis, table;
    }

    /** From control points: component c of the spine has the c-th coordinates as coefficients. */
    constructor FromControlPoints(points: seq<(real, real, real)>, r0: real, r1: real, basis: seq<seq<real>>)
      requires IsBasis(basis) && |points| == |basis|
      ensures Valid() && this.r0 == r0 && this.r1 == r1 && this.basis == basis
      ensures forall i :: 0 <= i < |points| ==>
        spine[0][i] == points[i].0 && spine[1][i] == points[i].1 && spine[2][i] == points[i].2
    {
      var table := InitGlobalSelfIntersectionData(basis);
      spine := [
        seq(|points|, i requires 0 <= i < |points| => points[i].0),
        seq(|points|, i requires 0 <= i < |points| => points[i].1),
        seq(|points|, i requires 0 <= i < |points| => points[i].2)];
      this.r0, this.r1, this.basis, g := r0, r1, basis, table;
    }

    /** The copy constructor copies the curve and the radii and recomputes G. */
    constructor Copy(delta: BLRCanalSurface)
      requires delta.Valid()
      ensures Valid()
      ensures spine == delta.spine && r0 == delta.r0 && r1 == delta.r1 && basis == delta.basis
    {
      var table := InitGlobalSelfIntersectionData(delta.basis);
      spine, r0, r1, basis, g := delta.spine, delta.r0, delta.r1, delta.basis, table;
    }

    /**
     * Assignment copies the curve and the radii but not G, which is kept: both surfaces
     * have the same degree, so their tables agree.
     */
    method Assign(delta: BLRCanalSurface)
      requires Valid() && delta.Valid() && delta.basis == basis
      modifies this
      ensures Valid()
      ensures spine == old(delta.spine) && r0 == old(delta.r0) && r1 == old(delta.r1)
      ensures basis == old(basis) && g == old(g)
    {
      spine, r0, r1 := delta.spine, delta.r0, delta.r1;
    }

    /** getMinRadius: the smaller of the two radii. */
    function GetMinRadius(): (r: real)
      reads this
      ensures r <= r0 && r <= r1 && (r == r0 || r == r1)
    {
      if r0 <= r1 then r0 else r1
    }

    /** getMaxRadius: the larger of the two radii. */
    function GetMaxRadius(): (r: real)
      reads this
      ensures r >= r0 && r >= r1 && (r == r0 || r == r1)
    {
      if r0 <= r1 then r1 else r0
    }

    /** dist_nt of computeGlobalSelfIntersectionSystem, from the stored table. */
    method ComputeGlobalDistance() returns (dist: seq<BiPoly>)
      requires Valid()
      ensures TableShape(GTable(basis))
      ensures |dist| == 3 && forall c :: 0 <= c < 3 ==> dist[c] == DistanceNT(GTable(basis), spine[c])
    {
      GTableShape(basis);
      dist := GlobalDistance(g, spine);
    }

    /** dist_gamma_delta of computeIntersectionSystem, this surface being Gamma. */
    method ComputePairDistance(delta: BLRCanalSurface) returns (d0: array2<real>, d1: array2<real>, d2: array2<real>)
      requires Valid() && delta.Valid() && delta.basis == basis
      ensures fresh(d0) && fresh(d1) && fresh(d2)
      ensures Rows(d0) == PairDistanceMatrix(spine[0], delta.spine[0])
      ensures Rows(d1) == PairDistanceMatrix(spine[1], delta.spine[1])
      ensures Rows(d2) == PairDistanceMatrix(spine[2], delta.spine[2])
    {
      d0, d1, d2 := PairDistance(spine, delta.spine);
    }
  }

  /** The smaller radius never exceeds the larger. */
  lemma MinRadiusAtMostMax(s: BLRCanalSurface)
    ensures s.GetMinRadius() <= s.GetMaxRadius()
  {
  }
}
