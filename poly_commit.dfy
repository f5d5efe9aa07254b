/**
 * Polynomial commitments built on TIPA: a bivariate polynomial is
 * committed to row by row with KZG commitments, which are then committed
 * to together under the TIPA keys; a univariate polynomial of degree below
 * `(d+1)^2` is first cut into a bivariate one with `d + 1` rows of `d + 1`
 * coefficients, and opened at `y` as the bivariate one at `(y^(d+1), y)`.
 *
 * As elsewhere, group elements are discrete logarithms: a multi-scalar
 * multiplication is a dot product and a pairing `e(x, y)` is `x * y`.
 */
module PolyCommit {
  import opened Field
  import opened InnerProducts
  import opened Polynomials
  import Pedersen
  import Tipa

  // ---------------------------------------------------------------------
  // KZG

  /**
   * `KZG::commit`: the coefficients resized to the number of powers, under
   * the powers. A polynomial is its trimmed coefficient list, so the
   * assertion `powers.len() >= degree + 1` reads as below (the zero
   * polynomial has degree 0).
   */
  function KzgCommit(powers: seq<int>, polynomial: seq<int>): int
    requires |powers| >= 1 && |polynomial| <= |powers|
  {
    Dot(powers, Resize(polynomial, |powers|))
  }

  /** `KZG::open`: the quotient by `X - point`, its remainder dropped, resized and committed. */
  function KzgOpen(powers: seq<int>, polynomial: seq<int>, point: int): int
    requires |powers| >= 1 && |polynomial| <= |powers|
  {
    Dot(powers, Resize(DivideByLinear(polynomial, point), |powers|))
  }

  /** `KZG::verify`: `e(com - g eval, h) = e(proof, h_alpha - h point)`. */
  predicate KzgVerify(vk: Tipa.VerifierSrs, com: int, point: int, eval: int, proof: int) {
    Eqv((com - vk.g * eval) * vk.h, proof * (vk.hAlpha - vk.h * point))
  }

  /** Under powers `g alpha^i` a KZG commitment is `g p(alpha)`. */
  lemma {:induction false} KzgCommitAtTrapdoor(powers: seq<int>, g: int, alpha: int, polynomial: seq<int>)
    requires |powers| >= 1 && |polynomial| <= |powers|
    requires forall i :: 0 <= i < |powers| ==> powers[i] == g * Pow(alpha, i)
    ensures KzgCommit(powers, polynomial) == g * Eval(polynomial, alpha)
  {
    var padded := Resize(polynomial, |powers|);
    assert padded == polynomial + Zeros(|powers| - |polynomial|);
    EvalPadded(polynomial, |powers| - |polynomial|, alpha);
    DotWithPowers(powers, g, alpha, padded);
  }

  /**
   * KZG completeness: under powers of the trapdoor `alpha` and a matching
   * verifier key, the commitment and the opening proof at any point pass
   * the check with the true value `p(point)`.
   */
  lemma {:induction false} KzgCompleteness(powers: seq<int>, vk: Tipa.VerifierSrs, alpha: int, polynomial: seq<int>, point: int)
    requires |powers| >= 1 && |polynomial| <= |powers|
    requires forall i :: 0 <= i < |powers| ==> powers[i] == vk.g * Pow(alpha, i)
    requires vk.hAlpha == vk.h * alpha
    ensures KzgVerify(vk, KzgCommit(powers, polynomial), point, Eval(polynomial, point),
                      KzgOpen(powers, polynomial, point))
  {
    var q := DivideByLinear(polynomial, point);
    KzgCommitAtTrapdoor(powers, vk.g, alpha, polynomial);
    KzgCommitAtTrapdoor(powers, vk.g, alpha, q);
    DivideByLinearIsExact(polynomial, point, alpha);
    var a, ac, qa := Eval(polynomial, alpha), Eval(polynomial, point), Eval(q, alpha);
    var proof := KzgOpen(powers, polynomial, point);
    assert Resize(q, |powers|) == q + Zeros(|powers| - |q|);
    Tipa.ScaledQuotient(vk.g, alpha, point, proof, qa, a, ac);
    Tipa.KzgAlgebra(vk.h, vk.g, alpha, point, a, ac, proof);
  }

  // ---------------------------------------------------------------------
  // Setup

  /**
   * The deterministic part of `BivariatePolynomialCommitment::setup`: the
   * TIPA reference string for `x_degree + 1` keys and, as KZG powers, its
   * first `y_degree + 1` powers of `alpha` in the first group. Slicing
   * them out of the `2 x_degree + 1` powers fails unless `y_degree <= 2 x_degree`.
   */
  method BivariateSetup(xDegree: nat, yDegree: nat, alpha: int, beta: int, g: int, h: int)
    returns (ipSrs: Tipa.Srs, kzgSrs: seq<int>)
    requires yDegree + 1 <= 2 * (xDegree + 1) - 1
    ensures Tipa.IsSetup(ipSrs, xDegree + 1, alpha, beta, g, h)
    ensures |Tipa.GetCommitmentKeys(ipSrs).0| == xDegree + 1
    ensures |kzgSrs| == yDegree + 1
    ensures forall i :: 0 <= i <= yDegree ==> kzgSrs[i] == g * Pow(alpha, i)
  {
    ipSrs := Tipa.Setup(xDegree + 1, alpha, beta, g, h);
    Tipa.CommitmentKeysOfSetup(ipSrs, xDegree + 1, alpha, beta, g, h);
    kzgSrs := ipSrs.gAlphaPowers[..yDegree + 1];
  }

  // ---------------------------------------------------------------------
  // Bivariate polynomials

  /** `BivariatePolynomial`: row `i` is the polynomial in `Y` multiplying `X^i`. */
  datatype Bivariate = Bivariate(yPolynomials: seq<seq<int>>)

  /** Each row's value at `y`. */
  function RowValues(rows: seq<seq<int>>, y: int): (v: seq<int>)
    ensures |v| == |rows| && forall i :: 0 <= i < |rows| ==> v[i] == Eval(rows[i], y)
  {
    seq(|rows|, i requires 0 <= i < |rows| => Eval(rows[i], y))
  }

  /** The value at `(x, y)`: `sum_i x^i y_i(y)`. */
  function Evaluation(p: Bivariate, x: int, y: int): int {
    Eval(RowValues(p.yPolynomials, y), x)
  }

  /** `1, x, x^2, ...`, `n` of them. */
  function Powers(x: int, n: nat): (r: seq<int>)
    ensures |r| == n && forall i :: 0 <= i < n ==> r[i] == Pow(x, i)
  {
    seq(n, i requires 0 <= i < n => Pow(x, i))
  }

  /** The loop of `evaluate` and `open` that pushes `cur` and multiplies it by `x`. */
  method PowersOf(x: int, n: nat) returns (powers: seq<int>)
    ensures |powers| == n
    ensures forall i :: 0 <= i < n ==> powers[i] == Pow(x, i)
  {
    powers := [];
    var cur := 1;
    for i := 0 to n
      invariant |powers| == i
      invariant forall k :: 0 <= k < i ==> powers[k] == Pow(x, k)
      invariant cur == Pow(x, i)
    {
      powers := powers + [cur];
      cur := cur * x;
    }
  }

  /**
   * `BivariatePolynomial::evaluate`: the powers of `x`, one per row, then
   * the sum of each power times its row's value at `y`.
   */
  method Evaluate(p: Bivariate, x: int, y: int) returns (v: int)
    ensures v == Evaluation(p, x, y)
  {
    var pointXPowers := PowersOf(x, |p.yPolynomials|);
    var values := RowValues(p.yPolynomials, y);
    v := Dot(pointXPowers, values);
    DotWithPowers(pointXPowers, 1, x, values);
  }

  // ---------------------------------------------------------------------
  // From univariate to bivariate

  /** `q` cut into `n` consecutive pieces of `m` coefficients. */
  function Chunks(q: seq<int>, m: nat, n: nat): (rows: seq<seq<int>>)
    requires |q| == n * m
    ensures |rows| == n && forall i :: 0 <= i < n ==> |rows[i]| == m
    decreases n
  {
    if n == 0 then []
    else
      assert n * m == m + (n - 1) * m;
      [q[..m]] + Chunks(q[m..], m, n - 1)
  }

  lemma {:induction false} RowBound(i: nat, j: nat, m: nat)
    requires i < m && j <= m
    ensures i * m + j <= m * m
  {
    assert i * m <= (m - 1) * m;
  }

  /** Piece `i` holds coefficients `i m` up to `(i + 1) m`. */
  lemma {:induction false} ChunkAt(q: seq<int>, m: nat, n: nat, i: nat)
    requires |q| == n * m && i < n
    ensures (i + 1) * m <= n * m
    ensures Chunks(q, m, n)[i] == q[i * m .. (i + 1) * m]
  {
    MulMonotone(i + 1, n, m);
    assert n * m == m + (n - 1) * m;
    if i > 0 {
      ChunkAt(q[m..], m, n - 1, i - 1);
      assert i * m == m + (i - 1) * m;
      assert (i + 1) * m == m + i * m;
      assert Chunks(q, m, n)[i] == Chunks(q[m..], m, n - 1)[i - 1];
      assert q[m..][(i - 1) * m .. i * m] == q[i * m .. (i + 1) * m];
    }
  }

  lemma {:induction false} MulMonotone(a: nat, b: nat, m: nat)
    requires a <= b
    ensures a * m <= b * m
  {
    assert b * m == a * m + (b - a) * m;
  }

  /** The first `i + 1` pieces are the first `i` and piece `i`. */
  lemma {:induction false} ChunksPrefixSnoc(q: seq<int>, m: nat, n: nat, i: nat)
    requires |q| == n * m && i < n
    ensures (i + 1) * m <= n * m
    ensures Chunks(q, m, n)[..i + 1] == Chunks(q, m, n)[..i] + [q[i * m .. (i + 1) * m]]
  {
    ChunkAt(q, m, n, i);
    var rows := Chunks(q, m, n);
    assert rows[..i + 1] == rows[..i] + [rows[i]];
  }

  lemma MulSucc(i: nat, m: nat)
    ensures (i + 1) * m == i * m + m
  {
  }

  lemma {:induction false} SliceSnoc(s: seq<int>, a: nat, b: nat)
    requires a <= b < |s|
    ensures s[a..b + 1] == s[a..b] + [s[b]]
  {
  }

  /**
   * `bivariate_form`: the coefficients, padded with zeros and cut off at
   * `(d+1)^2`, read one at a time into `d + 1` rows of `d + 1`.
   */
  method BivariateForm(d: nat, polynomial: seq<int>) returns (b: Bivariate)
    ensures b == Bivariate(Chunks(Resize(polynomial, (d + 1) * (d + 1)), d + 1, d + 1))
  {
    var m := d + 1;
    var yPolynomials := ReadRows(Resize(polynomial, m * m), m);
    b := Bivariate(yPolynomials);
  }

  /** The nested loop of `bivariate_form`: `m` rows of `m` coefficients, read in order. */
  method ReadRows(coeffIter: seq<int>, m: nat) returns (yPolynomials: seq<seq<int>>)
    requires |coeffIter| == m * m
    ensures yPolynomials == Chunks(coeffIter, m, m)
  {
    var next := 0;
    yPolynomials := [];
    for i := 0 to m
      invariant next == i * m
      invariant yPolynomials == Chunks(coeffIter, m, m)[..i]
    {
      var yPolynomialCoeffs: seq<int> := [];
      for j := 0 to m
        invariant next == i * m + j
        invariant i * m + j <= m * m
        invariant yPolynomialCoeffs == coeffIter[i * m .. next]
      {
        RowBound(i, j + 1, m);
        SliceSnoc(coeffIter, i * m, next);
        yPolynomialCoeffs := yPolynomialCoeffs + [coeffIter[next]];
        next := next + 1;
      }
      ChunksPrefixSnoc(coeffIter, m, m, i);
      MulSucc(i, m);
      yPolynomials := yPolynomials + [yPolynomialCoeffs];
    }
    assert Chunks(coeffIter, m, m)[..m] == Chunks(coeffIter, m, m);
  }

  /**
   * The shape of `bivariate_form`: `d + 1` rows of `d + 1`, and row `i`
   * holds coefficients `i (d+1)` to `i (d+1) + d` of `p`, zero past its
   * end; coefficients from `(d+1)^2` on appear nowhere.
   */
  lemma {:induction false} BivariateFormCoefficient(d: nat, p: seq<int>, i: nat, j: nat)
    requires i <= d && j <= d
    ensures var rows := Chunks(Resize(p, (d + 1) * (d + 1)), d + 1, d + 1);
      && |rows| == d + 1 && |rows[i]| == d + 1
      && rows[i][j] == Coeff(p, i * (d + 1) + j)
  {
    var m := d + 1;
    ChunkAt(Resize(p, m * m), m, m, i);
    RowBound(i, j + 1, m);
  }

  /** Evaluating the pieces at `y` and then the results at `y^m` gives `q(y)`. */
  lemma {:induction false} EvalChunks(q: seq<int>, m: nat, n: nat, y: int)
    requires |q| == n * m
    ensures Eval(q, y) == Eval(RowValues(Chunks(q, m, n), y), Pow(y, m))
    decreases n
  {
    if n > 0 {
      ChunksCons(q, m, n);
      var head, tail := q[..m], q[m..];
      var rest := Chunks(tail, m, n - 1);
      var values := RowValues(rest, y);
      RowValuesCons(head, rest, y);
      EvalChunks(tail, m, n - 1, y);
      assert q == head + tail;
      EvalAppend(head, tail, y);
      EvalCons(Eval(head, y), values, Pow(y, m));
      SameTail(Eval(head, y), Pow(y, m), Eval(tail, y), Eval(values, Pow(y, m)));
    }
  }

  lemma {:induction false} ChunksCons(q: seq<int>, m: nat, n: nat)
    requires |q| == n * m && n > 0
    ensures m <= |q| && |q[m..]| == (n - 1) * m
    ensures Chunks(q, m, n) == [q[..m]] + Chunks(q[m..], m, n - 1)
  {
    assert n * m == m + (n - 1) * m;
  }

  lemma {:induction false} RowValuesCons(head: seq<int>, rest: seq<seq<int>>, y: int)
    ensures RowValues([head] + rest, y) == [Eval(head, y)] + RowValues(rest, y)
  {
  }

  lemma SameTail(a: int, w: int, e: int, e': int)
    requires e == e'
    ensures a + w * e == a + w * e'
  {
  }

  /**
   * The identity the univariate commitment rests on: for `|p| <= (d+1)^2`,
   * the bivariate form evaluated at `(y^(d+1), y)` is `p(y)`.
   */
  lemma {:induction false} BivariateFormEvaluation(d: nat, p: seq<int>, y: int)
    requires |p| <= (d + 1) * (d + 1)
    ensures Evaluation(Bivariate(Chunks(Resize(p, (d + 1) * (d + 1)), d + 1, d + 1)), Pow(y, d + 1), y) == Eval(p, y)
  {
    var n := (d + 1) * (d + 1);
    EvalChunks(Resize(p, n), d + 1, d + 1, y);
    assert Resize(p, n) == p + Zeros(n - |p|);
    EvalPadded(p, n - |p|, y);
  }

  // ---------------------------------------------------------------------
  // Committing to and opening a bivariate polynomial

  /**
   * The y-polynomials padded with zero polynomials to `n` rows, each
   * resized to `len` coefficients.
   */
  function PaddedRows(rows: seq<seq<int>>, n: nat, len: nat): (m: seq<seq<int>>)
    ensures |m| == n && forall i :: 0 <= i < n ==> |m[i]| == len
    ensures forall i, j :: 0 <= i < n && 0 <= j < len ==>
      m[i][j] == (if i < |rows| && j < |rows[i]| then rows[i][j] else 0)
  {
    seq(n, i requires 0 <= i < n => Resize(RowOrZero(rows, i), len))
  }

  /** Row `i`, or the zero polynomial past the last row. */
  function RowOrZero(rows: seq<seq<int>>, i: nat): seq<int> {
    if i < |rows| then rows[i] else []
  }

  /** Column `j` of a list of rows. */
  function Column(rows: seq<seq<int>>, j: nat): (c: seq<int>)
    ensures |c| == |rows| && forall i :: 0 <= i < |rows| ==> c[i] == Coeff(rows[i], j)
  {
    seq(|rows|, i requires 0 <= i < |rows| => Coeff(rows[i], j))
  }

  /** `y_eval_coeffs`: coefficient `j` is column `j` weighted by `weights` (the powers of `x`). */
  function YEvalCoeffs(weights: seq<int>, rows: seq<seq<int>>, len: nat): (r: seq<int>)
    requires |weights| == |rows|
    ensures |r| == len
  {
    seq(len, j requires 0 <= j < len => Dot(weights, Column(rows, j)))
  }

  /** Each row against the same vector `v`. */
  function RowSums(v: seq<int>, rows: seq<seq<int>>): (r: seq<int>)
    requires forall i :: 0 <= i < |rows| ==> |rows[i]| == |v|
    ensures |r| == |rows| && forall i :: 0 <= i < |rows| ==> r[i] == Dot(v, rows[i])
  {
    seq(|rows|, i requires 0 <= i < |rows| => Dot(v, rows[i]))
  }

  /** The double sum in either order: by columns weighted by `u`, or by rows. */
  lemma {:induction false} SumInterchange(u: seq<int>, v: seq<int>, rows: seq<seq<int>>)
    requires |u| == |rows| && forall i :: 0 <= i < |rows| ==> |rows[i]| == |v|
    ensures Dot(v, YEvalCoeffs(u, rows, |v|)) == Dot(u, RowSums(v, rows))
  {
    if rows == [] {
      assert YEvalCoeffs(u, rows, |v|) == Zeros(|v|);
      DotZeros(v);
    } else {
      var rest := YEvalCoeffs(u[1..], rows[1..], |v|);
      SumInterchange(u[1..], v, rows[1..]);
      forall j | 0 <= j < |v|
        ensures YEvalCoeffs(u, rows, |v|)[j] == AddVec(ScaleVec(u[0], rows[0]), rest)[j]
      {
        assert Column(rows, j)[1..] == Column(rows[1..], j);
      }
      assert YEvalCoeffs(u, rows, |v|) == AddVec(ScaleVec(u[0], rows[0]), rest);
      Pedersen.CommitAdditiveInMessage(v, ScaleVec(u[0], rows[0]), rest);
      Pedersen.CommitScalesWithMessage(v, u[0], rows[0]);
      assert RowSums(v, rows)[1..] == RowSums(v, rows[1..]);
    }
  }

  /**
   * `BivariatePolynomialCommitment::commit`: one KZG commitment per row of
   * the y-polynomials padded with zero polynomials to `|ck|` rows, and the
   * pairing commitment `sum_i e(com_i, ck_i)` to those under `ck`. It
   * asserts that there are no more rows than keys, and each KZG commitment
   * that its polynomial fits the powers.
   */
  function BivariateCommit(ck: seq<int>, kzgSrs: seq<int>, p: Bivariate): (r: (int, seq<int>))
    requires |p.yPolynomials| <= |ck|
    requires |ck| == 0 || |kzgSrs| >= 1
    requires forall i :: 0 <= i < |p.yPolynomials| ==> |p.yPolynomials[i]| <= |kzgSrs|
    ensures |r.1| == |ck|
    ensures forall i :: 0 <= i < |ck| ==> r.1[i] == Dot(kzgSrs, PaddedRows(p.yPolynomials, |ck|, |kzgSrs|)[i])
    ensures r.0 == Dot(r.1, ck)
  {
    var yPolynomialComs := seq(|ck|, i requires 0 <= i < |ck| =>
      KzgCommit(kzgSrs, RowOrZero(p.yPolynomials, i)));
    (Dot(yPolynomialComs, ck), yPolynomialComs)
  }

  /** What an opening carries besides the second-tier argument. */
  datatype Opening = Opening(yEvalComm: int, kzgProof: int)

  /**
   * `BivariatePolynomialCommitment::open` without the second-tier
   * argument: the powers of `x`, the padded and resized rows, the
   * column-weighted sums `y_eval_coeffs`, their commitment under the KZG
   * powers and the KZG opening of that polynomial at `y`.
   */
  method BivariateOpen(ipSrs: Tipa.Srs, kzgSrs: seq<int>, p: Bivariate, x: int, y: int) returns (r: Opening)
    requires |p.yPolynomials| <= |Tipa.GetCommitmentKeys(ipSrs).0|
    requires |kzgSrs| >= 1
    ensures var n := |Tipa.GetCommitmentKeys(ipSrs).0|;
      var coeffs := YEvalCoeffs(Powers(x, n), PaddedRows(p.yPolynomials, n, |kzgSrs|), |kzgSrs|);
      r == Opening(Dot(kzgSrs, coeffs), KzgOpen(kzgSrs, coeffs, y))
  {
    var (ck1, _) := Tipa.GetCommitmentKeys(ipSrs);
    var powersOfX := PowersOf(x, |ck1|);
    assert powersOfX == Powers(x, |ck1|);
    var coeffs := PaddedRows(p.yPolynomials, |ck1|, |kzgSrs|);
    var yEvalCoeffs := seq(|kzgSrs|, j requires 0 <= j < |kzgSrs| => Dot(powersOfX, Column(coeffs, j)));
    assert yEvalCoeffs == YEvalCoeffs(powersOfX, coeffs, |kzgSrs|);
    var yEvalComm := Dot(kzgSrs, yEvalCoeffs);
    var kzgProof := KzgOpen(kzgSrs, yEvalCoeffs, y);
    r := Opening(yEvalComm, kzgProof);
  }

  /** A row resized to at least its own length keeps its value. */
  lemma {:induction false} EvalResized(row: seq<int>, len: nat, y: int)
    requires |row| <= len
    ensures Eval(Resize(row, len), y) == Eval(row, y)
  {
    assert Resize(row, len) == row + Zeros(len - |row|);
    EvalPadded(row, len - |row|, y);
  }

  /**
   * The polynomial `y_eval_coeffs`, at `y`, is the bivariate polynomial at
   * `(x, y)`, provided no row is longer than the KZG powers (longer rows
   * would be cut by the resize).
   */
  lemma {:induction false} YEvalCoeffsEvaluate(p: Bivariate, n: nat, len: nat, x: int, y: int)
    requires |p.yPolynomials| <= n
    requires forall i :: 0 <= i < |p.yPolynomials| ==> |p.yPolynomials[i]| <= len
    ensures Eval(YEvalCoeffs(Powers(x, n), PaddedRows(p.yPolynomials, n, len), len), y) == Evaluation(p, x, y)
  {
    var rows := PaddedRows(p.yPolynomials, n, len);
    var coeffs := YEvalCoeffs(Powers(x, n), rows, len);
    DotWithPowers(Powers(y, len), 1, y, coeffs);
    SumInterchange(Powers(x, n), Powers(y, len), rows);
    var values := RowValues(p.yPolynomials, y);
    var padded := values + Zeros(n - |values|);
    forall i | 0 <= i < n
      ensures RowSums(Powers(y, len), rows)[i] == padded[i]
    {
      DotWithPowers(Powers(y, len), 1, y, rows[i]);
      if i < |values| {
        EvalResized(p.yPolynomials[i], len, y);
      } else {
        EvalResized([], len, y);
      }
    }
    assert RowSums(Powers(y, len), rows) == padded;
    DotWithPowers(Powers(x, n), 1, x, padded);
    EvalPadded(values, n - |values|, x);
  }

  /**
   * The commitment `y_eval_comm` is the inner product of the y-polynomial
   * commitments with the powers of `x`: the statement the second-tier
   * argument proves, for any KZG powers.
   */
  lemma {:induction false} YEvalCommitment(ck: seq<int>, kzgSrs: seq<int>, p: Bivariate, x: int)
    requires |p.yPolynomials| <= |ck| && |kzgSrs| >= 1
    requires forall i :: 0 <= i < |p.yPolynomials| ==> |p.yPolynomials[i]| <= |kzgSrs|
    ensures Dot(kzgSrs, YEvalCoeffs(Powers(x, |ck|), PaddedRows(p.yPolynomials, |ck|, |kzgSrs|), |kzgSrs|))
         == Dot(Powers(x, |ck|), BivariateCommit(ck, kzgSrs, p).1)
  {
    var rows := PaddedRows(p.yPolynomials, |ck|, |kzgSrs|);
    SumInterchange(Powers(x, |ck|), kzgSrs, rows);
    assert RowSums(kzgSrs, rows) == BivariateCommit(ck, kzgSrs, p).1;
  }

  // ---------------------------------------------------------------------
  // Univariate polynomials

  /** The bivariate point for the univariate point `y`: `(y^(d+1), y)`. */
  function UnivariatePoint(d: nat, y: int): (int, int) {
    (Pow(y, d + 1), y)
  }

  /**
   * At the point `UnivariatePoint(d, y)`, the bivariate form of a polynomial
   * with at most `(d+1)^2` coefficients takes the polynomial's value at `y`.
   */
  lemma {:induction false} UnivariatePointEvaluates(d: nat, p: seq<int>, y: int)
    requires |p| <= (d + 1) * (d + 1)
    ensures var (x, y') := UnivariatePoint(d, y);
      Evaluation(Bivariate(Chunks(Resize(p, (d + 1) * (d + 1)), d + 1, d + 1)), x, y') == Eval(p, y)
  {
    BivariateFormEvaluation(d, p, y);
  }

  /**
   * `UnivariatePolynomialCommitment::commit`: the bivariate form with
   * `d = |kzg_srs| - 1` (which underflows for no powers), committed.
   */
  method UnivariateCommit(ipSrs: Tipa.Srs, kzgSrs: seq<int>, polynomial: seq<int>) returns (r: (int, seq<int>))
    requires |kzgSrs| >= 1 && |kzgSrs| <= |Tipa.GetCommitmentKeys(ipSrs).0|
    ensures var d := |kzgSrs| - 1;
      r == BivariateCommit(Tipa.GetCommitmentKeys(ipSrs).0, kzgSrs,
                           Bivariate(Chunks(Resize(polynomial, (d + 1) * (d + 1)), d + 1, d + 1)))
  {
    var d := |kzgSrs| - 1;
    var b := BivariateForm(d, polynomial);
    r := BivariateCommit(Tipa.GetCommitmentKeys(ipSrs).0, kzgSrs, b);
  }

  /** `UnivariatePolynomialCommitment::open`: the bivariate opening at `(y^(d+1), y)`. */
  method UnivariateOpen(ipSrs: Tipa.Srs, kzgSrs: seq<int>, polynomial: seq<int>, point: int) returns (r: Opening)
    requires |kzgSrs| >= 1 && |kzgSrs| <= |Tipa.GetCommitmentKeys(ipSrs).0|
    ensures var d := |kzgSrs| - 1;
      var n := |Tipa.GetCommitmentKeys(ipSrs).0|;
      var b := Bivariate(Chunks(Resize(polynomial, (d + 1) * (d + 1)), d + 1, d + 1));
      var coeffs := YEvalCoeffs(Powers(Pow(point, d + 1), n), PaddedRows(b.yPolynomials, n, |kzgSrs|), |kzgSrs|);
      r == Opening(Dot(kzgSrs, coeffs), KzgOpen(kzgSrs, coeffs, point))
  {
    var d := |kzgSrs| - 1;
    var (x, y) := UnivariatePoint(d, point);
    var b := BivariateForm(d, polynomial);
    r := BivariateOpen(ipSrs, kzgSrs, b, x, y);
  }

  /**
   * `UnivariatePolynomialCommitment::verify`: the second-tier check for
   * `x = y^(d+1)` (not part of this model, so its verdict is a parameter)
   * and the KZG check of `y_eval_comm` at `y`.
   */
  function UnivariateVerify(vk: Tipa.VerifierSrs, d: nat, point: int, eval: int, proof: Opening,
                            secondTierValid: int -> bool): (valid: bool)
    ensures valid <==> secondTierValid(Pow(point, d + 1)) && KzgVerify(vk, proof.yEvalComm, point, eval, proof.kzgProof)
  {
    var (x, y) := UnivariatePoint(d, point);
    secondTierValid(x) && KzgVerify(vk, proof.yEvalComm, y, eval, proof.kzgProof)
  }

  /**
   * Completeness of a bivariate opening, for KZG powers `g alpha^i` and
   * rows that fit them: `y_eval_comm` is the inner product the second tier
   * proves (the y-polynomial commitments against the powers of `x`), and
   * it passes the KZG check at `y` with the value at `(x, y)`.
   */
  lemma {:induction false} BivariateOpenCompleteness(ck: seq<int>, kzgSrs: seq<int>, vk: Tipa.VerifierSrs, alpha: int,
                                  p: Bivariate, x: int, y: int)
    requires |p.yPolynomials| <= |ck| && |kzgSrs| >= 1
    requires forall i :: 0 <= i < |p.yPolynomials| ==> |p.yPolynomials[i]| <= |kzgSrs|
    requires forall i :: 0 <= i < |kzgSrs| ==> kzgSrs[i] == vk.g * Pow(alpha, i)
    requires vk.hAlpha == vk.h * alpha
    ensures var coeffs := YEvalCoeffs(Powers(x, |ck|), PaddedRows(p.yPolynomials, |ck|, |kzgSrs|), |kzgSrs|);
      && Dot(kzgSrs, coeffs) == Dot(Powers(x, |ck|), BivariateCommit(ck, kzgSrs, p).1)
      && KzgVerify(vk, Dot(kzgSrs, coeffs), y, Evaluation(p, x, y), KzgOpen(kzgSrs, coeffs, y))
  {
    var coeffs := YEvalCoeffs(Powers(x, |ck|), PaddedRows(p.yPolynomials, |ck|, |kzgSrs|), |kzgSrs|);
    YEvalCommitment(ck, kzgSrs, p, x);
    YEvalCoeffsEvaluate(p, |ck|, |kzgSrs|, x, y);
    assert Eval(coeffs, y) == Evaluation(p, x, y);
    assert Resize(coeffs, |kzgSrs|) == coeffs;
    KzgCompleteness(kzgSrs, vk, alpha, coeffs, y);
  }

  /**
   * Completeness of a univariate opening: for a polynomial with at most
   * `(d+1)^2` coefficients, the bivariate opening of its bivariate form at
   * `(y^(d+1), y)` passes the KZG check with the true value `p(y)`.
   */
  lemma {:induction false} UnivariateOpenCompleteness(ck: seq<int>, kzgSrs: seq<int>, vk: Tipa.VerifierSrs, alpha: int,
                                   polynomial: seq<int>, point: int)
    requires |kzgSrs| >= 1 && |kzgSrs| <= |ck|
    requires forall i :: 0 <= i < |kzgSrs| ==> kzgSrs[i] == vk.g * Pow(alpha, i)
    requires vk.hAlpha == vk.h * alpha
    requires |polynomial| <= |kzgSrs| * |kzgSrs|
    ensures var d := |kzgSrs| - 1;
      var b := Bivariate(Chunks(Resize(polynomial, (d + 1) * (d + 1)), d + 1, d + 1));
      var x := Pow(point, d + 1);
      var coeffs := YEvalCoeffs(Powers(x, |ck|), PaddedRows(b.yPolynomials, |ck|, |kzgSrs|), |kzgSrs|);
      && Dot(kzgSrs, coeffs) == Dot(Powers(x, |ck|), BivariateCommit(ck, kzgSrs, b).1)
      && KzgVerify(vk, Dot(kzgSrs, coeffs), point, Eval(polynomial, point), KzgOpen(kzgSrs, coeffs, point))
  {
    var d := |kzgSrs| - 1;
    var b := Bivariate(Chunks(Resize(polynomial, (d + 1) * (d + 1)), d + 1, d + 1));
    BivariateOpenCompleteness(ck, kzgSrs, vk, alpha, b, Pow(point, d + 1), point);
    BivariateFormEvaluation(d, polynomial, point);
  }
}
