/**
 * TIPA: GIPA whose commitment keys come from a structured reference string
 * (powers of secret trapdoors), so that the final keys of a run are
 * commitments to one polynomial built from the challenge transcript, and
 * the prover can open them with KZG proofs instead of sending the keys.
 *
 * Group elements and pairing values are their discrete logarithms, as in
 * the other modules: `g.mul(s)` is `g * s` and a pairing `e(x, y)` is
 * `x * y`, so an equality of pairings is a congruence modulo `P`.
 */
module Tipa {
  import opened Field
  import opened Bits
  import opened Seqs
  import opened InnerProducts
  import opened Polynomials
  import Pedersen
  import Gipa

  // ---------------------------------------------------------------------
  // Structured reference string

  /** `structured_generators_scalar_power`: `g, g s, g s^2, ...`, `num` of them. */
  method StructuredGeneratorsScalarPower(num: nat, g: int, s: int) returns (generators: seq<int>)
    ensures |generators| == num
    ensures forall i :: 0 <= i < num ==> generators[i] == g * Pow(s, i)
  {
    generators := [];
    var powS := 1;
    for i := 0 to num
      invariant |generators| == i
      invariant forall j :: 0 <= j < i ==> generators[j] == g * Pow(s, j)
      invariant powS == Pow(s, i)
    {
      generators := generators + [g * powS];
      PowStep(s, i);
      powS := powS * s;
    }
  }

  datatype Srs = Srs(gAlphaPowers: seq<int>, hBetaPowers: seq<int>, gBeta: int, hAlpha: int)

  datatype VerifierSrs = VerifierSrs(g: int, h: int, gBeta: int, hAlpha: int)

  /**
   * `srs` is the reference string for `size` messages with trapdoors
   * `alpha`, `beta` over the generators `g`, `h`: `2 size - 1` powers on
   * each side and the two cross elements.
   */
  predicate IsSetup(srs: Srs, size: nat, alpha: int, beta: int, g: int, h: int) {
    && size >= 1
    && |srs.gAlphaPowers| == 2 * size - 1
    && |srs.hBetaPowers| == 2 * size - 1
    && (forall i :: 0 <= i < 2 * size - 1 ==> srs.gAlphaPowers[i] == g * Pow(alpha, i))
    && (forall i :: 0 <= i < 2 * size - 1 ==> srs.hBetaPowers[i] == h * Pow(beta, i))
    && srs.gBeta == g * beta
    && srs.hAlpha == h * alpha
  }

  /**
   * The deterministic part of `setup`: the trapdoors, drawn at random there,
   * and the generators are parameters here. `2 * size - 1` underflows for
   * `size == 0`, so `size >= 1` is required.
   */
  method Setup(size: nat, alpha: int, beta: int, g: int, h: int) returns (srs: Srs)
    requires size >= 1
    ensures IsSetup(srs, size, alpha, beta, g, h)
  {
    var gAlphaPowers := StructuredGeneratorsScalarPower(2 * size - 1, g, alpha);
    var hBetaPowers := StructuredGeneratorsScalarPower(2 * size - 1, h, beta);
    srs := Srs(gAlphaPowers, hBetaPowers, g * beta, h * alpha);
  }

  /** Every second entry, starting with the first: `step_by(2)` takes one and skips one. */
  function EvenEntries(s: seq<int>): (r: seq<int>)
    ensures |r| == (|s| + 1) / 2
    ensures forall i :: 0 <= i < |r| ==> r[i] == s[2 * i]
  {
    if |s| <= 1 then s else [s[0]] + EvenEntries(s[2..])
  }

  /** `get_commitment_keys`: the even powers, `(ck_1, ck_2)` = (`h` side, `g` side). */
  function GetCommitmentKeys(srs: Srs): (seq<int>, seq<int>) {
    (EvenEntries(srs.hBetaPowers), EvenEntries(srs.gAlphaPowers))
  }

  /** `get_verifier_key`: the first power on each side and the cross elements. */
  function GetVerifierKey(srs: Srs): VerifierSrs
    requires |srs.gAlphaPowers| >= 1 && |srs.hBetaPowers| >= 1
  {
    VerifierSrs(srs.gAlphaPowers[0], srs.hBetaPowers[0], srs.gBeta, srs.hAlpha)
  }

  lemma {:induction false} PowOfSquare(x: int, i: nat)
    ensures Pow(x, 2 * i) == Pow(x * x, i)
  {
    PowProduct(x, x, i);
    PowAdd(x, i, i);
  }

  /**
   * The keys of a set-up string hold `size` entries each, the powers of the
   * squared trapdoors: `ck_1[i] = h beta^(2i)`, `ck_2[i] = g alpha^(2i)`.
   */
  lemma {:induction false} CommitmentKeysOfSetup(srs: Srs, size: nat, alpha: int, beta: int, g: int, h: int)
    requires IsSetup(srs, size, alpha, beta, g, h)
    ensures |GetCommitmentKeys(srs).0| == size && |GetCommitmentKeys(srs).1| == size
    ensures forall i :: 0 <= i < size ==> GetCommitmentKeys(srs).0[i] == h * Pow(beta * beta, i)
    ensures forall i :: 0 <= i < size ==> GetCommitmentKeys(srs).1[i] == g * Pow(alpha * alpha, i)
  {
    forall i | 0 <= i < size
      ensures GetCommitmentKeys(srs).0[i] == h * Pow(beta * beta, i)
      ensures GetCommitmentKeys(srs).1[i] == g * Pow(alpha * alpha, i)
    {
      PowOfSquare(beta, i);
      PowOfSquare(alpha, i);
    }
  }

  /** The verifier key of a set-up string holds the generators themselves. */
  lemma {:induction false} VerifierKeyOfSetup(srs: Srs, size: nat, alpha: int, beta: int, g: int, h: int)
    requires IsSetup(srs, size, alpha, beta, g, h)
    ensures GetVerifierKey(srs) == VerifierSrs(g, h, g * beta, h * alpha)
  {
    assert srs.gAlphaPowers[0] == g * Pow(alpha, 0);
    assert srs.hBetaPowers[0] == h * Pow(beta, 0);
  }

  // ---------------------------------------------------------------------
  // The transcript polynomial

  /** `(x^(2^k))^2 = x^(2^(k+1))`. */
  lemma {:induction false} PowSquaredPow2(x: int, k: nat)
    ensures Pow(x, Pow2(k + 1)) == Pow(x, Pow2(k)) * Pow(x, Pow2(k))
  {
    PowAdd(x, Pow2(k), Pow2(k));
  }

  /** Squaring `z^(2^(i+1)) r^(2^i)` gives the next running power. */
  lemma {:induction false} SquareOfRunningPower(z: int, r: int, i: nat)
    ensures (Pow(z, Pow2(i + 1)) * Pow(r, Pow2(i))) * (Pow(z, Pow2(i + 1)) * Pow(r, Pow2(i)))
         == Pow(z, Pow2(i + 2)) * Pow(r, Pow2(i + 1))
  {
    PowSquaredPow2(z, i + 1);
    PowSquaredPow2(r, i);
    var zp, rp := Pow(z, Pow2(i + 1)), Pow(r, Pow2(i));
    assert (zp * rp) * (zp * rp) == (zp * zp) * (rp * rp);
  }

  /**
   * The transcript polynomial in product form, at `z` with shift `r`:
   * `prod_i (1 + x_i z^(2^(i+1)) r^(2^i))`.
   */
  function ProductForm(t: seq<int>, z: int, r: int): int {
    if t == [] then 1
    else
      var k := |t| - 1;
      ProductForm(t[..k], z, r) * (1 + t[k] * (Pow(z, Pow2(k + 1)) * Pow(r, Pow2(k))))
  }

  /** Rust's `iter().product()`: the left fold of `*` from one. */
  function Product(s: seq<int>): int {
    if s == [] then 1 else Product(s[..|s| - 1]) * s[|s| - 1]
  }

  /**
   * `polynomial_evaluation_product_form_from_transcript`: the factors, one
   * per transcript entry with the running power `z^(2^(i+1)) r^(2^i)`
   * squared after each, then their product.
   */
  method PolynomialEvaluationProductForm(transcript: seq<int>, z: int, rShift: int) returns (v: int)
    ensures v == ProductForm(transcript, z, rShift)
    ensures transcript == [] ==> v == 1
  {
    var power2zr := (z * z) * rShift;
    RunningPowerStart(z, rShift);
    var productForm: seq<int> := [];
    for i := 0 to |transcript|
      invariant |productForm| == i
      invariant Product(productForm) == ProductForm(transcript[..i], z, rShift)
      invariant power2zr == Pow(z, Pow2(i + 1)) * Pow(rShift, Pow2(i))
    {
      var factor := 1 + transcript[i] * power2zr;
      ProductSnoc(productForm, factor);
      ProductFormSnoc(transcript, i, z, rShift);
      productForm := productForm + [factor];
      SquareOfRunningPower(z, rShift, i);
      power2zr := power2zr * power2zr;
    }
    assert transcript[..|transcript|] == transcript;
    v := Product(productForm);
  }

  /** The running power starts at `z^2 r`. */
  lemma {:induction false} RunningPowerStart(z: int, r: int)
    ensures (z * z) * r == Pow(z, Pow2(0 + 1)) * Pow(r, Pow2(0))
  {
    assert Pow2(1) == 2 && Pow2(0) == 1;
    assert Pow(z, 1) == z * Pow(z, 0) == z;
    assert Pow(z, 2) == z * Pow(z, 1);
    assert Pow(r, 1) == r * Pow(r, 0) == r;
  }

  lemma {:induction false} ProductSnoc(s: seq<int>, x: int)
    ensures Product(s + [x]) == Product(s) * x
  {
    assert (s + [x])[..|s|] == s;
  }

  lemma {:induction false} ProductFormSnoc(t: seq<int>, i: nat, z: int, r: int)
    requires i < |t|
    ensures ProductForm(t[..i + 1], z, r) == ProductForm(t[..i], z, r) * (1 + t[i] * (Pow(z, Pow2(i + 1)) * Pow(r, Pow2(i))))
  {
    assert t[..i + 1][..i] == t[..i];
  }

  /**
   * The coefficients of the transcript polynomial in `X^2`, before the
   * zeros are interleaved: from `[1]`, entry `x_i` appends a copy of the
   * list so far scaled by `x_i r^(2^i)`.
   */
  function TranscriptCoefficients(t: seq<int>, r: int): (c: seq<int>)
    ensures |c| == Pow2(|t|)
  {
    if t == [] then [1]
    else
      var k := |t| - 1;
      var prev := TranscriptCoefficients(t[..k], r);
      prev + ScaleVec(t[k] * Pow(r, Pow2(k)), prev)
  }

  /**
   * The coefficients with a zero between each two, `c0, 0, c1, 0, ..., c_{n-1}`:
   * itertools' `interleave` with `n - 1` zeros.
   */
  function Interleave(c: seq<int>): (r: seq<int>)
    requires |c| >= 1
    ensures |r| == 2 * |c| - 1
  {
    if |c| == 1 then c
    else [c[0], 0] + Interleave(c[1..])
  }

  /**
   * `polynomial_coefficients_from_transcript`: round `i` appends `2^i`
   * scaled copies of the coefficients so far, the running power of the
   * shift is squared, and the zeros are interleaved at the end. The result
   * has `2^(|t|+1) - 1` coefficients.
   */
  method PolynomialCoefficients(transcript: seq<int>, rShift: int) returns (coeffs: seq<int>)
    ensures coeffs == Interleave(TranscriptCoefficients(transcript, rShift))
    ensures |coeffs| == 2 * Pow2(|transcript|) - 1
    ensures transcript == [] ==> coeffs == [1]
  {
    var coefficients := [1];
    var power2r := rShift;
    for i := 0 to |transcript|
      invariant coefficients == TranscriptCoefficients(transcript[..i], rShift)
      invariant power2r == Pow(rShift, Pow2(i))
    {
      var x := transcript[i];
      ghost var before := coefficients;
      for j := 0 to Pow2(i)
        invariant coefficients == before + ScaleVec(x * power2r, before[..j])
      {
        ScaleVecSnoc(x * power2r, before, j);
        coefficients := coefficients + [coefficients[j] * (x * power2r)];
      }
      assert before[..Pow2(i)] == before;
      TranscriptCoefficientsSnoc(transcript, i, rShift);
      PowSquaredPow2(rShift, i);
      power2r := power2r * power2r;
    }
    assert transcript[..|transcript|] == transcript;
    coeffs := Interleave(coefficients);
  }

  /** One more challenge appends the coefficients so far, scaled by `x_i r^(2^i)`. */
  lemma {:induction false} TranscriptCoefficientsSnoc(t: seq<int>, i: nat, r: int)
    requires i < |t|
    ensures TranscriptCoefficients(t[..i + 1], r)
         == TranscriptCoefficients(t[..i], r) + ScaleVec(t[i] * Pow(r, Pow2(i)), TranscriptCoefficients(t[..i], r))
  {
    assert t[..i + 1][..i] == t[..i];
  }

  /** The product of the terms `x_i r^(2^i)` for which bit `i` of `j` is set. */
  function BitProduct(t: seq<int>, r: int, j: nat): int {
    if t == [] then 1
    else
      var k := |t| - 1;
      BitProduct(t[..k], r, j) * (if Bit(j, k) == 1 then t[k] * Pow(r, Pow2(k)) else 1)
  }

  /** Bits at and above `k` do not matter to a product over fewer than `k + 1` terms. */
  lemma {:induction false} BitProductOfHighHalf(t: seq<int>, r: int, j: nat, k: nat)
    requires |t| <= k && j < Pow2(k)
    ensures BitProduct(t, r, j + Pow2(k)) == BitProduct(t, r, j)
  {
    if t != [] {
      BitProductOfHighHalf(t[..|t| - 1], r, j, k);
      BitOfHighHalf(j, k, |t| - 1);
    }
  }

  /**
   * Coefficient `j` of the transcript polynomial (in `X^2`) is the product
   * of the terms `x_i r^(2^i)` selected by the one bits of `j`.
   */
  lemma {:induction false} CoefficientIsBitProduct(t: seq<int>, r: int, j: nat)
    requires j < Pow2(|t|)
    ensures TranscriptCoefficients(t, r)[j] == BitProduct(t, r, j)
  {
    if t != [] {
      var k := |t| - 1;
      var prev := TranscriptCoefficients(t[..k], r);
      var s := t[k] * Pow(r, Pow2(k));
      if j < Pow2(k) {
        CoefficientIsBitProduct(t[..k], r, j);
        BitAboveIsZero(j, k);
      } else {
        var j' := j - Pow2(k);
        CoefficientIsBitProduct(t[..k], r, j');
        BitProductOfHighHalf(t[..k], r, j', k);
        BitOfHighHalf(j', k, k);
        assert TranscriptCoefficients(t, r)[j] == prev[j'] * s;
      }
    }
  }

  /** `prod_i (1 + x_i u^(2^i))`: the transcript polynomial in `X^2`, at `u`. */
  function ProductAt(t: seq<int>, u: int): int {
    if t == [] then 1
    else
      var k := |t| - 1;
      ProductAt(t[..k], u) * (1 + t[k] * Pow(u, Pow2(k)))
  }

  /** Each doubling step multiplies the value by one factor of the product form. */
  lemma {:induction false} CoefficientsEvaluate(t: seq<int>, r: int, w: int)
    ensures Eval(TranscriptCoefficients(t, r), w) == ProductAt(t, r * w)
  {
    if t != [] {
      var k := |t| - 1;
      var prev := TranscriptCoefficients(t[..k], r);
      var s := t[k] * Pow(r, Pow2(k));
      CoefficientsEvaluate(t[..k], r, w);
      EvalAppend(prev, ScaleVec(s, prev), w);
      EvalScale(s, prev, w);
      PowProduct(r, w, Pow2(k));
      ghost var e, rp, wp := Eval(prev, w), Pow(r, Pow2(k)), Pow(w, Pow2(k));
      DoublingFactor(e, wp, t[k], rp);
    }
  }

  lemma DoublingFactor(e: int, wp: int, x: int, rp: int)
    ensures e + wp * ((x * rp) * e) == e * (1 + x * (rp * wp))
  {
  }

  /** The product form at `z` with shift `r` is the product at `z^2 r`. */
  lemma {:induction false} ProductFormIsProductAt(t: seq<int>, z: int, r: int)
    ensures ProductForm(t, z, r) == ProductAt(t, z * z * r)
  {
    if t != [] {
      var k := |t| - 1;
      ProductFormIsProductAt(t[..k], z, r);
      PowProduct(z * z, r, Pow2(k));
      PowProduct(z, z, Pow2(k));
      PowSquaredPow2(z, k);
    }
  }

  /** Interleaving zeros turns a polynomial in `X` into the same one in `X^2`. */
  lemma {:induction false} EvalInterleave(c: seq<int>, z: int, w: int)
    requires |c| >= 1 && w == z * z
    ensures Eval(Interleave(c), z) == Eval(c, w)
  {
    if |c| > 1 {
      var rest := Interleave(c[1..]);
      EvalInterleave(c[1..], z, w);
      InterleaveCons(c);
      EvalCons(c[0], [0] + rest, z);
      EvalCons(0, rest, z);
      assert c == [c[0]] + c[1..];
      EvalCons(c[0], c[1..], w);
      InterleaveStep(c[0], z, w, Eval([c[0]] + ([0] + rest), z), Eval([0] + rest, z), Eval(rest, z),
                     Eval(c[1..], w), Eval([c[0]] + c[1..], w));
    } else {
      assert c[1..] == [];
    }
  }

  /** Coefficient `i` of the interleaving sits at position `2 i`; the odd positions hold zeros. */
  lemma {:induction false} InterleaveAt(c: seq<int>, i: nat)
    requires |c| >= 1 && i < 2 * |c| - 1
    ensures Interleave(c)[i] == if i % 2 == 0 then c[i / 2] else 0
    decreases |c|
  {
    if |c| > 1 {
      InterleaveCons(c);
      if i >= 2 {
        InterleaveAt(c[1..], i - 2);
        assert (i - 2) % 2 == i % 2 && (i - 2) / 2 == i / 2 - 1;
      }
    }
  }

  lemma {:induction false} InterleaveCons(c: seq<int>)
    requires |c| > 1
    ensures Interleave(c) == [c[0]] + ([0] + Interleave(c[1..]))
  {
    assert [c[0], 0] + Interleave(c[1..]) == [c[0]] + ([0] + Interleave(c[1..]));
  }

  lemma InterleaveStep(a: int, z: int, w: int, whole: int, odd: int, e: int, e': int, target: int)
    requires w == z * z
    requires whole == a + z * odd && odd == 0 + z * e && e == e' && target == a + w * e'
    ensures whole == target
  {
  }

  /**
   * The two forms agree: the coefficients the prover commits to evaluate,
   * at every point `z`, to the product form the verifier computes.
   */
  lemma {:induction false} TranscriptPolynomialForms(t: seq<int>, z: int, r: int)
    ensures Eval(Interleave(TranscriptCoefficients(t, r)), z) == ProductForm(t, z, r)
  {
    EvalInterleave(TranscriptCoefficients(t, r), z, z * z);
    CoefficientsEvaluate(t, r, z * z);
    ProductFormIsProductAt(t, z, r);
    assert r * (z * z) == z * z * r;
  }

  // ---------------------------------------------------------------------
  // Opening the final commitment keys

  /**
   * The interleaved coefficient vector of a transcript of `k` challenges
   * has exactly as many entries as a reference string for `size` keys has
   * powers precisely when `size = 2^k`.
   */
  lemma {:induction false} CoefficientCountMatchesSrs(srs: Srs, size: nat, alpha: int, beta: int, g: int, h: int,
                                   transcript: seq<int>, rShift: int)
    requires IsSetup(srs, size, alpha, beta, g, h)
    ensures |Interleave(TranscriptCoefficients(transcript, rShift))| == |srs.gAlphaPowers|
            <==> size == Pow2(|transcript|)
  {
  }

  /**
   * The Fiat-Shamir hash for the KZG point, of the first transcript entry
   * and the two final keys. The retry loop of the source (a hash that is
   * not a field element) is not modelled.
   */
  type KzgOracle = (int, int, int) -> int

  /** `t_inv` holds the inverse of every entry of `t` (`inverse().unwrap()` succeeds). */
  predicate AreInverses(t: seq<int>, tInv: seq<int>) {
    |tInv| == |t| && forall i :: 0 <= i < |t| ==> IsInverse(t[i], tInv[i])
  }

  /** The quotient of a transcript polynomial by `X - c`, resized to `n` coefficients. */
  function OpeningQuotient(t: seq<int>, r: int, c: int, n: nat): seq<int> {
    Resize(DivideByLinear(Interleave(TranscriptCoefficients(t, r)), c), n)
  }

  /**
   * The KZG half of `prove_with_srs_shift`, after GIPA: the transcript
   * polynomials of the inverses (shifted by `r_inverse`) and of the
   * transcript, the challenge point, their evaluations in product form,
   * and the commitments to the two quotients, one under `h_beta_powers`
   * and one under `g_alpha_powers`. The multi-exponentiation under
   * `h_beta_powers` fails when its length differs from `g_alpha_powers`
   * (the quotients are resized to the latter). `transcript.first().unwrap()`
   * and the `assert_eq!` on the coefficient count are the preconditions.
   */
  method ProveFinalKeys(srs: Srs, transcript: seq<int>, transcriptInverse: seq<int>, rShift: int, rInverse: int,
                        ckAFinal: int, ckBFinal: int, hash: KzgOracle)
    returns (r: Result<(int, int), LengthError>)
    requires |transcript| >= 1
    requires AreInverses(transcript, transcriptInverse) && IsInverse(rShift, rInverse)
    requires |srs.gAlphaPowers| == 2 * Pow2(|transcript|) - 1
    ensures var c, n := hash(transcript[0], ckAFinal, ckBFinal), |srs.gAlphaPowers|;
      if |srs.hBetaPowers| == n then
        r == Ok((Dot(srs.hBetaPowers, OpeningQuotient(transcriptInverse, rInverse, c, n)),
                 Dot(srs.gAlphaPowers, OpeningQuotient(transcript, 1, c, n))))
      else
        r == Err(InvalidInputLength(|srs.hBetaPowers|, n))
  {
    var ckBPolynomial := PolynomialCoefficients(transcript, 1);
    var ckAPolynomial := PolynomialCoefficients(transcriptInverse, rInverse);
    var c := hash(transcript[0], ckAFinal, ckBFinal);
    var ckAEval := PolynomialEvaluationProductForm(transcriptInverse, c, rInverse);
    var ckBEval := PolynomialEvaluationProductForm(transcript, c, 1);
    // The product-form evaluations are the values at c, so the divisions leave no remainder.
    TranscriptPolynomialForms(transcriptInverse, c, rInverse);
    TranscriptPolynomialForms(transcript, c, 1);
    assert Eval(ckAPolynomial, c) - ckAEval == 0 && Eval(ckBPolynomial, c) - ckBEval == 0;
    var n := |srs.gAlphaPowers|;
    var quotientA := Resize(DivideByLinear(ckAPolynomial, c), n);
    var quotientB := Resize(DivideByLinear(ckBPolynomial, c), n);
    var proofA := InnerProduct(srs.hBetaPowers, quotientA);
    if proofA.Err? {
      return Err(proofA.error);
    }
    var proofB := InnerProduct(srs.gAlphaPowers, quotientB);
    r := Ok((proofA.value, proofB.value));
  }

  /**
   * The two pairing checks of `verify_with_srs_shift` at the point `c`,
   * a pairing `e(x, y)` read as `x y`:
   * `e(g, ck_a - h A(c)) = e(g_beta - g c, proof_a)` and
   * `e(ck_b - g B(c), h) = e(proof_b, h_alpha - h c)`, with `A`, `B` in product form.
   */
  predicate FinalKeysValid(vk: VerifierSrs, t: seq<int>, tInv: seq<int>, rInverse: int,
                           ckAFinal: int, ckBFinal: int, proofA: int, proofB: int, c: int) {
    && Eqv(vk.g * (ckAFinal - vk.h * ProductForm(tInv, c, rInverse)), (vk.gBeta - vk.g * c) * proofA)
    && Eqv((ckBFinal - vk.g * ProductForm(t, c, 1)) * vk.h, proofB * (vk.hAlpha - vk.h * c))
  }

  /** The check of the base commitments against the final keys: `commit([ck], [m])` for each of the three. */
  predicate BaseValid(ckAFinal: int, ckBFinal: int, kt: int, base: (int, int), baseCom: Gipa.Triple) {
    && Eqv(ckAFinal * base.0, baseCom.a)
    && Eqv(ckBFinal * base.1, baseCom.b)
    && Eqv(kt * (base.0 * base.1), baseCom.t)
  }

  /**
   * `verify_with_srs_shift` after the GIPA transcript check (which is not
   * part of this model and supplies the transcript and the base
   * commitments): the KZG point, both evaluations in product form, the
   * two pairing checks and the three base checks.
   */
  method VerifyFinalKeys(vk: VerifierSrs, kt: int, transcript: seq<int>, transcriptInverse: seq<int>,
                         rShift: int, rInverse: int, ckAFinal: int, ckBFinal: int, proof: (int, int),
                         base: (int, int), baseCom: Gipa.Triple, hash: KzgOracle)
    returns (valid: bool)
    requires |transcript| >= 1
    requires AreInverses(transcript, transcriptInverse) && IsInverse(rShift, rInverse)
    ensures valid <==>
      && FinalKeysValid(vk, transcript, transcriptInverse, rInverse, ckAFinal, ckBFinal, proof.0, proof.1,
                        hash(transcript[0], ckAFinal, ckBFinal))
      && BaseValid(ckAFinal, ckBFinal, kt, base, baseCom)
  {
    var c := hash(transcript[0], ckAFinal, ckBFinal);
    var ckAEval := PolynomialEvaluationProductForm(transcriptInverse, c, rInverse);
    var ckBEval := PolynomialEvaluationProductForm(transcript, c, 1);
    var ckAValid := Eqv(vk.g * (ckAFinal - vk.h * ckAEval), (vk.gBeta - vk.g * c) * proof.0);
    var ckBValid := Eqv((ckBFinal - vk.g * ckBEval) * vk.h, proof.1 * (vk.hAlpha - vk.h * c));
    var tBase := base.0 * base.1;
    Pedersen.VerifySingleton(ckAFinal, base.0, baseCom.a);
    Pedersen.VerifySingleton(ckBFinal, base.1, baseCom.b);
    Pedersen.VerifySingleton(kt, tBase, baseCom.t);
    var baseValid := Pedersen.Verify([ckAFinal], [base.0], baseCom.a) == Ok(true)
      && Pedersen.Verify([ckBFinal], [base.1], baseCom.b) == Ok(true)
      && Pedersen.Verify([kt], [tBase], baseCom.t) == Ok(true);
    assert baseValid == BaseValid(ckAFinal, ckBFinal, kt, base, baseCom);
    assert ckAValid && ckBValid <==>
      FinalKeysValid(vk, transcript, transcriptInverse, rInverse, ckAFinal, ckBFinal, proof.0, proof.1, c);
    valid := ckAValid && ckBValid && baseValid;
  }

  /**
   * One side of the opening: under keys `k[i] = gen s^i` the quotient
   * commitment times `s - c` is `gen (A(s) - A(c))` for the transcript
   * polynomial `A` in product form.
   */
  lemma {:induction false} QuotientCommitment(k: seq<int>, gen: int, s: int, t: seq<int>, r: int, c: int)
    requires |k| == 2 * Pow2(|t|) - 1
    requires forall i :: 0 <= i < |k| ==> k[i] == gen * Pow(s, i)
    ensures (s - c) * Dot(k, OpeningQuotient(t, r, c, |k|)) == gen * (ProductForm(t, s, r) - ProductForm(t, c, r))
  {
    var p := Interleave(TranscriptCoefficients(t, r));
    var q := DivideByLinear(p, c);
    QuotientAtKeys(k, gen, s, t, r, c);
    DivideByLinearIsExact(p, c, s);
    TranscriptPolynomialForms(t, s, r);
    TranscriptPolynomialForms(t, c, r);
    ScaledQuotient(gen, s, c, Dot(k, OpeningQuotient(t, r, c, |k|)), Eval(q, s), Eval(p, s), Eval(p, c));
  }

  /** Under keys `gen s^i` the quotient commitment is `gen` times the quotient at `s`. */
  lemma {:induction false} QuotientAtKeys(k: seq<int>, gen: int, s: int, t: seq<int>, r: int, c: int)
    requires |k| == 2 * Pow2(|t|) - 1
    requires forall i :: 0 <= i < |k| ==> k[i] == gen * Pow(s, i)
    ensures Dot(k, OpeningQuotient(t, r, c, |k|)) == gen * Eval(DivideByLinear(Interleave(TranscriptCoefficients(t, r)), c), s)
  {
    var q := DivideByLinear(Interleave(TranscriptCoefficients(t, r)), c);
    assert OpeningQuotient(t, r, c, |k|) == q by { assert q[..|k|] == q; }
    DotWithPowers(k, gen, s, q);
  }

  lemma {:induction false} ScaledQuotient(gen: int, s: int, c: int, d: int, e: int, a: int, ac: int)
    requires d == gen * e && a - ac == (s - c) * e
    ensures (s - c) * d == gen * (a - ac)
  {
  }

  /**
   * KZG completeness for the final keys: if the final keys are the
   * transcript polynomials evaluated at the trapdoors "in the exponent",
   * the quotient commitments of `ProveFinalKeys` pass both pairing checks
   * of `VerifyFinalKeys`, whatever the challenge point.
   */
  lemma {:induction false} FinalKeyOpeningCompleteness(srs: Srs, size: nat, alpha: int, beta: int, g: int, h: int,
                                    t: seq<int>, tInv: seq<int>, rInverse: int, c: int)
    requires IsSetup(srs, size, alpha, beta, g, h) && size == Pow2(|t|) && |tInv| == |t|
    ensures FinalKeysValid(GetVerifierKey(srs), t, tInv, rInverse,
                           h * ProductForm(tInv, beta, rInverse), g * ProductForm(t, alpha, 1),
                           Dot(srs.hBetaPowers, OpeningQuotient(tInv, rInverse, c, 2 * size - 1)),
                           Dot(srs.gAlphaPowers, OpeningQuotient(t, 1, c, 2 * size - 1)), c)
  {
    VerifierKeyOfSetup(srs, size, alpha, beta, g, h);
    var vk := GetVerifierKey(srs);
    FinalKeyACheck(vk, srs.hBetaPowers, h, beta, tInv, rInverse, c, 2 * size - 1);
    FinalKeyBCheck(vk, srs.gAlphaPowers, g, alpha, t, c, 2 * size - 1);
  }

  /** The `ck_a` pairing check for keys `k[i] = h beta^i` and `g_beta = g beta`. */
  lemma {:induction false} FinalKeyACheck(vk: VerifierSrs, k: seq<int>, h: int, beta: int, tInv: seq<int>,
                                          rInverse: int, c: int, n: nat)
    requires n == |k| == 2 * Pow2(|tInv|) - 1
    requires forall i :: 0 <= i < |k| ==> k[i] == h * Pow(beta, i)
    requires vk.h == h && vk.gBeta == vk.g * beta
    ensures Eqv(vk.g * (h * ProductForm(tInv, beta, rInverse) - vk.h * ProductForm(tInv, c, rInverse)),
                (vk.gBeta - vk.g * c) * Dot(k, OpeningQuotient(tInv, rInverse, c, n)))
  {
    QuotientCommitment(k, h, beta, tInv, rInverse, c);
    PairingA(vk.g, h, vk.h, vk.gBeta, beta, c, ProductForm(tInv, beta, rInverse), ProductForm(tInv, c, rInverse),
             Dot(k, OpeningQuotient(tInv, rInverse, c, n)));
  }

  /** The `ck_b` pairing check for keys `k[i] = g alpha^i` and `h_alpha = h alpha`. */
  lemma {:induction false} FinalKeyBCheck(vk: VerifierSrs, k: seq<int>, g: int, alpha: int, t: seq<int>, c: int, n: nat)
    requires n == |k| == 2 * Pow2(|t|) - 1
    requires forall i :: 0 <= i < |k| ==> k[i] == g * Pow(alpha, i)
    requires vk.g == g && vk.hAlpha == vk.h * alpha
    ensures Eqv((g * ProductForm(t, alpha, 1) - vk.g * ProductForm(t, c, 1)) * vk.h,
                Dot(k, OpeningQuotient(t, 1, c, n)) * (vk.hAlpha - vk.h * c))
  {
    QuotientCommitment(k, g, alpha, t, 1, c);
    PairingB(vk.h, g, vk.g, vk.hAlpha, alpha, c, ProductForm(t, alpha, 1), ProductForm(t, c, 1),
             Dot(k, OpeningQuotient(t, 1, c, n)));
  }

  lemma {:induction false} PairingA(x: int, y: int, y': int, xs: int, s: int, c: int, a: int, ac: int, q: int)
    requires (s - c) * q == y * (a - ac) && y' == y && xs == x * s
    ensures Eqv(x * (y * a - y' * ac), (xs - x * c) * q)
  {
    KzgAlgebra(x, y, s, c, a, ac, q);
  }

  lemma {:induction false} PairingB(x: int, y: int, y': int, xs: int, s: int, c: int, b: int, bc: int, q: int)
    requires (s - c) * q == y * (b - bc) && y' == y && xs == x * s
    ensures Eqv((y * b - y' * bc) * x, q * (xs - x * c))
  {
    KzgAlgebra(x, y, s, c, b, bc, q);
  }

  /** One pairing check: `(s - c) q = y (a - a_c)` gives `x (y a - y a_c) = (x s - x c) q`. */
  lemma {:induction false} KzgAlgebra(x: int, y: int, s: int, c: int, a: int, ac: int, q: int)
    requires (s - c) * q == y * (a - ac)
    ensures Eqv(x * (y * a - y * ac), (x * s - x * c) * q)
    ensures Eqv((y * a - y * ac) * x, q * (x * s - x * c))
  {
    calc {
      x * (y * a - y * ac);
      x * (y * (a - ac));
      x * ((s - c) * q);
      (x * s - x * c) * q;
    }
  }

  // ---------------------------------------------------------------------
  // The final keys of a GIPA run

  /** The inverses `c_inv` of a list of challenges, one challenge at a time. */
  function ChallengeInverses(chs: seq<Gipa.Challenge>): (t: seq<int>)
    ensures |t| == |chs| && forall i :: 0 <= i < |chs| ==> t[i] == chs[i].cInv
  {
    if chs == [] then [] else [chs[0].cInv] + ChallengeInverses(chs[1..])
  }

  /**
   * The inverse transcript of a GIPA run inverts its transcript entry by
   * entry, as `transcript_inverse` is computed from `transcript`.
   */
  lemma {:induction false} RunInversesInvertTranscript(s: Gipa.Instance, kt: int, prev: int, h: Gipa.Oracle)
    requires Gipa.WellShaped(s) && Gipa.ValidOracle(h)
    ensures var chs := Gipa.Rounds(s, kt, prev, h).challenges;
      AreInverses(Gipa.Transcript(chs), ChallengeInverses(chs))
  {
    var chs := Gipa.Rounds(s, kt, prev, h).challenges;
    forall i | 0 <= i < |chs|
      ensures IsInverse(Gipa.Transcript(chs)[i], ChallengeInverses(chs)[i])
    {
      Gipa.ChallengesInvertible(s, kt, prev, h, i);
    }
  }

  /**
   * One round folds the key `ck_hi x + ck_lo`; against the transcript
   * coefficients that is the whole key against the coefficients with `x`
   * appended.
   */
  lemma {:induction false} KeyFoldStep(ck: seq<int>, x: int, rest: seq<int>)
    requires |ck| == 2 * Pow2(|rest|)
    ensures Dot(ScaleAdd(ck[Pow2(|rest|)..], x, ck[..Pow2(|rest|)]), TranscriptCoefficients(rest, 1))
         == Dot(ck, TranscriptCoefficients(rest + [x], 1))
  {
    var m := Pow2(|rest|);
    var coeffs := TranscriptCoefficients(rest, 1);
    var scaled := ScaleVec(x, coeffs);
    TranscriptCoefficientsSnocOne(rest, x);
    DotSplit(ck, coeffs + scaled, m);
    assert (coeffs + scaled)[..m] == coeffs && (coeffs + scaled)[m..] == scaled;
    Pedersen.CommitScalesWithMessage(ck[m..], x, coeffs);
    DotOfScaleAdd(ck[m..], x, ck[..m], coeffs);
  }

  /** With shift one, a new last challenge `x` appends the coefficients scaled by `x`. */
  lemma {:induction false} TranscriptCoefficientsSnocOne(rest: seq<int>, x: int)
    ensures TranscriptCoefficients(rest + [x], 1)
         == TranscriptCoefficients(rest, 1) + ScaleVec(x, TranscriptCoefficients(rest, 1))
  {
    assert (rest + [x])[..|rest|] == rest;
    PowOfOne(Pow2(|rest|));
  }

  /**
   * A key folded round by round with the scalars `xs` (`ck_hi x + ck_lo`
   * each round), as GIPA folds its commitment keys.
   */
  function FoldKey(ck: seq<int>, xs: seq<int>): int
    requires |ck| == Pow2(|xs|)
    decreases |xs|
  {
    if xs == [] then ck[0]
    else
      var m := Pow2(|xs| - 1);
      FoldKey(ScaleAdd(ck[m..], xs[0], ck[..m]), xs[1..])
  }

  /** The final keys of a run are its keys folded with the challenges: `ck_a` with the inverses, `ck_b` with the challenges. */
  lemma {:induction false} GipaFinalKeysFold(s: Gipa.Instance, kt: int, prev: int, hash: Gipa.Oracle)
    requires Gipa.WellShaped(s)
    ensures var run := Gipa.Rounds(s, kt, prev, hash);
      && |s.ma| == Pow2(|run.challenges|)
      && run.finalKeys == (FoldKey(s.cka, ChallengeInverses(run.challenges)), FoldKey(s.ckb, Gipa.Transcript(run.challenges)))
    decreases |s.ma|
  {
    var run := Gipa.Rounds(s, kt, prev, hash);
    Gipa.RoundsCount(s, kt, prev, hash);
    if |s.ma| == 1 {
      assert run.challenges == [] && run.finalKeys == (s.cka[0], s.ckb[0]);
      assert ChallengeInverses(run.challenges) == [] && Gipa.Transcript(run.challenges) == [];
    } else {
      var st := Gipa.CrossTerms(s, kt);
      var ch := hash(prev, st.com1, st.com2);
      var s' := Gipa.Fold(s, ch);
      var rest := Gipa.Rounds(s', kt, ch.c, hash);
      assert run.challenges == [ch] + rest.challenges && run.finalKeys == rest.finalKeys;
      GipaFinalKeysFold(s', kt, ch.c, hash);
      assert |s.ma| == 2 * Pow2(|rest.challenges|);
      FoldKeyOfFold(s, ch, rest.challenges);
    }
  }

  /** One round of key folding is one step of `FoldKey`, on both sides. */
  lemma {:induction false} FoldKeyOfFold(s: Gipa.Instance, ch: Gipa.Challenge, chs: seq<Gipa.Challenge>)
    requires Gipa.WellShaped(s) && |s.ma| == 2 * Pow2(|chs|)
    ensures FoldKey(s.cka, ChallengeInverses([ch] + chs)) == FoldKey(Gipa.Fold(s, ch).cka, ChallengeInverses(chs))
    ensures FoldKey(s.ckb, Gipa.Transcript([ch] + chs)) == FoldKey(Gipa.Fold(s, ch).ckb, Gipa.Transcript(chs))
  {
    var s' := Gipa.Fold(s, ch);
    FoldedKeys(s, ch, Pow2(|chs|));
    ChallengeInversesCons(ch, chs);
    Gipa.TranscriptCons(ch, chs);
    FoldKeyStep(s.cka, s'.cka, ch.cInv, ChallengeInverses(chs), ChallengeInverses([ch] + chs));
    FoldKeyStep(s.ckb, s'.ckb, ch.c, Gipa.Transcript(chs), Gipa.Transcript([ch] + chs));
  }

  lemma {:induction false} FoldedKeys(s: Gipa.Instance, ch: Gipa.Challenge, m: nat)
    requires Gipa.WellShaped(s) && |s.ma| == 2 * m && m >= 1
    ensures Gipa.Fold(s, ch).cka == ScaleAdd(s.cka[m..], ch.cInv, s.cka[..m])
    ensures Gipa.Fold(s, ch).ckb == ScaleAdd(s.ckb[m..], ch.c, s.ckb[..m])
  {
    assert |s.ma| / 2 == m;
  }

  lemma {:induction false} ChallengeInversesCons(ch: Gipa.Challenge, chs: seq<Gipa.Challenge>)
    ensures ChallengeInverses([ch] + chs) == [ch.cInv] + ChallengeInverses(chs)
  {
    assert ([ch] + chs)[1..] == chs;
  }

  lemma {:induction false} FoldKeyStep(ck: seq<int>, ck': seq<int>, x: int, xs: seq<int>, all: seq<int>)
    requires |ck| == 2 * Pow2(|xs|) && all == [x] + xs
    requires ck' == ScaleAdd(ck[Pow2(|xs|)..], x, ck[..Pow2(|xs|)])
    ensures FoldKey(ck, all) == FoldKey(ck', xs)
  {
    FoldKeyCons(ck, x, xs);
  }

  lemma {:induction false} FoldKeyCons(ck: seq<int>, x: int, xs: seq<int>)
    requires |ck| == 2 * Pow2(|xs|)
    ensures FoldKey(ck, [x] + xs) == FoldKey(ScaleAdd(ck[Pow2(|xs|)..], x, ck[..Pow2(|xs|)]), xs)
  {
    assert ([x] + xs)[1..] == xs;
  }

  /**
   * Folding a key with `xs` commits it to the transcript coefficients of
   * `xs` taken last first, with shift one.
   */
  lemma {:induction false} FoldKeyIsCommitment(ck: seq<int>, xs: seq<int>)
    requires |ck| == Pow2(|xs|)
    ensures FoldKey(ck, xs) == Dot(ck, TranscriptCoefficients(Reverse(xs), 1))
    decreases |xs|
  {
    if xs == [] {
      assert Dot(ck, [1]) == ck[0] * 1 + Dot(ck[1..], []);
    } else {
      var m, tail := Pow2(|xs| - 1), xs[1..];
      var ck' := ScaleAdd(ck[m..], xs[0], ck[..m]);
      assert FoldKey(ck, xs) == FoldKey(ck', tail);
      FoldKeyIsCommitment(ck', tail);
      ReverseOfHead(xs);
      KeyFoldStep(ck, xs[0], Reverse(tail));
    }
  }

  lemma {:induction false} ReverseOfHead(xs: seq<int>)
    requires xs != []
    ensures Reverse(xs) == Reverse(xs[1..]) + [xs[0]] && |Reverse(xs[1..])| == |xs| - 1
  {
    assert xs == [xs[0]] + xs[1..];
    ReverseCons(xs[0], xs[1..]);
  }

  lemma {:induction false} ReverseCons<T>(x: T, s: seq<T>)
    ensures Reverse([x] + s) == Reverse(s) + [x]
  {
    assert ([x] + s)[1..] == s;
  }

  /**
   * The final keys of a run are the original keys committed to the
   * transcript coefficients with shift one, taking the transcript last
   * round first: `ck_b` with the challenges, `ck_a` with their inverses.
   */
  lemma {:induction false} GipaFinalKeys(s: Gipa.Instance, kt: int, prev: int, hash: Gipa.Oracle)
    requires Gipa.WellShaped(s)
    ensures var run := Gipa.Rounds(s, kt, prev, hash);
      && |s.ma| == Pow2(|run.challenges|)
      && run.finalKeys.0 == Dot(s.cka, TranscriptCoefficients(Reverse(ChallengeInverses(run.challenges)), 1))
      && run.finalKeys.1 == Dot(s.ckb, TranscriptCoefficients(Reverse(Gipa.Transcript(run.challenges)), 1))
  {
    var run := Gipa.Rounds(s, kt, prev, hash);
    var inv, tr := ChallengeInverses(run.challenges), Gipa.Transcript(run.challenges);
    GipaFinalKeysFold(s, kt, prev, hash);
    assert run.finalKeys == (FoldKey(s.cka, inv), FoldKey(s.ckb, tr));
    FoldKeyIsCommitment(s.cka, inv);
    FoldKeyIsCommitment(s.ckb, tr);
  }

  /**
   * With keys built from the reference string (`ck_a` shifted by powers of
   * `r_inverse`), the final keys of a run are the transcript polynomials,
   * in product form, at the trapdoors: `h A(beta)` and `g B(alpha)`.
   */
  lemma {:induction false} GipaFinalKeysAtTrapdoors(s: Gipa.Instance, kt: int, prev: int, hash: Gipa.Oracle,
                                 g: int, alpha: int, h: int, beta: int, rInverse: int)
    requires Gipa.WellShaped(s)
    requires forall i :: 0 <= i < |s.cka| ==> s.cka[i] == h * Pow(beta * beta * rInverse, i)
    requires forall i :: 0 <= i < |s.ckb| ==> s.ckb[i] == g * Pow(alpha * alpha, i)
    ensures var run := Gipa.Rounds(s, kt, prev, hash);
      && run.finalKeys.0 == h * ProductForm(Reverse(ChallengeInverses(run.challenges)), beta, rInverse)
      && run.finalKeys.1 == g * ProductForm(Reverse(Gipa.Transcript(run.challenges)), alpha, 1)
  {
    var run := Gipa.Rounds(s, kt, prev, hash);
    var ta, tb := Reverse(ChallengeInverses(run.challenges)), Reverse(Gipa.Transcript(run.challenges));
    GipaFinalKeys(s, kt, prev, hash);
    Gipa.RoundsCount(s, kt, prev, hash);
    DotWithPowers(s.cka, h, beta * beta * rInverse, TranscriptCoefficients(ta, 1));
    DotWithPowers(s.ckb, g, alpha * alpha, TranscriptCoefficients(tb, 1));
    CoefficientsEvaluate(ta, 1, beta * beta * rInverse);
    CoefficientsEvaluate(tb, 1, alpha * alpha);
    ProductFormIsProductAt(ta, beta, rInverse);
    ProductFormIsProductAt(tb, alpha, 1);
    assert 1 * (beta * beta * rInverse) == beta * beta * rInverse;
    assert 1 * (alpha * alpha) == alpha * alpha * 1;
  }

  /**
   * End to end, with or without the shift of `prove_with_srs_shift`: GIPA
   * run on the keys of a set-up string, the `ck_a` side scaled entry by
   * entry by the powers of `r_inverse` (`r_inverse = 1` is the unshifted
   * argument). The final keys and the prover's quotient commitments, taken
   * with the transcript last round first, pass the verifier's pairing
   * checks at every challenge point.
   */
  lemma {:induction false} TipaFinalKeysVerify(srs: Srs, size: nat, alpha: int, beta: int, g: int, h: int,
                            s: Gipa.Instance, kt: int, hash: Gipa.Oracle, rInverse: int, c: int)
    requires IsSetup(srs, size, alpha, beta, g, h) && Gipa.WellShaped(s) && |s.ma| == size
    requires |s.cka| == size
    requires forall i :: 0 <= i < size ==> s.cka[i] == GetCommitmentKeys(srs).0[i] * Pow(rInverse, i)
    requires s.ckb == GetCommitmentKeys(srs).1
    ensures var run := Gipa.Rounds(s, kt, 0, hash);
      var t, tInv := Reverse(Gipa.Transcript(run.challenges)), Reverse(ChallengeInverses(run.challenges));
      FinalKeysValid(GetVerifierKey(srs), t, tInv, rInverse, run.finalKeys.0, run.finalKeys.1,
                     Dot(srs.hBetaPowers, OpeningQuotient(tInv, rInverse, c, 2 * size - 1)),
                     Dot(srs.gAlphaPowers, OpeningQuotient(t, 1, c, 2 * size - 1)), c)
  {
    var run := Gipa.Rounds(s, kt, 0, hash);
    CommitmentKeysOfSetup(srs, size, alpha, beta, g, h);
    forall i | 0 <= i < |s.cka|
      ensures s.cka[i] == h * Pow(beta * beta * rInverse, i)
    {
      ShiftedKey(h, beta * beta, rInverse, i, GetCommitmentKeys(srs).0[i]);
    }
    assert alpha * alpha * 1 == alpha * alpha;
    forall i | 0 <= i < |s.ckb|
      ensures s.ckb[i] == g * Pow(alpha * alpha, i)
    {
    }
    GipaFinalKeysAtTrapdoors(s, kt, 0, hash, g, alpha, h, beta, rInverse);
    Gipa.RoundsCount(s, kt, 0, hash);
    FinalKeyOpeningCompleteness(srs, size, alpha, beta, g, h,
                                Reverse(Gipa.Transcript(run.challenges)), Reverse(ChallengeInverses(run.challenges)),
                                rInverse, c);
  }

  /** A key `h b^i` scaled by `r^i` is `h (b r)^i`. */
  lemma ShiftedKey(h: int, b: int, r: int, i: nat, k: int)
    requires k == h * Pow(b, i)
    ensures k * Pow(r, i) == h * Pow(b * r, i)
  {
    PowProduct(b, r, i);
  }
}
