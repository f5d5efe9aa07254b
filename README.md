# ripp core in Dafny

This project models the core of `ripp`, a Rust library of inner-pairing-product arguments:

- **GIPA**, the generalised inner product argument (`gipa/src/lib.rs`). It halves a committed inner-product statement round by round. Each round uses a Fiat-Shamir challenge `c` and its inverse `c_inv`.
- **Pedersen commitments** (`dh_commitments/src/pedersen/mod.rs`).
- **TIPA**'s reference string and helpers (`ip_proofs/src/tipa/mod.rs`).
  - The helpers build the transcript polynomial, coefficient by coefficient or in product form.
  - TIPA proves and checks by KZG openings that the final GIPA commitment keys are well formed.
- **The polynomial commitments** built on TIPA (`ip_proofs/src/applications/poly_commit.rs`):
  - KZG commit, open and verify.
  - Bivariate polynomials: evaluation, commitment and opening.
  - Univariate polynomials: the reshaping into bivariate form, and opening at `(y^(d+1), y)`.

Scalars are integers taken modulo the BLS12-381 scalar-field order `P` (`Field.P`). A group element is its discrete logarithm with respect to a fixed generator. So:

- a multi-scalar multiplication is a dot product (`InnerProducts.Dot`);
- a pairing `e(x, y)` is the product `x * y`;
- equality in the field or a group is congruence modulo `P` (`Field.Eqv`).

Most identities, such as reshaping, polynomial forms and linearity, hold exactly over the integers and are proved that way. Only the steps that need `c * c_inv = 1` are stated as congruences.

The modules follow the crates:

| Module | File | Models |
|---|---|---|
| `Field` | field.dfy | scalars and the modulus |
| `Bits` and `Seqs` | bits.dfy | powers of two, the bits of an index, reversal |
| `InnerProducts` | inner_products.dfy | dot products and the vector operations of folding |
| `Polynomials` | polynomials.dfy | coefficient lists, Horner evaluation, synthetic division by `X - c` |
| `Pedersen` | pedersen.dfy | the Pedersen commitment |
| `Gipa` | gipa.dfy | the prover, its rounds and their folding identities |
| `Tipa` | tipa.dfy | the reference string, transcript polynomials, final-key proofs and checks |
| `PolyCommit` | poly_commit.dfy | KZG, bivariate and univariate polynomial commitments |

The Fiat-Shamir hash is a function-typed parameter:

- In `Gipa` it is a `Gipa.Oracle`. `Gipa.ValidOracle` says that every answer it gives is an inverse pair.
- In `Tipa` it is a `Tipa.KzgOracle`, applied to the first transcript entry and the two final keys.

The state-changing loops of the source are methods with loop invariants:

- `structured_generators_scalar_power`;
- the two transcript-polynomial helpers;
- `bivariate_form`;
- the powers of `x`.

GIPA's recursion is a recursive method, `Gipa.RecursiveProve`, that appends each round's step and challenge after the recursive call.

Expression-only code is modelled as functions.

## Model

| member | source | states |
|---|---|---|
| Bits.CountOnesIsPowerOfTwo | gipa/src/lib.rs:121 | a length has exactly one set bit iff it is a power of two, which is what the prover's `count_ones() != 1` test rejects |
| InnerProducts.InnerProduct | gipa/src/lib.rs:118 | the inner product fails with `InvalidInputLength(|u|, |v|)` exactly when the lengths differ, and otherwise is the sum of pairwise products |
| Pedersen.Commit | dh_commitments/src/pedersen/mod.rs:29-33 | a commitment fails exactly on a key/message length mismatch, and otherwise is the multi-exponentiation `sum_i m_i k_i` |
| Pedersen.Verify | dh_commitments/src/pedersen/mod.rs:29-33 | verification fails on a length mismatch, and otherwise accepts exactly when recomputing the commitment gives `com` |
| Pedersen.CommitSingleton | dh_commitments/src/pedersen/mod.rs:29-33 | a one-element commitment is `m k` |
| Pedersen.CommitAdditiveInMessage | dh_commitments/src/pedersen/mod.rs:29-33 | commitment is additive in the message |
| Pedersen.CommitAdditiveInKey | dh_commitments/src/pedersen/mod.rs:29-33 | commitment is additive in the key |
| Pedersen.CommitScalesWithMessage | dh_commitments/src/pedersen/mod.rs:29-33 | scaling the message scales the commitment |
| Gipa.Prove | gipa/src/lib.rs:103-145 | the error of each failed check, in the source's order (length mismatch, wrong inner product, non-power-of-two length, commitments that do not open); success exactly when the statement is valid; and then the proof holds the round commitments, the base pair and the challenges, first round first |
| Gipa.RecursiveProve | gipa/src/lib.rs:148-253 | length 1 returns no steps, no challenges and the single pair; in general the steps and challenges come back last round first, with the base of the fully folded instance |
| Gipa.Fold | gipa/src/lib.rs:209-239 | folding keeps the four vectors equally long and halves their length |
| Gipa.Transcript | gipa/src/lib.rs:248 | built one challenge at a time, the transcript has one entry per challenge, entry `i` being challenge `i`'s `c` (that the challenges come in round order is `Gipa.Prove`'s contract) |
| Gipa.RoundsCount | gipa/src/lib.rs:165-250 | a run of length `2^k` has exactly `k` rounds, each with one step and one challenge |
| Gipa.ChallengeChain | gipa/src/lib.rs:193-206 | round `i`'s challenge is the hash of the previous challenge (the initial transcript value in round 0) and that round's two cross commitments |
| Gipa.RoundsChained | gipa/src/lib.rs:193-206 | over a whole run, every challenge is chained to the one before it (the initial transcript value for the first) through the hash of that round's cross commitments |
| Gipa.ChallengesInvertible | gipa/src/lib.rs:195-205 | with a hash whose outputs are inverse pairs, every challenge of the run is paired with its inverse |
| Gipa.FoldInnerProduct | gipa/src/lib.rs:209-223 | the folded messages' inner product is `<a, b> + c <a_1, b_1> + c_inv <a_2, b_2>` |
| Gipa.FoldLeftCommitment | gipa/src/lib.rs:209-231 | the folded left key and message commit to `com_a + c com_1.a + c_inv com_2.a` |
| Gipa.FoldRightCommitment | gipa/src/lib.rs:217-239 | the folded right key and message commit to `com_b + c com_1.b + c_inv com_2.b` |
| Gipa.FoldingIdentity | gipa/src/lib.rs:182-239 | one round's folding identity for all three commitments at once |
| Gipa.Completeness | gipa/src/lib.rs:148-253 | folding the statement's commitments with every round's cross terms and challenges gives the commitments of the final base pair under the final keys |
| Tipa.StructuredGeneratorsScalarPower | ip_proofs/src/tipa/mod.rs:298-310 | `num` generators with generator `i` equal to `g s^i` |
| Tipa.Setup | ip_proofs/src/tipa/mod.rs:122-136 | the reference string holds `2 size - 1` powers `g alpha^i` and `h beta^i`, plus `g beta` and `h alpha` |
| Tipa.EvenEntries | ip_proofs/src/tipa/mod.rs:86-87 | taking one entry and skipping one, as `step_by(2)` walks, yields `ceil(n/2)` entries, entry `i` being the one at position `2i` |
| Tipa.CommitmentKeysOfSetup | ip_proofs/src/tipa/mod.rs:85-89 | the commitment keys of a setup are `size` powers `h (beta^2)^i` and `g (alpha^2)^i` |
| Tipa.VerifierKeyOfSetup | ip_proofs/src/tipa/mod.rs:91-98 | the verifier key of a setup is `(g, h, g beta, h alpha)` |
| Tipa.PolynomialEvaluationProductForm | ip_proofs/src/tipa/mod.rs:312-324 | the loop computes `prod_k (1 + t_k z^(2^(k+1)) r^(2^k))`, which is 1 for an empty transcript |
| Tipa.TranscriptCoefficients | ip_proofs/src/tipa/mod.rs:327-334 | `k` challenges give `2^k` coefficients |
| Tipa.PolynomialCoefficients | ip_proofs/src/tipa/mod.rs:326-341 | the nested loops build the doubling coefficient vector and interleave it with zeros: `2^(k+1) - 1` entries, `[1]` for an empty transcript |
| Tipa.InterleaveAt | ip_proofs/src/tipa/mod.rs:335-340 | interleaving `n` coefficients with `n - 1` zeros puts coefficient `i` at position `2i` and zeros at odd positions |
| Tipa.CoefficientIsBitProduct | ip_proofs/src/tipa/mod.rs:327-334 | coefficient `j` is the product of `t_k r^(2^k)` over the set bits `k` of `j` |
| Tipa.CoefficientsEvaluate | ip_proofs/src/tipa/mod.rs:327-334 | the coefficient vector evaluated at `w` is `prod_k (1 + t_k (r w)^(2^k))` |
| Tipa.ProductFormIsProductAt | ip_proofs/src/tipa/mod.rs:312-324 | the product form at `z` is the product at `z^2 r` |
| Tipa.EvalInterleave | ip_proofs/src/tipa/mod.rs:335-340 | the zero-interleaved polynomial at `z` is the original at `z^2` |
| Tipa.TranscriptPolynomialForms | ip_proofs/src/tipa/mod.rs:312-341 | the coefficient form evaluated at `z` equals the product form at `z`, for every transcript, `z` and shift |
| Tipa.CoefficientCountMatchesSrs | ip_proofs/src/tipa/mod.rs:171 | the asserted length equality holds exactly when the setup size is `2^k` for `k` challenges |
| Tipa.ChallengeInverses | ip_proofs/src/tipa/mod.rs:162 | built one challenge at a time, the inverse transcript has one entry per challenge, entry `i` being challenge `i`'s `c_inv` |
| Tipa.RunInversesInvertTranscript | ip_proofs/src/tipa/mod.rs:161-162 | for a GIPA run under a hash whose outputs are inverse pairs, the inverse transcript inverts the transcript entry by entry, as `transcript_inverse` is computed |
| Tipa.ProveFinalKeys | ip_proofs/src/tipa/mod.rs:164-215 | the challenge is the hash of `(t_0, ck_a_final, ck_b_final)`; the two proofs are the quotient polynomials of the transcript polynomials (inverse transcript and `r_inv` for A, transcript and 1 for B) by `X - c`, resized and committed under the `h beta^i` and `g alpha^i` powers; a length mismatch of the two power lists is the length error |
| Tipa.VerifyFinalKeys | ip_proofs/src/tipa/mod.rs:234-295 | the verifier accepts exactly when both final-key pairing checks at the hashed challenge hold and the base pair opens the base commitments under the final keys |
| Tipa.QuotientCommitment | ip_proofs/src/tipa/mod.rs:191-215 | under keys `gen s^i`, `(s - c)` times a quotient commitment is `gen (A(s) - A(c))` |
| Tipa.FinalKeyOpeningCompleteness | ip_proofs/src/tipa/mod.rs:266-283 | if the final keys are the transcript polynomials at the trapdoors, the prover's quotient commitments pass both pairing checks at any challenge |
| Tipa.FoldKeyIsCommitment | gipa/src/lib.rs:225-239 | folding a key through challenges `x_1 … x_k` is committing to it with the coefficient vector of the reversed challenge list |
| Tipa.GipaFinalKeysFold | gipa/src/lib.rs:225-239 | GIPA's final keys fold the left key through the inverses and the right key through the challenges |
| Tipa.GipaFinalKeys | gipa/src/lib.rs:225-239 | GIPA's final keys are the original keys committed with the transcript-polynomial coefficients of the reversed inverse transcript and the reversed transcript |
| Tipa.GipaFinalKeysAtTrapdoors | ip_proofs/src/tipa/mod.rs:164-170 | with keys `h (beta^2 r_inv)^i` and `g (alpha^2)^i`, the final keys are `h A(beta)` and `g B(alpha)` for the product forms of the reversed transcripts |
| Tipa.TipaFinalKeysVerify | ip_proofs/src/tipa/mod.rs:147-223 | for a GIPA run on setup keys, the `ck_a` side shifted by the powers of any `r_inverse` (`1` for no shift), the final keys and the quotient proofs pass the verifier's pairing checks when the transcript is given last round first |
| PolyCommit.KzgCommitAtTrapdoor | ip_proofs/src/applications/poly_commit.rs:57-66 | under powers `g alpha^i` a KZG commitment is `g p(alpha)` |
| PolyCommit.KzgCompleteness | ip_proofs/src/applications/poly_commit.rs:57-91 | a KZG commitment and opening proof pass the pairing check at any point with the true value |
| PolyCommit.BivariateSetup | ip_proofs/src/applications/poly_commit.rs:125-131 | the TIPA string for `x_degree + 1` keys, and `y_degree + 1` KZG powers `g alpha^i` sliced from it, which needs `y_degree <= 2 x_degree`, as the string holds `2 x_degree + 1` powers |
| PolyCommit.PowersOf | ip_proofs/src/applications/poly_commit.rs:101-106 | the loop yields `n` entries, entry `i` equal to `x^i` |
| PolyCommit.Evaluate | ip_proofs/src/applications/poly_commit.rs:99-110 | the bivariate value is `sum_i x^i y_i(y)` |
| PolyCommit.BivariateForm | ip_proofs/src/applications/poly_commit.rs:229-243 | the form's rows are the coefficients zero-padded and cut at `(d+1)^2`, split into `d + 1` consecutive rows of `d + 1` |
| PolyCommit.ReadRows | ip_proofs/src/applications/poly_commit.rs:234-241 | the nested loops, reading `m^2` coefficients in order, build exactly the `m` consecutive rows of `m` of them |
| PolyCommit.BivariateFormCoefficient | ip_proofs/src/applications/poly_commit.rs:229-243 | exactly `d + 1` rows of `d + 1` coefficients; row `i`, column `j` is coefficient `i (d+1) + j` of `p`, zero past its end, so coefficients from `(d+1)^2` on are dropped |
| PolyCommit.BivariateFormEvaluation | ip_proofs/src/applications/poly_commit.rs:229-243 | if `p` has at most `(d+1)^2` coefficients, its bivariate form at `(y^(d+1), y)` is `p(y)` |
| PolyCommit.PaddedRows | ip_proofs/src/applications/poly_commit.rs:171-178 | `n` rows of `len` coefficients: entry `j` of row `i` is coefficient `j` of the input's row `i`, and zero for rows past the input's last row and columns past a row's end; longer rows are cut at `len` |
| PolyCommit.BivariateCommit | ip_proofs/src/applications/poly_commit.rs:133-151 | one KZG commitment per padded row, `|ck|` of them, and the pairing commitment `sum_i com_i ck_i` to that list |
| PolyCommit.BivariateOpen | ip_proofs/src/applications/poly_commit.rs:153-196 | `y_eval_comm` commits to the column sums weighted by the powers of `x`, and the KZG proof opens them at `y` |
| PolyCommit.SumInterchange | ip_proofs/src/applications/poly_commit.rs:179-181 | summing the weighted columns against a vector equals summing the rows against that vector with the weights |
| PolyCommit.YEvalCoeffsEvaluate | ip_proofs/src/applications/poly_commit.rs:171-181 | the polynomial `y_eval_coeffs` at `y` is the bivariate polynomial at `(x, y)` when no row is longer than the KZG powers |
| PolyCommit.YEvalCommitment | ip_proofs/src/applications/poly_commit.rs:179-188 | `y_eval_comm` is the inner product of the y-polynomial commitments with the powers of `x`, the statement handed to the second-tier argument |
| PolyCommit.BivariateOpenCompleteness | ip_proofs/src/applications/poly_commit.rs:153-215 | under KZG powers of a trapdoor, an opening's `y_eval_comm` satisfies the second-tier statement and passes the KZG check with the value at `(x, y)` |
| PolyCommit.UnivariatePointEvaluates | ip_proofs/src/applications/poly_commit.rs:266-268 | at the bivariate point `(y^(d+1), y)` chosen for `y`, the bivariate form of any polynomial with at most `(d+1)^2` coefficients takes the polynomial's value `p(y)` |
| PolyCommit.UnivariateCommit | ip_proofs/src/applications/poly_commit.rs:252-258 | the bivariate commitment of the bivariate form with `d = |kzg_srs| - 1` |
| PolyCommit.UnivariateOpen | ip_proofs/src/applications/poly_commit.rs:260-270 | the bivariate opening of the bivariate form at `(y^(d+1), y)` |
| PolyCommit.UnivariateVerify | ip_proofs/src/applications/poly_commit.rs:272-283 | acceptance is exactly the second-tier verdict at `x = y^(d+1)` together with the KZG check of `y_eval_comm` at `y` |
| PolyCommit.UnivariateOpenCompleteness | ip_proofs/src/applications/poly_commit.rs:252-283 | for at most `(d+1)^2` coefficients, the univariate opening passes the KZG check with the true value `p(y)` and satisfies the second-tier statement |

## Left out

- Elliptic curves, pairings and the target group are not modelled. Group elements are discrete logarithms, and pairing equality is congruence modulo `P`.
- Hashing and serialisation are left out: each Fiat-Shamir hash is an oracle parameter. The retry loops around `from_random_bytes` are left out too.
  - In GIPA the retry counter is never incremented (`gipa/src/lib.rs:194`), so a failed draw would repeat forever. The model takes the oracle's answer as always an inverse pair.
- Randomness in setups is left out. The trapdoors `alpha` and `beta`, the generators and `ck_t` are parameters.
- Field inversion is not modelled. `inverse().unwrap()` results are parameters, required to be inverses.
- `DensePolynomial` is not part of this model. Polynomials are coefficient lists, lowest degree first.
  - Division by `X - c` is synthetic division. Dropping the remainder, as `KZG::open` does, gives the same quotient as dividing `p - p(c)`.
  - Trailing zero coefficients are not trimmed. So `powers.len() >= degree + 1` becomes "no more coefficients than powers". `PolyCommit.BivariateCommit` demands this of every row. For untrimmed inputs that is stricter than the source.
- The `ip_proofs` copy of GIPA (`prove_with_aux`, `verify_recursive_challenge_transcript`) is not part of this model.
  - TIPA's final-key lemmas use the `gipa` crate's rounds as the run.
  - `Tipa.VerifyFinalKeys` takes the recovered transcript and base commitment as inputs.
- The second tier, TIPA with a structured scalar message, is not part of this model.
  - Its prover is left out, and its verifier's verdict is a parameter of `PolyCommit.UnivariateVerify`.
  - Its setup is taken to produce the TIPA reference string.
- The AFGHO commitment is not part of this model. It is taken as the pairing inner product `sum_i com_i ck_i`.
- `bivariate_degrees` (floating-point `sqrt` and `ceil`) and the univariate `setup` built on it are left out.
- Error `Display` and `source`, and the trait declarations, are not modelled.
- Source panics become preconditions; the model does not follow the panic:
- Tipa.Setup: requires `size >= 1`, because `2 * size - 1` underflows for `size = 0` (`ip_proofs/src/tipa/mod.rs:129-130`).
- Tipa.ProveFinalKeys: requires `|transcript| >= 1`, because `transcript.first().unwrap()` panics on an empty transcript (`ip_proofs/src/tipa/mod.rs:180`). A GIPA run over messages of length 1 has an empty transcript, so TIPA's prover panics on such messages.
- Tipa.ProveFinalKeys: requires `|g_alpha_powers| = 2 * 2^k - 1` for `k` challenges, the `assert_eq!` at `ip_proofs/src/tipa/mod.rs:171`.
- Tipa.VerifyFinalKeys: requires `|transcript| >= 1`, because `transcript.first().unwrap()` panics on an empty transcript (`ip_proofs/src/tipa/mod.rs:256`). TIPA's verifier panics on messages of length 1 for the same reason.
- PolyCommit.UnivariateCommit: requires a non-empty KZG string, because `srs.1.len() - 1` underflows otherwise (`ip_proofs/src/applications/poly_commit.rs:256`).
- PolyCommit.UnivariateOpen: requires a non-empty KZG string, because `srs.1.len() - 1` underflows otherwise (`ip_proofs/src/applications/poly_commit.rs:266`).
- PolyCommit.BivariateCommit: requires no more rows than commitment keys, the `assert!(ck.len() >= y_polynomials.len())` at `ip_proofs/src/applications/poly_commit.rs:139`.
- PolyCommit.BivariateCommit: requires a non-empty KZG string when there is at least one key. Each padding row is the zero polynomial, of degree 0 in the source, so `KZG::commit` asserts `powers.len() >= 1` (`ip_proofs/src/applications/poly_commit.rs:61`).
- PolyCommit.BivariateOpen: requires no more rows than commitment keys, the `assert!(ck_1.len() >= y_polynomials.len())` at `ip_proofs/src/applications/poly_commit.rs:162`.
- PolyCommit.BivariateOpen: requires a non-empty KZG string, because `KZG::open` of the column polynomial asserts `powers.len() >= degree + 1` (`ip_proofs/src/applications/poly_commit.rs:73`).
- PolyCommit.UnivariateCommit: requires `|kzg_srs| <= |ck|`, because the bivariate form has `|kzg_srs|` rows and `BivariatePolynomialCommitment::commit` asserts that `ck` is not shorter (`ip_proofs/src/applications/poly_commit.rs:139`).
- PolyCommit.UnivariateOpen: requires `|kzg_srs| <= |ck_1|`, for the same reason via the assert of `BivariatePolynomialCommitment::open` (`ip_proofs/src/applications/poly_commit.rs:162`).
- PolyCommit.BivariateSetup: requires `y_degree <= 2 x_degree`, because the slice `g_alpha_powers[0..y_degree + 1]` panics otherwise (`ip_proofs/src/applications/poly_commit.rs:129`).
