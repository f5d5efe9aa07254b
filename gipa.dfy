/**
 * GIPA, the generalized inner-product argument, instantiated with the
 * Pedersen-style dot-product commitment for the left message, the right
 * message and the inner-product value.
 *
 * `Prove` checks the statement (claimed inner product, power-of-two length,
 * the three commitments), then `RecursiveProve` halves the instance round by
 * round: it commits to the two cross terms, derives a challenge from the
 * previous challenge and those six commitments, folds both messages and
 * both keys with the challenge and its inverse, and recurses down to length
 * one. The steps and challenges come back innermost first and `Prove`
 * reverses them into round order.
 */
module Gipa {
  import opened Field
  import opened Bits
  import opened Seqs
  import opened InnerProducts
  import Pedersen

  /** `InnerProductArgumentError`, plus the length error that `?` passes on from the inner-product crate. */
  datatype Error =
    | MessageLengthInvalid(left: nat, right: nat)
    | InnerProductInvalid
    | LengthMismatch(cause: LengthError)

  /** A commitment triple: left message, right message, inner-product value. */
  datatype Triple = Triple(a: int, b: int, t: int)

  /** The two cross-term commitment triples `(com_1, com_2)` of one round. */
  datatype Step = Step(com1: Triple, com2: Triple)

  /** A Fiat-Shamir challenge `c` together with `c_inv`. */
  datatype Challenge = Challenge(c: int, cInv: int)

  /**
   * The Fiat-Shamir hash of a round: from the previous challenge and the six
   * cross-term commitments to a challenge and its inverse.
   */
  type Oracle = (int, Triple, Triple) -> Challenge

  /**
   * The challenge loop of a round only ends once the hash gives an
   * invertible scalar; the model takes that as given for every input.
   */
  ghost predicate ValidOracle(h: Oracle) {
    forall prev, com1, com2 :: IsInverse(h(prev, com1, com2).c, h(prev, com1, com2).cInv)
  }

  /** The state of one recursion level: both messages and both commitment keys. */
  datatype Instance = Instance(ma: seq<int>, mb: seq<int>, cka: seq<int>, ckb: seq<int>)

  /** Equal power-of-two lengths, as `recursive_prove` requires. */
  predicate WellShaped(s: Instance) {
    IsPowerOfTwo(|s.ma|) && |s.mb| == |s.ma| && |s.cka| == |s.ma| && |s.ckb| == |s.ma|
  }

  /** What a proof is: the cross terms and challenges in round order and the final pair. */
  datatype Proof = Proof(steps: seq<Step>, base: (int, int), transcript: seq<int>)

  /** The three commitments of an instance: `commit(ck_a, m_a)`, `commit(ck_b, m_b)`, `commit([ck_t], [<m_a, m_b>])`. */
  function Commitments(s: Instance, kt: int): Triple
    requires |s.mb| == |s.ma| == |s.cka| == |s.ckb|
  {
    Triple(Dot(s.cka, s.ma), Dot(s.ckb, s.mb), kt * Dot(s.ma, s.mb))
  }

  /**
   * The cross terms of a round. With `lo`/`hi` the halves below/above the
   * split, `com_1` commits to `a_hi` under `ck_a_lo`, to `b_lo` under
   * `ck_b_hi` and to `<a_hi, b_lo>`; `com_2` to the opposite halves.
   */
  function CrossTerms(s: Instance, kt: int): Step
    requires WellShaped(s) && |s.ma| >= 2
  {
    var split := |s.ma| / 2;
    var ma1, ma2, cka1, cka2 := s.ma[split..], s.ma[..split], s.cka[..split], s.cka[split..];
    var mb1, mb2, ckb1, ckb2 := s.mb[..split], s.mb[split..], s.ckb[split..], s.ckb[..split];
    // IPC::commit([ck_t], [v]) is v * ck_t (see Pedersen.CommitSingleton)
    Step(Triple(Dot(cka1, ma1), Dot(ckb1, mb1), kt * Dot(ma1, mb1)),
         Triple(Dot(cka2, ma2), Dot(ckb2, mb2), kt * Dot(ma2, mb2)))
  }

  /**
   * The fold of a round: `a' = a_hi c + a_lo`, `b' = b_hi c_inv + b_lo`,
   * `ck_a' = ck_a_hi c_inv + ck_a_lo`, `ck_b' = ck_b_hi c + ck_b_lo`; the
   * result is well shaped and half as long.
   */
  function Fold(s: Instance, ch: Challenge): (s': Instance)
    requires WellShaped(s) && |s.ma| >= 2
    ensures WellShaped(s') && |s'.ma| == |s.ma| / 2
  {
    var split := |s.ma| / 2;
    Instance(ScaleAdd(s.ma[split..], ch.c, s.ma[..split]),
             ScaleAdd(s.mb[split..], ch.cInv, s.mb[..split]),
             ScaleAdd(s.cka[split..], ch.cInv, s.cka[..split]),
             ScaleAdd(s.ckb[split..], ch.c, s.ckb[..split]))
  }

  /** What the recursion produces, in round order (index 0 is the outermost round). */
  datatype Run = Run(steps: seq<Step>, base: (int, int), challenges: seq<Challenge>, finalKeys: (int, int))

  /**
   * The rounds of the argument from instance `s`, with `prev` the challenge
   * of the round before (zero before the first).
   */
  function Rounds(s: Instance, kt: int, prev: int, h: Oracle): Run
    requires WellShaped(s)
    decreases |s.ma|
  {
    if |s.ma| == 1 then
      Run([], (s.ma[0], s.mb[0]), [], (s.cka[0], s.ckb[0]))
    else
      var st := CrossTerms(s, kt);
      var ch := h(prev, st.com1, st.com2);
      var rest := Rounds(Fold(s, ch), kt, ch.c, h);
      Run([st] + rest.steps, rest.base, [ch] + rest.challenges, rest.finalKeys)
  }

  /** The scalars `c` of a list of challenges, one challenge at a time: the transcript. */
  function Transcript(chs: seq<Challenge>): (t: seq<int>)
    ensures |t| == |chs| && forall i :: 0 <= i < |chs| ==> t[i] == chs[i].c
  {
    if chs == [] then [] else [chs[0].c] + Transcript(chs[1..])
  }

  lemma {:induction false} TranscriptCons(ch: Challenge, chs: seq<Challenge>)
    ensures Transcript([ch] + chs) == [ch.c] + Transcript(chs)
  {
    assert ([ch] + chs)[1..] == chs;
  }

  /**
   * `recursive_prove`: the base pair at length one, otherwise one round and
   * the recursive call, pushing this round's step and challenge after the
   * inner ones (so the results are innermost first).
   */
  method RecursiveProve(s: Instance, kt: int, transcript: int, h: Oracle)
    returns (steps: seq<Step>, base: (int, int), challenges: seq<int>)
    requires WellShaped(s) && ValidOracle(h)
    ensures |s.ma| == 1 ==> steps == [] && challenges == [] && base == (s.ma[0], s.mb[0])
    ensures steps == Reverse(Rounds(s, kt, transcript, h).steps)
    ensures challenges == Reverse(Transcript(Rounds(s, kt, transcript, h).challenges))
    ensures base == Rounds(s, kt, transcript, h).base
    decreases |s.ma|
  {
    if |s.ma| == 1 {
      return [], (s.ma[0], s.mb[0]), [];
    }
    var step := CrossTerms(s, kt);
    var ch := h(transcript, step.com1, step.com2);
    var rSteps, rBase, rTranscript := RecursiveProve(Fold(s, ch), kt, ch.c, h);
    ghost var rest := Rounds(Fold(s, ch), kt, ch.c, h);
    ReverseSnoc(rest.steps, step);
    ReverseSnoc(Transcript(rest.challenges), ch.c);
    TranscriptCons(ch, rest.challenges);
    steps := rSteps + [step];
    challenges := rTranscript + [ch.c];
    base := rBase;
  }

  /** The first two checks of `prove`: the claimed inner product and a power-of-two length. */
  predicate ClaimHolds(a: seq<int>, b: seq<int>, t: int) {
    |a| == |b| && Eqv(Dot(a, b), t) && IsPowerOfTwo(|a|)
  }

  /** A commitment `com` opens to message `m` under key `ck`. */
  predicate Opens(ck: seq<int>, m: seq<int>, com: int) {
    |ck| == |m| && Eqv(Dot(ck, m), com)
  }

  /** The statement `prove` accepts: every check it makes passes. */
  predicate ValidStatement(a: seq<int>, b: seq<int>, t: int, cka: seq<int>, ckb: seq<int>, kt: int, com: Triple) {
    ClaimHolds(a, b, t) && Opens(cka, a, com.a) && Opens(ckb, b, com.b) && Eqv(kt * t, com.t)
  }

  /**
   * `prove`: reject a wrong claimed inner product, a length that is not a
   * power of two, or a commitment that does not open, in that order (the
   * commitment checks short-circuit); otherwise run the rounds and return
   * them in round order.
   */
  method Prove(a: seq<int>, b: seq<int>, t: int, cka: seq<int>, ckb: seq<int>, kt: int, com: Triple, h: Oracle)
    returns (r: Result<Proof, Error>)
    requires ValidOracle(h)
    ensures |a| != |b| ==> r == Err(LengthMismatch(InvalidInputLength(|a|, |b|)))
    ensures |a| == |b| && !Eqv(Dot(a, b), t) ==> r == Err(InnerProductInvalid)
    ensures |a| == |b| && Eqv(Dot(a, b), t) && !IsPowerOfTwo(|a|) ==> r == Err(MessageLengthInvalid(|a|, |b|))
    ensures ClaimHolds(a, b, t) && |cka| != |a| ==> r == Err(LengthMismatch(InvalidInputLength(|cka|, |a|)))
    ensures ClaimHolds(a, b, t) && |cka| == |a| && !Opens(cka, a, com.a) ==> r == Err(InnerProductInvalid)
    ensures ClaimHolds(a, b, t) && Opens(cka, a, com.a) && |ckb| != |b|
      ==> r == Err(LengthMismatch(InvalidInputLength(|ckb|, |b|)))
    ensures ClaimHolds(a, b, t) && Opens(cka, a, com.a) && |ckb| == |b| && (!Opens(ckb, b, com.b) || !Eqv(kt * t, com.t))
            ==> r == Err(InnerProductInvalid)
    ensures r.Ok? <==> ValidStatement(a, b, t, cka, ckb, kt, com)
    ensures r.Ok? ==> var run := Rounds(Instance(a, b, cka, ckb), kt, 0, h);
      r.value == Proof(run.steps, run.base, Transcript(run.challenges))
  {
    var ip := InnerProduct(a, b);
    if ip.Err? {
      return Err(LengthMismatch(ip.error));
    }
    if !Eqv(ip.value, t) {
      return Err(InnerProductInvalid);
    }
    CountOnesIsPowerOfTwo(|a|);
    if CountOnes(|a|) != 1 {
      return Err(MessageLengthInvalid(|a|, |b|));
    }
    var okA := Pedersen.Verify(cka, a, com.a);
    if okA.Err? {
      return Err(LengthMismatch(okA.error));
    }
    if !okA.value {
      return Err(InnerProductInvalid);
    }
    var okB := Pedersen.Verify(ckb, b, com.b);
    if okB.Err? {
      return Err(LengthMismatch(okB.error));
    }
    if !okB.value {
      return Err(InnerProductInvalid);
    }
    var okT := Pedersen.Verify([kt], [t], com.t);
    assert Dot([kt], [t]) == kt * t + Dot([], []);
    if !okT.value {
      return Err(InnerProductInvalid);
    }
    var s := Instance(a, b, cka, ckb);
    var steps, base, transcript := RecursiveProve(s, kt, 0, h);
    ReverseReverse(Rounds(s, kt, 0, h).steps);
    ReverseReverse(Transcript(Rounds(s, kt, 0, h).challenges));
    steps := Reverse(steps);
    transcript := Reverse(transcript);
    r := Ok(Proof(steps, base, transcript));
  }

  /** A length-`2^k` instance takes exactly `k` rounds: `k` steps and `k` challenges. */
  lemma {:induction false} RoundsCount(s: Instance, kt: int, prev: int, h: Oracle)
    requires WellShaped(s)
    ensures |Rounds(s, kt, prev, h).steps| == |Rounds(s, kt, prev, h).challenges| == Log2(|s.ma|)
    decreases |s.ma|
  {
    if |s.ma| > 1 {
      var st := CrossTerms(s, kt);
      var ch := h(prev, st.com1, st.com2);
      RoundsCount(Fold(s, ch), kt, ch.c, h);
    }
  }

  /**
   * Round `i`'s challenge is the hash of the previous round's challenge
   * (`prev` before the first round) and of round `i`'s six cross-term
   * commitments, and it is invertible.
   */
  lemma {:induction false} ChallengeChain(s: Instance, kt: int, prev: int, h: Oracle, i: nat)
    requires WellShaped(s)
    requires i < |Rounds(s, kt, prev, h).challenges|
    ensures var run := Rounds(s, kt, prev, h);
      && |run.steps| == |run.challenges|
      && run.challenges[i] == h(if i == 0 then prev else run.challenges[i - 1].c, run.steps[i].com1, run.steps[i].com2)
  {
    RoundsChained(s, kt, prev, h);
  }

  /** Each challenge is the hash of the one before (`prev` first) and of its round's cross commitments. */
  ghost predicate Chained(prev: int, steps: seq<Step>, chs: seq<Challenge>, h: Oracle) {
    && |steps| == |chs|
    && forall i :: 0 <= i < |chs| ==> chs[i] == h(if i == 0 then prev else chs[i - 1].c, steps[i].com1, steps[i].com2)
  }

  lemma {:induction false} ChainedAt(prev: int, steps: seq<Step>, chs: seq<Challenge>, h: Oracle, i: nat)
    requires Chained(prev, steps, chs, h) && i < |chs|
    ensures chs[i] == h(if i == 0 then prev else chs[i - 1].c, steps[i].com1, steps[i].com2)
  {
  }

  lemma {:induction false} ChainedCons(prev: int, st: Step, ch: Challenge, steps: seq<Step>, chs: seq<Challenge>, h: Oracle)
    requires ch == h(prev, st.com1, st.com2) && Chained(ch.c, steps, chs, h)
    ensures Chained(prev, [st] + steps, [ch] + chs, h)
  {
    var steps', chs' := [st] + steps, [ch] + chs;
    forall i | 0 <= i < |chs'|
      ensures chs'[i] == h(if i == 0 then prev else chs'[i - 1].c, steps'[i].com1, steps'[i].com2)
    {
      if i > 0 {
        var before := if i == 1 then ch.c else chs[i - 2].c;
        ChainedAt(ch.c, steps, chs, h, i - 1);
        assert chs'[i] == chs[i - 1] && steps'[i] == steps[i - 1] && chs'[i - 1].c == before;
      } else {
        assert chs'[0] == ch && steps'[0] == st;
      }
    }
  }

  lemma {:induction false} RoundsChained(s: Instance, kt: int, prev: int, h: Oracle)
    requires WellShaped(s)
    ensures Chained(prev, Rounds(s, kt, prev, h).steps, Rounds(s, kt, prev, h).challenges, h)
    decreases |s.ma|
  {
    if |s.ma| > 1 {
      var st, ch, s' := RoundsStep(s, kt, prev, h);
      RoundsChained(s', kt, ch.c, h);
      ChainedCons(prev, st, ch, Rounds(s', kt, ch.c, h).steps, Rounds(s', kt, ch.c, h).challenges, h);
    }
  }

  /** Every challenge of a run under a valid oracle is an inverse pair. */
  lemma {:induction false} ChallengesInvertible(s: Instance, kt: int, prev: int, h: Oracle, i: nat)
    requires WellShaped(s) && ValidOracle(h)
    requires i < |Rounds(s, kt, prev, h).challenges|
    ensures IsInverse(Rounds(s, kt, prev, h).challenges[i].c, Rounds(s, kt, prev, h).challenges[i].cInv)
  {
    ChallengeChain(s, kt, prev, h, i);
  }

  /** One round: its step and challenge come first, then the rounds of the folded instance. */
  lemma {:induction false} RoundsStep(s: Instance, kt: int, prev: int, h: Oracle) returns (st: Step, ch: Challenge, s': Instance)
    requires WellShaped(s) && |s.ma| > 1
    ensures WellShaped(s') && |s'.ma| < |s.ma| && ch == h(prev, st.com1, st.com2)
    ensures Rounds(s, kt, prev, h).steps == [st] + Rounds(s', kt, ch.c, h).steps
    ensures Rounds(s, kt, prev, h).challenges == [ch] + Rounds(s', kt, ch.c, h).challenges
  {
    st := CrossTerms(s, kt);
    ch := h(prev, st.com1, st.com2);
    s' := Fold(s, ch);
  }

  /** `com'` is `com + c com_1 + c_inv com_2`, component by component: how a verifier folds a commitment. */
  function Combine(com: Triple, st: Step, ch: Challenge): Triple {
    Triple(com.a + ch.c * st.com1.a + ch.cInv * st.com2.a,
           com.b + ch.c * st.com1.b + ch.cInv * st.com2.b,
           com.t + ch.c * st.com1.t + ch.cInv * st.com2.t)
  }

  predicate EqvTriple(x: Triple, y: Triple) {
    Eqv(x.a, y.a) && Eqv(x.b, y.b) && Eqv(x.t, y.t)
  }

  /**
   * The algebra shared by every component of the folding identity: with
   * `c c_inv = 1`, `c c_inv hh + c hl + c_inv lh + ll` equals
   * `(ll + hh) + c hl + c_inv lh`.
   */
  lemma {:induction false} FoldAlgebra(c: int, ci: int, hh: int, hl: int, lh: int, ll: int)
    requires IsInverse(c, ci)
    ensures Eqv(c * ci * hh + c * hl + ci * lh + ll, (ll + hh) + c * hl + ci * lh)
  {
    assert c * ci * hh == (c * ci - 1) * hh + hh;
    EqvByInverse(c * ci * hh + c * hl + ci * lh + ll, (ll + hh) + c * hl + ci * lh, c, ci, hh);
  }

  /** The folded messages' inner product is `<a,b> + c <a_hi,b_lo> + c_inv <a_lo,b_hi>`. */
  lemma {:induction false} FoldInnerProduct(s: Instance, ch: Challenge)
    requires WellShaped(s) && |s.ma| >= 2 && IsInverse(ch.c, ch.cInv)
    ensures var m := |s.ma| / 2; var s' := Fold(s, ch);
      Eqv(Dot(s'.ma, s'.mb), Dot(s.ma, s.mb) + ch.c * Dot(s.ma[m..], s.mb[..m]) + ch.cInv * Dot(s.ma[..m], s.mb[m..]))
  {
    var m := |s.ma| / 2;
    var aLo, aHi, bLo, bHi := s.ma[..m], s.ma[m..], s.mb[..m], s.mb[m..];
    DotOfFolds(aHi, ch.c, aLo, bHi, ch.cInv, bLo);
    DotSplit(s.ma, s.mb, m);
    FoldAlgebra(ch.c, ch.cInv, Dot(aHi, bHi), Dot(aHi, bLo), Dot(aLo, bHi), Dot(aLo, bLo));
  }

  /** The folded left key and message commit to `com_a + c com_1.a + c_inv com_2.a`. */
  lemma {:induction false} FoldLeftCommitment(s: Instance, ch: Challenge)
    requires WellShaped(s) && |s.ma| >= 2 && IsInverse(ch.c, ch.cInv)
    ensures var m := |s.ma| / 2; var s' := Fold(s, ch);
      Eqv(Dot(s'.cka, s'.ma), Dot(s.cka, s.ma) + ch.c * Dot(s.cka[..m], s.ma[m..]) + ch.cInv * Dot(s.cka[m..], s.ma[..m]))
  {
    var m := |s.ma| / 2;
    var aLo, aHi, kLo, kHi := s.ma[..m], s.ma[m..], s.cka[..m], s.cka[m..];
    DotOfFolds(kHi, ch.cInv, kLo, aHi, ch.c, aLo);
    DotSplit(s.cka, s.ma, m);
    assert ch.cInv * ch.c * Dot(kHi, aHi) == ch.c * ch.cInv * Dot(kHi, aHi);
    FoldAlgebra(ch.c, ch.cInv, Dot(kHi, aHi), Dot(kLo, aHi), Dot(kHi, aLo), Dot(kLo, aLo));
  }

  /** The folded right key and message commit to `com_b + c com_1.b + c_inv com_2.b`. */
  lemma {:induction false} FoldRightCommitment(s: Instance, ch: Challenge)
    requires WellShaped(s) && |s.ma| >= 2 && IsInverse(ch.c, ch.cInv)
    ensures var m := |s.ma| / 2; var s' := Fold(s, ch);
      Eqv(Dot(s'.ckb, s'.mb), Dot(s.ckb, s.mb) + ch.c * Dot(s.ckb[m..], s.mb[..m]) + ch.cInv * Dot(s.ckb[..m], s.mb[m..]))
  {
    var m := |s.ma| / 2;
    var bLo, bHi, kLo, kHi := s.mb[..m], s.mb[m..], s.ckb[..m], s.ckb[m..];
    DotOfFolds(kHi, ch.c, kLo, bHi, ch.cInv, bLo);
    DotSplit(s.ckb, s.mb, m);
    FoldAlgebra(ch.c, ch.cInv, Dot(kHi, bHi), Dot(kHi, bLo), Dot(kLo, bHi), Dot(kLo, bLo));
  }

  /**
   * The folding identity of one round: given `c c_inv = 1`, each commitment
   * of the folded instance is the original one plus `c` times the `com_1`
   * component plus `c_inv` times the `com_2` component.
   */
  lemma {:induction false} FoldingIdentity(s: Instance, kt: int, ch: Challenge)
    requires WellShaped(s) && |s.ma| >= 2 && IsInverse(ch.c, ch.cInv)
    ensures EqvTriple(Commitments(Fold(s, ch), kt), Combine(Commitments(s, kt), CrossTerms(s, kt), ch))
  {
    var m := |s.ma| / 2;
    var s' := Fold(s, ch);
    FoldLeftCommitment(s, ch);
    FoldRightCommitment(s, ch);
    FoldInnerProduct(s, ch);
    var ip', ip := Dot(s'.ma, s'.mb), Dot(s.ma, s.mb);
    var hl, lh := Dot(s.ma[m..], s.mb[..m]), Dot(s.ma[..m], s.mb[m..]);
    MultipleTimes(ip' - (ip + ch.c * hl + ch.cInv * lh), kt);
    assert (ip' - (ip + ch.c * hl + ch.cInv * lh)) * kt
        == kt * ip' - (kt * ip + ch.c * (kt * hl) + ch.cInv * (kt * lh));
  }

  /** The verifier's fold of a commitment triple over all rounds, in round order. */
  function FoldCommitments(com: Triple, steps: seq<Step>, chs: seq<Challenge>): Triple
    requires |steps| == |chs|
    decreases |steps|
  {
    if steps == [] then com else FoldCommitments(Combine(com, steps[0], chs[0]), steps[1..], chs[1..])
  }

  /** Folding is a translation: two starting triples stay the same distance apart. */
  lemma {:induction false} FoldCommitmentsShift(x: Triple, y: Triple, steps: seq<Step>, chs: seq<Challenge>)
    requires |steps| == |chs|
    decreases |steps|
    ensures var fx, fy := FoldCommitments(x, steps, chs), FoldCommitments(y, steps, chs);
      fx.a - fy.a == x.a - y.a && fx.b - fy.b == x.b - y.b && fx.t - fy.t == x.t - y.t
  {
    if steps != [] {
      FoldCommitmentsShift(Combine(x, steps[0], chs[0]), Combine(y, steps[0], chs[0]), steps[1..], chs[1..]);
    }
  }

  /** Field-equal starting triples fold to field-equal results. */
  lemma {:induction false} FoldEqv(x: Triple, y: Triple, steps: seq<Step>, chs: seq<Challenge>, z: Triple)
    requires |steps| == |chs|
    requires EqvTriple(y, x) && EqvTriple(FoldCommitments(y, steps, chs), z)
    ensures EqvTriple(FoldCommitments(x, steps, chs), z)
  {
    FoldCommitmentsShift(x, y, steps, chs);
    var fx, fy := FoldCommitments(x, steps, chs), FoldCommitments(y, steps, chs);
    EqvSym(y.a, x.a);
    EqvSym(y.b, x.b);
    EqvSym(y.t, x.t);
    EqvTrans(fx.a, fy.a, z.a);
    EqvTrans(fx.b, fy.b, z.b);
    EqvTrans(fx.t, fy.t, z.t);
  }

  /** The commitments of the final pair under the final keys. */
  function FinalCommitments(run: Run, kt: int): Triple {
    Triple(run.finalKeys.0 * run.base.0, run.finalKeys.1 * run.base.1, kt * (run.base.0 * run.base.1))
  }

  /**
   * Completeness of the rounds: folding the original commitments with every
   * round's cross terms and challenges gives, in the field, the commitments
   * of the final pair under the final keys, `(ck_a_final a_final,
   * ck_b_final b_final, ck_t a_final b_final)`, which is what the verifier's
   * last check compares.
   */
  lemma {:induction false} Completeness(s: Instance, kt: int, prev: int, h: Oracle)
    requires WellShaped(s) && ValidOracle(h)
    ensures var run := Rounds(s, kt, prev, h);
      && |run.steps| == |run.challenges|
      && EqvTriple(FoldCommitments(Commitments(s, kt), run.steps, run.challenges), FinalCommitments(run, kt))
    decreases |s.ma|
  {
    var run := Rounds(s, kt, prev, h);
    RoundsCount(s, kt, prev, h);
    if |s.ma| == 1 {
      assert Dot(s.cka, s.ma) == s.cka[0] * s.ma[0] + Dot([], []);
      assert Dot(s.ckb, s.mb) == s.ckb[0] * s.mb[0] + Dot([], []);
      assert Dot(s.ma, s.mb) == s.ma[0] * s.mb[0] + Dot([], []);
    } else {
      var st := CrossTerms(s, kt);
      var ch := h(prev, st.com1, st.com2);
      var s' := Fold(s, ch);
      var rest := Rounds(s', kt, ch.c, h);
      assert run == Run([st] + rest.steps, rest.base, [ch] + rest.challenges, rest.finalKeys);
      Completeness(s', kt, ch.c, h);
      FoldingIdentity(s, kt, ch);
      var x := Combine(Commitments(s, kt), st, ch);
      assert FoldCommitments(Commitments(s, kt), run.steps, run.challenges) == FoldCommitments(x, rest.steps, rest.challenges);
      FoldEqv(x, Commitments(s', kt), rest.steps, rest.challenges, FinalCommitments(run, kt));
    }
  }
}
