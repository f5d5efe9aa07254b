/**
 * The Pedersen commitment: a key of group elements and a message of
 * scalars commit to their multi-exponentiation inner product
 * `sum_i m[i] * k[i]`, which in the discrete-logarithm model is a dot
 * product. The `DoublyHomomorphicCommitment` trait promises that it is
 * additive in the message and in the key; the lemmas below prove both.
 */
module Pedersen {
  import opened InnerProducts
  import opened Field

  /** `commit(k, m)`: the multi-exponentiation of the key by the message. */
  function Commit(k: seq<int>, m: seq<int>): (r: Result<int, LengthError>)
    ensures r.Err? <==> |k| != |m|
    ensures r.Ok? ==> r.value == Dot(k, m)
  {
    InnerProduct(k, m)
  }

  /**
   * The trait's `verify`: recompute the commitment and compare it with the
   * claimed one (the comparison is equality of group elements). The trait's
   * default method is not part of this model; this is its behaviour.
   */
  function Verify(k: seq<int>, m: seq<int>, com: int): (r: Result<bool, LengthError>)
    ensures r.Err? <==> |k| != |m|
    ensures r.Ok? ==> (r.value <==> Eqv(Dot(k, m), com))
  {
    match Commit(k, m)
    case Err(e) => Err(e)
    case Ok(c) => Ok(Eqv(c, com))
  }

  /** On length-one inputs the commitment is the key scaled by the message. */
  lemma {:induction false} CommitSingleton(k: int, m: int)
    ensures Commit([k], [m]) == Ok(m * k)
  {
    assert Dot([k], [m]) == k * m + Dot([], []);
  }

  /** Verifying a length-one opening compares `k m` with the commitment. */
  lemma {:induction false} VerifySingleton(k: int, m: int, com: int)
    ensures Verify([k], [m], com) == Ok(Eqv(k * m, com))
  {
    assert Dot([k], [m]) == k * m + Dot([], []);
  }

  /** Additive in the message: `commit(k, m + m') = commit(k, m) + commit(k, m')`. */
  lemma {:induction false} CommitAdditiveInMessage(k: seq<int>, m: seq<int>, m': seq<int>)
    requires |k| == |m| == |m'|
    ensures Commit(k, AddVec(m, m')) == Ok(Commit(k, m).value + Commit(k, m').value)
  {
    if k != [] {
      assert AddVec(m, m')[1..] == AddVec(m[1..], m'[1..]);
      CommitAdditiveInMessage(k[1..], m[1..], m'[1..]);
      assert k[0] * (m[0] + m'[0]) == k[0] * m[0] + k[0] * m'[0];
    }
  }

  /** Additive in the key: `commit(k + k', m) = commit(k, m) + commit(k', m)`. */
  lemma {:induction false} CommitAdditiveInKey(k: seq<int>, k': seq<int>, m: seq<int>)
    requires |k| == |k'| == |m|
    ensures Commit(AddVec(k, k'), m) == Ok(Commit(k, m).value + Commit(k', m).value)
  {
    if k != [] {
      assert AddVec(k, k')[1..] == AddVec(k[1..], k'[1..]);
      CommitAdditiveInKey(k[1..], k'[1..], m[1..]);
      assert (k[0] + k'[0]) * m[0] == k[0] * m[0] + k'[0] * m[0];
    }
  }

  /** Scaling the message by `s` scales the commitment by `s`. */
  lemma {:induction false} CommitScalesWithMessage(k: seq<int>, s: int, m: seq<int>)
    requires |k| == |m|
    ensures Commit(k, ScaleVec(s, m)) == Ok(s * Commit(k, m).value)
  {
    if k != [] {
      assert ScaleVec(s, m)[1..] == ScaleVec(s, m[1..]);
      CommitScalesWithMessage(k[1..], s, m[1..]);
      assert k[0] * (m[0] * s) + s * Dot(k[1..], m[1..]) == s * (k[0] * m[0] + Dot(k[1..], m[1..]));
    }
  }
}
