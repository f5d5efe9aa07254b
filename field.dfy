/**
 * The scalar field of the pairing engine, and the powers and bit
 * bookkeeping the arguments use.
 *
 * A scalar is an `int` standing for its residue modulo `P`; two scalars are
 * equal in the field exactly when `Eqv` holds. A group element (of either
 * source group or of the target group) is modelled by its discrete logarithm
 * with respect to a fixed generator, so it is a scalar too: a multi-scalar
 * multiplication or a multi-pairing product becomes a dot product. Integer
 * identities therefore hold in the field as well; only facts that need an
 * inverse (`c * c_inv = 1`) are stated as congruences.
 */
module Field {

  /** The order of the scalar field of BLS12-381, the curve the repository's tests use. */
  const P: int := 0x73eda753299d7d483339d80809a1d80553bda402fffe5bfeffffffff00000001

  /** Field equality of two integer representatives. */
  predicate Eqv(x: int, y: int) {
    (x - y) % P == 0
  }

  /** `cInv` is the multiplicative inverse of `c` in the field. */
  predicate IsInverse(c: int, cInv: int) {
    Eqv(c * cInv, 1)
  }

  /** `x` to the `n`-th power. */
  function Pow(x: int, n: nat): int {
    if n == 0 then 1 else x * Pow(x, n - 1)
  }

  /** A multiple of `P` is zero in the field. */
  lemma {:induction false} MultipleIsZero(q: int)
    ensures (P * q) % P == 0
  {
    var x := P * q;
    assert x == P * (x / P) + x % P;
  }

  /** Anything multiplied by a multiple of `P` is a multiple of `P`. */
  lemma {:induction false} MultipleTimes(m: int, d: int)
    requires m % P == 0
    ensures (m * d) % P == 0
  {
    var q := m / P;
    assert m == P * q;
    assert m * d == P * (q * d);
    MultipleIsZero(q * d);
  }

  /** The sum of two multiples of `P` is a multiple of `P`. */
  lemma {:induction false} MultipleSum(a: int, b: int)
    requires a % P == 0 && b % P == 0
    ensures (a + b) % P == 0
  {
    assert a == P * (a / P);
    assert b == P * (b / P);
    assert a + b == P * (a / P + b / P);
    MultipleIsZero(a / P + b / P);
  }

  /** Field equality is transitive. */
  lemma {:induction false} EqvTrans(x: int, y: int, z: int)
    requires Eqv(x, y) && Eqv(y, z)
    ensures Eqv(x, z)
  {
    MultipleSum(x - y, y - z);
  }

  /** Field equality is symmetric. */
  lemma {:induction false} EqvSym(x: int, y: int)
    requires Eqv(x, y)
    ensures Eqv(y, x)
  {
    MultipleTimes(x - y, -1);
  }

  /**
   * If `x` differs from `y` by `(c * cInv - 1) * d` and `cInv` inverts `c`,
   * then `x` and `y` are equal in the field.
   */
  lemma {:induction false} EqvByInverse(x: int, y: int, c: int, cInv: int, d: int)
    requires IsInverse(c, cInv)
    requires x == y + (c * cInv - 1) * d
    ensures Eqv(x, y)
  {
    MultipleTimes(c * cInv - 1, d);
  }

  lemma PowStep(x: int, n: nat)
    ensures Pow(x, n + 1) == Pow(x, n) * x
  {
  }

  lemma {:induction false} PowAdd(x: int, m: nat, n: nat)
    ensures Pow(x, m + n) == Pow(x, m) * Pow(x, n)
  {
    if m > 0 {
      PowAdd(x, m - 1, n);
      assert Pow(x, m + n) == x * Pow(x, m - 1 + n);
    }
  }

  lemma {:induction false} PowMul(x: int, m: nat, n: nat)
    ensures Pow(x, m * n) == Pow(Pow(x, m), n)
  {
    if n > 0 {
      PowMul(x, m, n - 1);
      assert m * n == m + m * (n - 1);
      PowAdd(x, m, m * (n - 1));
    }
  }

  lemma {:induction false} PowProduct(x: int, y: int, n: nat)
    ensures Pow(x * y, n) == Pow(x, n) * Pow(y, n)
  {
    if n > 0 {
      PowProduct(x, y, n - 1);
      assert Pow(x * y, n) == (x * y) * (Pow(x, n - 1) * Pow(y, n - 1));
    }
  }

  lemma {:induction false} PowOfOne(n: nat)
    ensures Pow(1, n) == 1
  {
    if n > 0 {
      PowOfOne(n - 1);
    }
  }
}
