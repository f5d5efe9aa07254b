/**
 * Univariate polynomials as the coefficient lists of the polynomial
 * library (lowest degree first), with evaluation by Horner's rule. The
 * library itself is not part of this model; in particular its trimming of
 * zero high-order coefficients is not modelled, since it changes no value.
 */
module Polynomials {
  import opened Field
  import opened InnerProducts

  /** `p(w) = sum_i p[i] * w^i`. */
  function Eval(p: seq<int>, w: int): int {
    if p == [] then 0 else p[0] + w * Eval(p[1..], w)
  }

  function Zeros(n: nat): (z: seq<int>)
    ensures |z| == n && forall i :: 0 <= i < n ==> z[i] == 0
  {
    seq(n, _ => 0)
  }

  /** Appending coefficients shifts them up by the length of the prefix. */
  lemma {:induction false} EvalAppend(a: seq<int>, b: seq<int>, w: int)
    ensures Eval(a + b, w) == Eval(a, w) + Pow(w, |a|) * Eval(b, w)
  {
    if a == [] {
      assert a + b == b;
    } else {
      AppendTail(a, b);
      EvalAppend(a[1..], b, w);
      AppendStep(a[0], w, Eval(a[1..], w), Pow(w, |a| - 1), Eval(b, w), Eval(a[1..] + b, w));
    }
  }

  lemma {:induction false} AppendTail(a: seq<int>, b: seq<int>)
    requires a != []
    ensures (a + b)[0] == a[0] && (a + b)[1..] == a[1..] + b
  {
  }

  lemma AppendStep(a0: int, w: int, ea: int, pw: int, eb: int, eab: int)
    requires eab == ea + pw * eb
    ensures a0 + w * eab == (a0 + w * ea) + (w * pw) * eb
  {
  }

  lemma {:induction false} ScaleVecTail(s: int, p: seq<int>)
    requires p != []
    ensures ScaleVec(s, p)[0] == p[0] * s && ScaleVec(s, p)[1..] == ScaleVec(s, p[1..])
  {
  }

  lemma ScaleStep(p0: int, s: int, w: int, e: int, es: int)
    requires es == s * e
    ensures p0 * s + w * es == s * (p0 + w * e)
  {
  }

  /** Zero coefficients on top change no value. */
  lemma {:induction false} EvalZeros(n: nat, w: int)
    ensures Eval(Zeros(n), w) == 0
  {
    if n > 0 {
      assert Zeros(n)[1..] == Zeros(n - 1);
      EvalZeros(n - 1, w);
    }
  }

  /** Padding with zeros keeps the value. */
  lemma {:induction false} EvalPadded(p: seq<int>, n: nat, w: int)
    ensures Eval(p + Zeros(n), w) == Eval(p, w)
  {
    EvalAppend(p, Zeros(n), w);
    EvalZeros(n, w);
  }

  /** Scaling every coefficient scales the value. */
  lemma {:induction false} EvalScale(s: int, p: seq<int>, w: int)
    ensures Eval(ScaleVec(s, p), w) == s * Eval(p, w)
  {
    if p != [] {
      ScaleVecTail(s, p);
      EvalScale(s, p[1..], w);
      ScaleStep(p[0], s, w, Eval(p[1..], w), Eval(ScaleVec(s, p[1..]), w));
    }
  }

  /**
   * Committing coefficients against a key of scaled powers `k[i] = g u^i`
   * evaluates the polynomial at `u` "in the exponent": `<k, p> = g p(u)`.
   */
  lemma {:induction false} DotWithPowers(k: seq<int>, g: int, u: int, p: seq<int>)
    requires |k| == |p|
    requires forall i :: 0 <= i < |k| ==> k[i] == g * Pow(u, i)
    ensures Dot(k, p) == g * Eval(p, u)
  {
    if k != [] {
      var tail := k[1..];
      forall i | 0 <= i < |tail|
        ensures tail[i] == (g * u) * Pow(u, i)
      {
        assert tail[i] == g * (u * Pow(u, i));
        MulAssoc(g, u, Pow(u, i));
      }
      DotWithPowers(tail, g * u, u, p[1..]);
      assert k[0] == g;
      PowersHead(g, u, p[0], Eval(p[1..], u));
    }
  }

  lemma MulAssoc(a: int, b: int, c: int)
    ensures a * (b * c) == (a * b) * c
  {
  }

  lemma PowersHead(g: int, u: int, a: int, e: int)
    ensures g * a + (g * u) * e == g * (a + u * e)
  {
  }

  /** `Vec::resize` with zeros: truncate to `n` entries or pad with zeros up to `n`. */
  function Resize(p: seq<int>, n: nat): (q: seq<int>)
    ensures |q| == n
    ensures forall i :: 0 <= i < n ==> q[i] == if i < |p| then p[i] else 0
  {
    if |p| >= n then p[..n] else p + Zeros(n - |p|)
  }

  /**
   * The quotient of `p(X) - p(c)` by `X - c`, by synthetic division (lowest
   * degree first, with a zero top coefficient, so as long as `p`).
   */
  function DivideByLinear(p: seq<int>, c: int): (q: seq<int>)
    ensures |q| == |p|
  {
    if p == [] then [] else [Eval(p[1..], c)] + DivideByLinear(p[1..], c)
  }

  /** The division is exact: `p(x) - p(c) = (x - c) q(x)` at every point `x`. */
  lemma {:induction false} DivideByLinearIsExact(p: seq<int>, c: int, x: int)
    ensures Eval(p, x) - Eval(p, c) == (x - c) * Eval(DivideByLinear(p, c), x)
  {
    if p != [] {
      var rest := p[1..];
      var q := DivideByLinear(rest, c);
      DivideByLinearIsExact(rest, c, x);
      assert DivideByLinear(p, c)[1..] == q;
      var rc, rx, qx := Eval(rest, c), Eval(rest, x), Eval(q, x);
      assert Eval(DivideByLinear(p, c), x) == rc + x * qx;
      QuotientStep(x, c, rc, rx, qx);
    }
  }

  lemma QuotientStep(x: int, c: int, rc: int, rx: int, qx: int)
    requires rx - rc == (x - c) * qx
    ensures (x - c) * (rc + x * qx) == x * rx - c * rc
  {
    calc {
      (x - c) * (rc + x * qx);
      (x - c) * rc + x * ((x - c) * qx);
      (x - c) * rc + x * (rx - rc);
      x * rx - c * rc;
    }
  }

  /** Coefficient `j` of `p`, zero past its end. */
  function Coeff(p: seq<int>, j: nat): int {
    if j < |p| then p[j] else 0
  }

  /** Any key against the zero vector commits to zero. */
  lemma {:induction false} DotZeros(k: seq<int>)
    ensures Dot(k, Zeros(|k|)) == 0
  {
    if k != [] {
      assert Zeros(|k|)[1..] == Zeros(|k| - 1);
      DotZeros(k[1..]);
    }
  }

  /** Horner's rule, one step. */
  lemma {:induction false} EvalCons(a: int, p: seq<int>, w: int)
    ensures Eval([a] + p, w) == a + w * Eval(p, w)
  {
    assert ([a] + p)[1..] == p;
  }
}
