/**
 * The inner products the arguments fold over. With group elements written
 * as discrete logarithms, the scalar inner product, the multi-scalar
 * multiplication and the multi-pairing product are all the dot product of
 * two equal-length vectors. The inner-product crate itself is not part of
 * this model; its length check is modelled by `InnerProduct` below.
 */
module InnerProducts {

  datatype Result<T, E> = Ok(value: T) | Err(error: E)

  /** The error the inner-product crate reports for vectors of unequal length. */
  datatype LengthError = InvalidInputLength(left: nat, right: nat)

  /** The dot product `sum_i u[i] * v[i]`. */
  function Dot(u: seq<int>, v: seq<int>): int
    requires |u| == |v|
  {
    if u == [] then 0 else u[0] * v[0] + Dot(u[1..], v[1..])
  }

  /** An inner product of two vectors, failing when their lengths differ. */
  function InnerProduct(u: seq<int>, v: seq<int>): (r: Result<int, LengthError>)
    ensures r.Err? <==> |u| != |v|
    ensures r.Err? ==> r.error == InvalidInputLength(|u|, |v|)
    ensures r.Ok? ==> r.value == Dot(u, v)
  {
    if |u| != |v| then Err(InvalidInputLength(|u|, |v|)) else Ok(Dot(u, v))
  }

  /** `mul_helper`: multiply a message, key or output by a scalar. */
  function MulHelper(t: int, f: int): int {
    t * f
  }

  /** The fold of two halves used by every round: `x[i] * s + y[i]`. */
  function ScaleAdd(x: seq<int>, s: int, y: seq<int>): (r: seq<int>)
    requires |x| == |y|
    ensures |r| == |x|
    ensures forall i :: 0 <= i < |r| ==> r[i] == x[i] * s + y[i]
  {
    seq(|x|, i requires 0 <= i < |x| => MulHelper(x[i], s) + y[i])
  }

  /** Component-wise sum of two vectors of the same length. */
  function AddVec(u: seq<int>, v: seq<int>): (r: seq<int>)
    requires |u| == |v|
    ensures |r| == |u|
  {
    seq(|u|, i requires 0 <= i < |u| => u[i] + v[i])
  }

  /** Every component multiplied by the scalar `s`. */
  function ScaleVec(s: int, v: seq<int>): (r: seq<int>)
    ensures |r| == |v|
  {
    seq(|v|, i requires 0 <= i < |v| => MulHelper(v[i], s))
  }

  /** A dot product splits over a concatenation. */
  lemma {:induction false} DotAppend(u1: seq<int>, u2: seq<int>, v1: seq<int>, v2: seq<int>)
    requires |u1| == |v1| && |u2| == |v2|
    ensures Dot(u1 + u2, v1 + v2) == Dot(u1, v1) + Dot(u2, v2)
  {
    if u1 != [] {
      assert (u1 + u2)[1..] == u1[1..] + u2;
      assert (v1 + v2)[1..] == v1[1..] + v2;
      DotAppend(u1[1..], u2, v1[1..], v2);
    } else {
      assert u1 + u2 == u2 && v1 + v2 == v2;
    }
  }

  /** Scaling one more entry appends its scaled value. */
  lemma {:induction false} ScaleVecSnoc(s: int, v: seq<int>, j: nat)
    requires j < |v|
    ensures ScaleVec(s, v[..j + 1]) == ScaleVec(s, v[..j]) + [v[j] * s]
  {
    assert v[..j + 1][j] == v[j];
  }

  /** Splitting both vectors at the same point splits the dot product. */
  lemma {:induction false} DotSplit(u: seq<int>, v: seq<int>, m: nat)
    requires |u| == |v| && m <= |u|
    ensures Dot(u, v) == Dot(u[..m], v[..m]) + Dot(u[m..], v[m..])
  {
    assert u == u[..m] + u[m..];
    assert v == v[..m] + v[m..];
    DotAppend(u[..m], u[m..], v[..m], v[m..]);
  }

  /**
   * The dot product of two folded vectors expands bilinearly:
   * `<x s + y, u t + w> = s t <x,u> + s <x,w> + t <y,u> + <y,w>`.
   */
  lemma {:induction false} DotOfFolds(x: seq<int>, s: int, y: seq<int>, u: seq<int>, t: int, w: seq<int>)
    requires |x| == |y| == |u| == |w|
    ensures Dot(ScaleAdd(x, s, y), ScaleAdd(u, t, w))
         == s * t * Dot(x, u) + s * Dot(x, w) + t * Dot(y, u) + Dot(y, w)
  {
    if x != [] {
      var l, r := ScaleAdd(x, s, y), ScaleAdd(u, t, w);
      assert l[1..] == ScaleAdd(x[1..], s, y[1..]);
      assert r[1..] == ScaleAdd(u[1..], t, w[1..]);
      DotOfFolds(x[1..], s, y[1..], u[1..], t, w[1..]);
      FoldedProduct(x[0], y[0], u[0], w[0], s, t,
                    Dot(x[1..], u[1..]), Dot(x[1..], w[1..]), Dot(y[1..], u[1..]), Dot(y[1..], w[1..]));
    }
  }

  /** One term of `DotOfFolds`, with the tails' dot products as plain numbers. */
  lemma {:induction false} FoldedProduct(a: int, b: int, c: int, d: int, s: int, t: int, xu: int, xw: int, yu: int, yw: int)
    ensures (a * s + b) * (c * t + d) + (s * t * xu + s * xw + t * yu + yw)
         == s * t * (a * c + xu) + s * (a * d + xw) + t * (b * c + yu) + (b * d + yw)
  {
    calc {
      (a * s + b) * (c * t + d);
      (a * s) * (c * t) + (a * s) * d + b * (c * t) + b * d;
      s * t * (a * c) + s * (a * d) + t * (b * c) + b * d;
    }
  }

  /** Folding the left vector distributes: `<x s + y, v> = s <x, v> + <y, v>`. */
  lemma {:induction false} DotOfScaleAdd(x: seq<int>, s: int, y: seq<int>, v: seq<int>)
    requires |x| == |y| == |v|
    ensures Dot(ScaleAdd(x, s, y), v) == s * Dot(x, v) + Dot(y, v)
  {
    if x != [] {
      ScaleAddTail(x, s, y);
      DotOfScaleAdd(x[1..], s, y[1..], v[1..]);
      ScaledDotStep(x[0], y[0], v[0], s, Dot(ScaleAdd(x[1..], s, y[1..]), v[1..]),
                    Dot(x[1..], v[1..]), Dot(y[1..], v[1..]));
    }
  }

  lemma {:induction false} ScaleAddTail(x: seq<int>, s: int, y: seq<int>)
    requires |x| == |y| && x != []
    ensures ScaleAdd(x, s, y)[0] == x[0] * s + y[0]
    ensures ScaleAdd(x, s, y)[1..] == ScaleAdd(x[1..], s, y[1..])
  {
  }

  lemma ScaledDotStep(x0: int, y0: int, v0: int, s: int, rest: int, dx: int, dy: int)
    requires rest == s * dx + dy
    ensures (x0 * s + y0) * v0 + rest == s * (x0 * v0 + dx) + (y0 * v0 + dy)
  {
  }

  /** The dot product is symmetric. */
  lemma {:induction false} DotSymmetric(u: seq<int>, v: seq<int>)
    requires |u| == |v|
    ensures Dot(u, v) == Dot(v, u)
  {
    if u != [] {
      DotSymmetric(u[1..], v[1..]);
    }
  }
}
