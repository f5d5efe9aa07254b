/**
 * Powers of two, binary logarithms, `count_ones` and single bits of a
 * length or index: the index bookkeeping of the halving recursion and of
 * the transcript polynomial.
 */
module Bits {

  function Pow2(n: nat): (r: nat)
    ensures r >= 1
  {
    if n == 0 then 1 else 2 * Pow2(n - 1)
  }

  /** `n` is a power of two (so 0 is not). */
  predicate IsPowerOfTwo(n: nat) {
    n == 1 || (n >= 2 && n % 2 == 0 && IsPowerOfTwo(n / 2))
  }

  /** The base-two logarithm of a power of two. */
  function Log2(n: nat): (k: nat)
    requires IsPowerOfTwo(n)
    ensures Pow2(k) == n
  {
    if n == 1 then 0 else 1 + Log2(n / 2)
  }

  /** Every `Pow2(k)` is a power of two, with logarithm `k`. */
  lemma {:induction false} Pow2IsPowerOfTwo(k: nat)
    ensures IsPowerOfTwo(Pow2(k)) && Log2(Pow2(k)) == k
  {
    if k > 0 {
      Pow2IsPowerOfTwo(k - 1);
      assert Pow2(k) / 2 == Pow2(k - 1);
    }
  }

  /** The number of one bits of `n`, as Rust's `usize::count_ones`. */
  function CountOnes(n: nat): nat {
    if n == 0 then 0 else n % 2 + CountOnes(n / 2)
  }

  lemma {:induction false} CountOnesZero(n: nat)
    ensures CountOnes(n) == 0 <==> n == 0
  {
    if n > 0 && n % 2 == 0 {
      CountOnesZero(n / 2);
    }
  }

  /**
   * `count_ones(n) == 1` is exactly the power-of-two test, in both
   * directions; in particular 0 (no one bit) is rejected.
   */
  lemma {:induction false} CountOnesIsPowerOfTwo(n: nat)
    ensures CountOnes(n) == 1 <==> IsPowerOfTwo(n)
  {
    if n == 0 {
    } else if n % 2 == 1 {
      CountOnesZero(n / 2);
      if n > 1 {
        assert !IsPowerOfTwo(n);
      }
    } else {
      CountOnesIsPowerOfTwo(n / 2);
    }
  }

  /** Bit `i` of `j`. */
  function Bit(j: nat, i: nat): (b: nat)
    ensures b < 2
  {
    if i == 0 then j % 2 else Bit(j / 2, i - 1)
  }

  /**
   * Adding `2^k` to an index below `2^k` sets bit `k` and leaves every lower
   * bit as it was.
   */
  lemma {:induction false} BitOfHighHalf(j: nat, k: nat, i: nat)
    requires j < Pow2(k) && i <= k
    ensures Bit(j + Pow2(k), i) == if i == k then 1 else Bit(j, i)
  {
    if i > 0 {
      assert (j + Pow2(k)) / 2 == j / 2 + Pow2(k - 1);
      BitOfHighHalf(j / 2, k - 1, i - 1);
    } else if k > 0 {
      assert Pow2(k) == 2 * Pow2(k - 1);
    }
  }

  /** An index below `2^k` has bit `k` clear. */
  lemma {:induction false} BitAboveIsZero(j: nat, k: nat)
    requires j < Pow2(k)
    ensures Bit(j, k) == 0
  {
    if k > 0 {
      BitAboveIsZero(j / 2, k - 1);
    }
  }
}

/** Sequence helpers. */
module Seqs {

  function Reverse<T>(s: seq<T>): (r: seq<T>)
    ensures |r| == |s|
    ensures forall i :: 0 <= i < |s| ==> r[i] == s[|s| - 1 - i]
  {
    if s == [] then [] else Reverse(s[1..]) + [s[0]]
  }

  /** Reversing twice gives back the original sequence. */
  lemma {:induction false} ReverseReverse<T>(s: seq<T>)
    ensures Reverse(Reverse(s)) == s
  {
  }

  /** Reversal turns a push at the end into an insertion at the front. */
  lemma {:induction false} ReverseSnoc<T>(s: seq<T>, x: T)
    ensures Reverse(s + [x]) == [x] + Reverse(s)
  {
  }
}
