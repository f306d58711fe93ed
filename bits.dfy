/** Unsigned bit arithmetic on natural numbers: the `ull` operations the solver uses
    (shift right, low bit, bit count) and the integer bit length that fixes the
    number of inputs. */
module Bits {

  /** MAX_INPUTS: the widest truth table the solver accepts (64-bit `ull` values). */
  const MaxInputs: nat := 64

  function Pow2(n: nat): (r: nat)
    ensures r >= 1
  {
    if n == 0 then 1 else 2 * Pow2(n - 1)
  }

  /** x >> i */
  function Shr(x: nat, i: nat): nat
  {
    if i == 0 then x else Shr(x / 2, i - 1)
  }

  /** (x >> i) & 1 */
  function Bit(x: nat, i: nat): nat
  {
    Shr(x, i) % 2
  }

  /** Number of one bits of b, lowest bit first. */
  function Popcount(b: nat): nat
  {
    if b == 0 then 0 else b % 2 + Popcount(b / 2)
  }

  /** Sum of the bits at positions 0 .. n-1. */
  function BitSum(x: nat, n: nat): nat
  {
    if n == 0 then 0 else x % 2 + BitSum(x / 2, n - 1)
  }

  /** Number of binary digits of x: floor(log2 x) + 1, and 0 for x = 0. */
  function BitLength(x: nat): nat
  {
    if x == 0 then 0 else 1 + BitLength(x / 2)
  }

  lemma {:induction false} ShrStep(x: nat, i: nat)
    ensures Shr(x, i + 1) == Shr(x, i) / 2
  {
    if i > 0 {
      ShrStep(x / 2, i - 1);
    }
  }

  lemma {:induction false} BitHalf(x: nat, i: nat)
    ensures Bit(x / 2, i) == Bit(x, i + 1)
  {
  }

  /** The bit length bounds x from both sides, as floor(log2 x) + 1 does. */
  lemma {:induction false} BitLengthBounds(x: nat)
    ensures x < Pow2(BitLength(x))
    ensures x > 0 ==> Pow2(BitLength(x) - 1) <= x
  {
    if x > 0 {
      BitLengthBounds(x / 2);
    }
  }

  lemma {:induction false} Pow2Monotone(m: nat, n: nat)
    requires m <= n
    ensures Pow2(m) <= Pow2(n)
  {
    if m < n {
      Pow2Monotone(m, n - 1);
    }
  }

  /** A value below 2^n is zero at every position from n upwards. */
  lemma {:induction false} BitAboveWidth(x: nat, n: nat, i: nat)
    requires x < Pow2(n) && n <= i
    ensures Bit(x, i) == 0
  {
    if i == 0 {
    } else if n == 0 {
      assert x == 0;
      BitAboveWidth(0, 0, i - 1);
      BitHalf(0, i - 1);
    } else {
      BitAboveWidth(x / 2, n - 1, i - 1);
      BitHalf(x, i - 1);
    }
  }

  /** Below 2^n the bit count is the sum of the n low bits. */
  lemma {:induction false} PopcountIsBitSum(x: nat, n: nat)
    requires x < Pow2(n)
    ensures Popcount(x) == BitSum(x, n)
  {
    if n == 0 {
      assert x == 0;
    } else {
      PopcountIsBitSum(x / 2, n - 1);
    }
  }

  lemma {:induction false} BitSumBound(x: nat, n: nat)
    ensures BitSum(x, n) <= n
  {
    if n > 0 {
      BitSumBound(x / 2, n - 1);
    }
  }

  /** Two values whose low n bits agree except at position k have bit sums that
      differ exactly by the difference of their bits at k. */
  lemma {:induction false} BitSumOneDiff(x: nat, y: nat, n: nat, k: nat)
    requires k < n
    requires forall i :: 0 <= i < n && i != k ==> Bit(x, i) == Bit(y, i)
    ensures BitSum(x, n) + Bit(y, k) == BitSum(y, n) + Bit(x, k)
  {
    if k == 0 {
      BitSumAgree(x / 2, y / 2, n - 1) by {
        forall i | 0 <= i < n - 1
          ensures Bit(x / 2, i) == Bit(y / 2, i)
        {
          BitHalf(x, i);
          BitHalf(y, i);
        }
      }
    } else {
      forall i | 0 <= i < n - 1 && i != k - 1
        ensures Bit(x / 2, i) == Bit(y / 2, i)
      {
        BitHalf(x, i);
        BitHalf(y, i);
      }
      BitSumOneDiff(x / 2, y / 2, n - 1, k - 1);
      assert Bit(x, 0) == Bit(y, 0);
      BitHalf(x, k - 1);
      BitHalf(y, k - 1);
    }
  }

  lemma {:induction false} BitSumAgree(x: nat, y: nat, n: nat)
    requires forall i :: 0 <= i < n ==> Bit(x, i) == Bit(y, i)
    ensures BitSum(x, n) == BitSum(y, n)
  {
    if n > 0 {
      forall i | 0 <= i < n - 1
        ensures Bit(x / 2, i) == Bit(y / 2, i)
      {
        BitHalf(x, i);
        BitHalf(y, i);
      }
      BitSumAgree(x / 2, y / 2, n - 1);
      assert Bit(x, 0) == Bit(y, 0);
    }
  }

  /** Values below 2^n are determined by their n low bits. */
  lemma {:induction false} BitsDetermine(x: nat, y: nat, n: nat)
    requires x < Pow2(n) && y < Pow2(n)
    requires forall i :: 0 <= i < n ==> Bit(x, i) == Bit(y, i)
    ensures x == y
  {
    if n > 0 {
      forall i | 0 <= i < n - 1
        ensures Bit(x / 2, i) == Bit(y / 2, i)
      {
        BitHalf(x, i);
        BitHalf(y, i);
      }
      BitsDetermine(x / 2, y / 2, n - 1);
      assert Bit(x, 0) == x % 2 && Bit(y, 0) == y % 2;
    }
  }

  /** countBit: clears the value one low bit at a time and adds each bit. */
  method CountBit(b: nat) returns (cnt: nat)
    ensures cnt == Popcount(b)
  {
    cnt := 0;
    var t := b;
    while t != 0
      invariant cnt + Popcount(t) == Popcount(b)
      decreases t
    {
      cnt := cnt + t % 2;
      t := t / 2;
    }
  }
}
