// Bitwise arithmetic on non-negative integers.
//
// src/index.js manipulates coordinates with JavaScript's `&`, `^`, `<<` and
// `>>`. All values it feeds them are non-negative and below 2^N with N <= 30,
// where the 32-bit operators agree with the unbounded definitions below.

module Bits {

  /** 2^k, i.e. `1 << k`. */
  function Pow2(k: nat): (r: nat)
    ensures r >= 1
  {
    if k == 0 then 1 else 2 * Pow2(k - 1)
  }

  /** Bit i of x (bit 0 is the least significant). */
  function Bit(x: nat, i: nat): (b: nat)
    ensures b <= 1
  {
    if i == 0 then x % 2 else Bit(x / 2, i - 1)
  }

  /** Bitwise AND, `a & b`. */
  function And(a: nat, b: nat): nat
    decreases a
  {
    if a == 0 || b == 0 then 0
    else 2 * And(a / 2, b / 2) + (if a % 2 == 1 && b % 2 == 1 then 1 else 0)
  }

  /** Bitwise exclusive or, `a ^ b`. */
  function Xor(a: nat, b: nat): nat
    decreases a
  {
    if a == 0 then b
    else if b == 0 then a
    else 2 * Xor(a / 2, b / 2) + (if a % 2 != b % 2 then 1 else 0)
  }

  /** Right shift of a non-negative value, `a >> k`. */
  function Shr(a: nat, k: nat): nat
  {
    if k == 0 then a else Shr(a / 2, k - 1)
  }

  /** The low n bits of x in reverse order: bit i of the result is bit n-1-i of x. */
  function Rev(x: nat, n: nat): (r: nat)
    ensures r < Pow2(n)
  {
    if n == 0 then 0
    else (if x % 2 == 1 then Pow2(n - 1) else 0) + Rev(x / 2, n - 1)
  }

  lemma {:induction false} Pow2Monotone(i: nat, j: nat)
    requires i <= j
    ensures Pow2(i) <= Pow2(j)
  {
    if i < j {
      Pow2Monotone(i, j - 1);
    }
  }

  lemma {:induction false} BitOfZero(i: nat)
    ensures Bit(0, i) == 0
  {
    if i > 0 {
      BitOfZero(i - 1);
    }
  }

  /** A value below 2^n has no bit set at or above position n. */
  lemma {:induction false} BitAboveBound(x: nat, n: nat, i: nat)
    requires x < Pow2(n) && n <= i
    ensures Bit(x, i) == 0
  {
    if n == 0 {
      BitOfZero(i);
    } else {
      BitAboveBound(x / 2, n - 1, i - 1);
    }
  }

  /** Two values below 2^n with the same n low bits are equal. */
  lemma {:induction false} BitsDetermineValue(a: nat, b: nat, n: nat)
    requires a < Pow2(n) && b < Pow2(n)
    requires forall i :: 0 <= i < n ==> Bit(a, i) == Bit(b, i)
    ensures a == b
  {
    if n > 0 {
      assert Bit(a, 0) == Bit(b, 0);
      forall i | 0 <= i < n - 1
        ensures Bit(a / 2, i) == Bit(b / 2, i)
      {
        assert Bit(a, i + 1) == Bit(b, i + 1);
      }
      BitsDetermineValue(a / 2, b / 2, n - 1);
    }
  }

  /** The bits of a value that has (optionally) bit k set on top of a remainder below 2^k. */
  lemma {:induction false} BitOfTop(top: bool, k: nat, r: nat, i: nat)
    requires r < Pow2(k)
    ensures Bit((if top then Pow2(k) else 0) + r, i)
            == if i < k then Bit(r, i) else if i == k then (if top then 1 else 0) else 0
  {
    var v := (if top then Pow2(k) else 0) + r;
    if k == 0 {
      if i > 0 {
        assert v / 2 == 0;
        BitOfZero(i - 1);
      }
    } else if i > 0 {
      assert v / 2 == (if top then Pow2(k - 1) else 0) + r / 2;
      BitOfTop(top, k - 1, r / 2, i - 1);
    }
  }

  /** Bit i of the reversal is bit n-1-i of the argument. */
  lemma {:induction false} BitOfRev(x: nat, n: nat, i: nat)
    requires i < n
    ensures Bit(Rev(x, n), i) == Bit(x, n - 1 - i)
  {
    BitOfTop(x % 2 == 1, n - 1, Rev(x / 2, n - 1), i);
    if i < n - 1 {
      BitOfRev(x / 2, n - 1, i);
    }
  }

  /** Reversing twice gives back any value that fits in n bits. */
  lemma RevInvolution(x: nat, n: nat)
    requires x < Pow2(n)
    ensures Rev(Rev(x, n), n) == x
  {
    forall i | 0 <= i < n
      ensures Bit(Rev(Rev(x, n), n), i) == Bit(x, i)
    {
      BitOfRev(Rev(x, n), n, i);
      BitOfRev(x, n, n - 1 - i);
    }
    BitsDetermineValue(Rev(Rev(x, n), n), x, n);
  }

  /** Two reversals that agree come from the same coordinate. */
  lemma RevInjective(a: nat, b: nat, n: nat)
    requires a < Pow2(n) && b < Pow2(n) && Rev(a, n) == Rev(b, n)
    ensures a == b
  {
    RevInvolution(a, n);
    RevInvolution(b, n);
  }

  lemma {:induction false} RevOfZero(n: nat)
    ensures Rev(0, n) == 0
  {
    if n > 0 {
      RevOfZero(n - 1);
    }
  }

  lemma {:induction false} RevOfAllOnes(n: nat)
    ensures Rev(Pow2(n) - 1, n) == Pow2(n) - 1
  {
    if n > 0 {
      assert (Pow2(n) - 1) / 2 == Pow2(n - 1) - 1;
      RevOfAllOnes(n - 1);
    }
  }

  /** A set bit k means x >= 2^k, and clearing it leaves bit k clear. */
  lemma {:induction false} SetBitBound(x: nat, k: nat)
    requires Bit(x, k) == 1
    ensures x >= Pow2(k) && Bit(x - Pow2(k), k) == 0
  {
    if k > 0 {
      SetBitBound(x / 2, k - 1);
      assert (x - Pow2(k)) / 2 == x / 2 - Pow2(k - 1);
    }
  }

  /** Setting a clear bit below position n keeps a value below 2^n. */
  lemma {:induction false} SetBitStaysBelow(x: nat, n: nat, k: nat)
    requires x < Pow2(n) && k < n && Bit(x, k) == 0
    ensures x + Pow2(k) < Pow2(n)
  {
    var h := Pow2(n - 1);
    assert Pow2(n) == 2 * h;
    if k == 0 {
      assert x % 2 == 0;
      assert x / 2 < h;
    } else {
      assert Bit(x / 2, k - 1) == 0;
      SetBitStaysBelow(x / 2, n - 1, k - 1);
      assert x <= 2 * (x / 2) + 1;
    }
  }

  /** Setting the clear bit k of x adds 2^(n-1-k) to its reversal. */
  lemma {:induction false} RevOfSetBit(x: nat, n: nat, k: nat)
    requires k < n && Bit(x, k) == 0
    ensures Rev(x + Pow2(k), n) == Rev(x, n) + Pow2(n - 1 - k)
  {
    if k > 0 {
      assert (x + Pow2(k)) / 2 == x / 2 + Pow2(k - 1);
      RevOfSetBit(x / 2, n - 1, k - 1);
    }
  }

  /** `x & (1 << k)` is 2^k when bit k is set and 0 otherwise. */
  lemma {:induction false} AndPow2(x: nat, k: nat)
    ensures And(x, Pow2(k)) == if Bit(x, k) == 1 then Pow2(k) else 0
  {
    if x == 0 {
      BitOfZero(k);
    } else if k > 0 {
      AndPow2(x / 2, k - 1);
    }
  }

  /** `x ^ (1 << k)` flips bit k: it subtracts 2^k when the bit is set and adds it otherwise. */
  lemma {:induction false} XorPow2(x: nat, k: nat)
    ensures Bit(x, k) == 1 ==> x >= Pow2(k)
    ensures Xor(x, Pow2(k)) == if Bit(x, k) == 1 then x - Pow2(k) else x + Pow2(k)
  {
    if Bit(x, k) == 1 {
      SetBitBound(x, k);
    }
    if x == 0 {
      BitOfZero(k);
    } else if k > 0 {
      XorPow2(x / 2, k - 1);
    }
  }

  /** `(x & (1 << k)) >> k` is bit k of x. */
  lemma {:induction false} MaskedBit(x: nat, k: nat)
    ensures Shr(And(x, Pow2(k)), k) == Bit(x, k)
  {
    AndPow2(x, k);
    ShrPow2(k);
    ShrOfZero(k);
  }

  lemma {:induction false} ShrPow2(k: nat)
    ensures Shr(Pow2(k), k) == 1
  {
    if k > 0 {
      ShrPow2(k - 1);
    }
  }

  lemma {:induction false} ShrOfZero(k: nat)
    ensures Shr(0, k) == 0
  {
    if k > 0 {
      ShrOfZero(k - 1);
    }
  }

  /** Shifting a value below 2^k right by j leaves a value below 2^(k-j). */
  lemma {:induction false} ShrBound(x: nat, k: nat, j: nat)
    requires j <= k && x < Pow2(k)
    ensures Shr(x, j) < Pow2(k - j)
  {
    if j > 0 {
      ShrBound(x / 2, k - 1, j - 1);
    }
  }

  /** Bit i of `a & b` is set exactly when bit i is set in both a and b. */
  lemma {:induction false} AndBits(a: nat, b: nat, i: nat)
    ensures Bit(And(a, b), i) == if Bit(a, i) == 1 && Bit(b, i) == 1 then 1 else 0
  {
    if a == 0 || b == 0 {
      BitOfZero(i);
    } else {
      var x := And(a / 2, b / 2);
      var low := if a % 2 == 1 && b % 2 == 1 then 1 else 0;
      assert And(a, b) == 2 * x + low;
      if i == 0 {
        assert (2 * x + low) % 2 == low;
      } else {
        assert (2 * x + low) / 2 == x;
        AndBits(a / 2, b / 2, i - 1);
        assert Bit(And(a, b), i) == Bit(x, i - 1);
      }
    }
  }

  /** Bit i of `a ^ b` is set exactly when bits i of a and b differ. */
  lemma {:induction false} XorBits(a: nat, b: nat, i: nat)
    ensures Bit(Xor(a, b), i) == if Bit(a, i) != Bit(b, i) then 1 else 0
  {
    if a == 0 || b == 0 {
      BitOfZero(i);
    } else {
      var x := Xor(a / 2, b / 2);
      var low := if a % 2 != b % 2 then 1 else 0;
      assert Xor(a, b) == 2 * x + low;
      if i == 0 {
        assert (2 * x + low) % 2 == low;
      } else {
        assert (2 * x + low) / 2 == x;
        XorBits(a / 2, b / 2, i - 1);
        assert Bit(Xor(a, b), i) == Bit(x, i - 1);
      }
    }
  }

  /** Bit i of `a >> k` is bit i + k of a. */
  lemma {:induction false} ShrBits(a: nat, k: nat, i: nat)
    ensures Bit(Shr(a, k), i) == Bit(a, i + k)
  {
    if k > 0 {
      ShrBits(a / 2, k - 1, i);
    }
  }
}
