// The binary odometer (2-adic adding machine) on n-bit coordinates.
//
// The successor in src/index.js reads bit n-1 as the ones place and carries
// toward bit 0. Its reference definition here is "reverse the bits, add one
// modulo 2^n, reverse back"; the `group_action` loop is proved equal to it in
// OdometerSystem.Odometer.GroupAction.

module AddingMachine {
  import opened Bits

  /** The odometer successor of x. */
  function Succ(n: nat, x: nat): (r: nat)
    ensures r < Pow2(n)
  {
    Rev(Wrap(Rev(x, n) + 1, Pow2(n)), n)
  }

  /** The odometer predecessor of y: the inverse of Succ. */
  function Pred(n: nat, y: nat): (r: nat)
    ensures r < Pow2(n)
  {
    Rev(Wrap(Rev(y, n) + Pow2(n) - 1, Pow2(n)), n)
  }

  /** Succ applied k times to x. */
  function Iter(n: nat, x: nat, k: nat): (r: nat)
    ensures x < Pow2(n) ==> r < Pow2(n)
  {
    if k == 0 then x else Succ(n, Iter(n, x, k - 1))
  }

  /** a mod m for a < 2m: a - m when a has reached m, else a (see ModAsWrap). */
  function Wrap(a: nat, m: nat): nat
  {
    if a < m then a else a - m
  }

  /** a % m for 0 <= a < 2m, by cases. */
  lemma ModAsWrap(a: nat, m: nat)
    requires 0 < m && a < 2 * m
    ensures a % m == Wrap(a, m)
  {
  }

  /** Succ is bit-reversal conjugate of adding one modulo 2^n. */
  lemma SuccIsReversedIncrement(n: nat, x: nat)
    ensures Succ(n, x) == Rev((Rev(x, n) + 1) % Pow2(n), n)
  {
    ModAsWrap(Rev(x, n) + 1, Pow2(n));
  }

  /** The successor of the all-ones coordinate wraps around to 0. */
  lemma SuccOfAllOnes(n: nat)
    ensures Succ(n, Pow2(n) - 1) == 0
  {
    RevOfAllOnes(n);
    RevOfZero(n);
  }

  /** When bit n-1 (the ones place of the odometer) is clear, the successor just sets it. */
  lemma SuccSetsLeadingBit(n: nat, x: nat)
    requires 1 <= n && x < Pow2(n) && Bit(x, n - 1) == 0
    ensures Succ(n, x) == x + Pow2(n - 1)
  {
    var y := Rev(x, n);
    BitOfRev(x, n, 0);
    SetBitStaysBelow(y, n, 0);
    RevOfSetBit(y, n, 0);
    RevInvolution(x, n);
  }

  /** For n >= 1, 0 steps to 2^(n-1) (128 for n = 8). */
  lemma SuccOfZero(n: nat)
    requires 1 <= n
    ensures Succ(n, 0) == Pow2(n - 1)
  {
    BitOfZero(n - 1);
    SuccSetsLeadingBit(n, 0);
  }

  /** Succ and Pred are inverse to each other on [0, 2^n), so Succ is a bijection there. */
  lemma SuccPredInverse(n: nat, x: nat)
    requires x < Pow2(n)
    ensures Pred(n, Succ(n, x)) == x
    ensures Succ(n, Pred(n, x)) == x
  {
    PredAfterSucc(n, x);
    SuccAfterPred(n, x);
  }

  /** Reversing the successor gives the reversed coordinate plus one, modulo 2^n. */
  lemma SuccReversed(n: nat, x: nat)
    ensures Rev(Succ(n, x), n) == Wrap(Rev(x, n) + 1, Pow2(n))
  {
    RevInvolution(Wrap(Rev(x, n) + 1, Pow2(n)), n);
  }

  /** Reversing the predecessor gives the reversed coordinate minus one, modulo 2^n. */
  lemma PredReversed(n: nat, x: nat)
    ensures Rev(Pred(n, x), n) == Wrap(Rev(x, n) + Pow2(n) - 1, Pow2(n))
  {
    RevInvolution(Wrap(Rev(x, n) + Pow2(n) - 1, Pow2(n)), n);
  }

  lemma WrapDown(r: nat, m: nat, s: nat)
    requires r < m && s == Wrap(r + 1, m)
    ensures Wrap(s + m - 1, m) == r
  {
  }

  lemma WrapUp(r: nat, m: nat, s: nat)
    requires r < m && s == Wrap(r + m - 1, m)
    ensures Wrap(s + 1, m) == r
  {
  }

  /** Adding one and then subtracting one, on reversed coordinates, gets back to x. */
  lemma ReversedDownAfterUp(n: nat, x: nat, y: nat, z: nat)
    requires x < Pow2(n) && z < Pow2(n)
    requires Rev(y, n) == Wrap(Rev(x, n) + 1, Pow2(n))
    requires Rev(z, n) == Wrap(Rev(y, n) + Pow2(n) - 1, Pow2(n))
    ensures z == x
  {
    WrapDown(Rev(x, n), Pow2(n), Rev(y, n));
    RevInjective(z, x, n);
  }

  /** Subtracting one and then adding one, on reversed coordinates, gets back to x. */
  lemma ReversedUpAfterDown(n: nat, x: nat, y: nat, z: nat)
    requires x < Pow2(n) && z < Pow2(n)
    requires Rev(y, n) == Wrap(Rev(x, n) + Pow2(n) - 1, Pow2(n))
    requires Rev(z, n) == Wrap(Rev(y, n) + 1, Pow2(n))
    ensures z == x
  {
    WrapUp(Rev(x, n), Pow2(n), Rev(y, n));
    RevInjective(z, x, n);
  }

  lemma PredAfterSucc(n: nat, x: nat)
    requires x < Pow2(n)
    ensures Pred(n, Succ(n, x)) == x
  {
    SuccReversed(n, x);
    PredReversed(n, Succ(n, x));
    ReversedDownAfterUp(n, x, Succ(n, x), Pred(n, Succ(n, x)));
  }

  lemma SuccAfterPred(n: nat, x: nat)
    requires x < Pow2(n)
    ensures Succ(n, Pred(n, x)) == x
  {
    PredReversed(n, x);
    SuccReversed(n, Pred(n, x));
    ReversedUpAfterDown(n, x, Pred(n, x), Succ(n, Pred(n, x)));
  }

  /** No two coordinates have the same successor. */
  lemma SuccInjective(n: nat, x: nat, y: nat)
    requires x < Pow2(n) && y < Pow2(n)
    requires Succ(n, x) == Succ(n, y)
    ensures x == y
  {
    SuccPredInverse(n, x);
    SuccPredInverse(n, y);
  }

  /** Every coordinate is the successor of some coordinate. */
  lemma SuccSurjective(n: nat, y: nat)
    requires y < Pow2(n)
    ensures exists x: nat :: x < Pow2(n) && Succ(n, x) == y
  {
    SuccPredInverse(n, y);
  }

  lemma WrapSucc(r: nat, k: nat, m: nat)
    requires r < m && 0 < k <= m
    ensures Wrap(Wrap(r + k - 1, m) + 1, m) == Wrap(r + k, m)
  {
  }

  /** On reversed coordinates, iterating k <= 2^n times adds k modulo 2^n. */
  lemma {:induction false} IterReversed(n: nat, x: nat, k: nat)
    requires x < Pow2(n) && k <= Pow2(n)
    ensures Rev(Iter(n, x, k), n) == Wrap(Rev(x, n) + k, Pow2(n))
  {
    if k > 0 {
      IterReversed(n, x, k - 1);
      SuccReversed(n, Iter(n, x, k - 1));
      WrapSucc(Rev(x, n), k, Pow2(n));
    }
  }

  /** Iterating k <= 2^n times adds k, modulo 2^n, to the reversed coordinate. */
  lemma IterClosedForm(n: nat, x: nat, k: nat)
    requires x < Pow2(n) && k <= Pow2(n)
    ensures Iter(n, x, k) == Rev(Wrap(Rev(x, n) + k, Pow2(n)), n)
  {
    IterReversed(n, x, k);
    RevInvolution(Iter(n, x, k), n);
  }

  /** Iterating j times and then k times is iterating j + k times. */
  lemma {:induction false} IterAdd(n: nat, x: nat, j: nat, k: nat)
    ensures Iter(n, Iter(n, x, j), k) == Iter(n, x, j + k)
  {
    if k > 0 {
      IterAdd(n, x, j, k - 1);
    }
  }

  /** The first 2^n points of any orbit are pairwise distinct. */
  lemma OrbitDistinct(n: nat, x: nat, i: nat, j: nat)
    requires x < Pow2(n) && i < j < Pow2(n)
    ensures Iter(n, x, i) != Iter(n, x, j)
  {
    IterReversed(n, x, i);
    IterReversed(n, x, j);
  }

  /** The orbit of any coordinate returns to it after exactly 2^n steps. */
  lemma OrbitReturns(n: nat, x: nat)
    requires x < Pow2(n)
    ensures Iter(n, x, Pow2(n)) == x
  {
    IterReversed(n, x, Pow2(n));
    RevInjective(Iter(n, x, Pow2(n)), x, n);
  }

  /** Every coordinate lies on the orbit of every other, within fewer than 2^n steps. */
  lemma OrbitVisitsAll(n: nat, x: nat, y: nat)
    requires x < Pow2(n) && y < Pow2(n)
    ensures exists k: nat :: k < Pow2(n) && Iter(n, x, k) == y
  {
    var k := if Rev(y, n) >= Rev(x, n) then Rev(y, n) - Rev(x, n) else Rev(y, n) + Pow2(n) - Rev(x, n);
    IterReversed(n, x, k);
    RevInjective(Iter(n, x, k), y, n);
  }

  /** Succ is a single cycle of length 2^n: the orbit returns after 2^n steps and not before. */
  lemma SingleCycle(n: nat, x: nat, k: nat)
    requires x < Pow2(n) && 0 < k <= Pow2(n)
    ensures Iter(n, x, k) == x <==> k == Pow2(n)
  {
    if k < Pow2(n) {
      OrbitDistinct(n, x, 0, k);
    } else {
      OrbitReturns(n, x);
    }
  }
}
