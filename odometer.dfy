// The odometer view: a horizontal and a vertical axis, the precomputed table
// of odometer successors, and the coordinates of the orbit grid.

module OdometerSystem {
  import opened Bits
  import opened Params
  import opened AddingMachine
  import opened Coords
  import opened Axis

  /** The state of the `group_action` loop on its way from x0 to the successor: while the
      mask 2^m is non-zero, the reversal of x plus 2^(n-1-m) is the reversal of x0 plus one
      (bits n-1-m+1.. of the sum still to be carried); once the mask is zero, the reversal
      of x is the reversal of x0 plus one, modulo 2^n. */
  ghost predicate Carrying(n: nat, x0: nat, x: nat, m: int, mask: nat)
  {
    && x < Pow2(n)
    && (mask != 0 ==> 0 <= m < n && mask == Pow2(m) && Rev(x, n) + Pow2(n - 1 - m) == Rev(x0, n) + 1)
    && (mask == 0 ==> Rev(x, n) == Wrap(Rev(x0, n) + 1, Pow2(n)))
  }

  /** Flipping a set bit m clears it and passes the carry on to bit m - 1 (or out, at m = 0). */
  lemma CarrySet(n: nat, x0: nat, x: nat, m: nat)
    requires x < Pow2(n) && m < n && Bit(x, m) == 1
    requires Rev(x, n) + Pow2(n - 1 - m) == Rev(x0, n) + 1
    ensures Pow2(m) <= x
    ensures Carrying(n, x0, x - Pow2(m), m - 1, Shr(Pow2(m), 1))
  {
    SetBitBound(x, m);
    RevOfSetBit(x - Pow2(m), n, m);
    if m > 0 {
      assert Pow2(n - m) == 2 * Pow2(n - 1 - m);
    }
  }

  /** Flipping a clear bit m sets it, which absorbs the carry. */
  lemma CarryClear(n: nat, x0: nat, x: nat, m: nat)
    requires x < Pow2(n) && m < n && Bit(x, m) == 0
    requires Rev(x, n) + Pow2(n - 1 - m) == Rev(x0, n) + 1
    ensures Carrying(n, x0, x + Pow2(m), m - 1, Shr(0, 1))
  {
    SetBitStaysBelow(x, n, m);
    RevOfSetBit(x, n, m);
  }

  /** One pass of the `group_action` loop keeps Carrying and halves the mask (or clears it). */
  lemma CarryStep(n: nat, x0: nat, x: nat, m: int, mask: nat)
    requires Carrying(n, x0, x, m, mask) && mask != 0
    ensures Carrying(n, x0, Xor(x, mask), m - 1, Shr(And(x, mask), 1))
    ensures Shr(And(x, mask), 1) < mask
  {
    AndPow2(x, m);
    XorPow2(x, m);
    if Bit(x, m) == 1 {
      CarrySet(n, x0, x, m);
    } else {
      CarryClear(n, x0, x, m);
    }
  }

  /** When the carry has run out, x is the odometer successor of x0. */
  lemma CarryDone(n: nat, x0: nat, x: nat, m: int)
    requires Carrying(n, x0, x, m, 0)
    ensures x == Succ(n, x0)
  {
    SuccReversed(n, x0);
    RevInjective(x, Succ(n, x0), n);
  }

  /** The first len entries of an orbit row: entry k pairs c with its k-th successor
      in the n-bit odometer. */
  function OrbitRow(n: nat, c: nat, len: nat): (r: seq<(int, int)>)
    ensures |r| == len
  {
    if len == 0 then [] else OrbitRow(n, c, len - 1) + [(c, Iter(n, c, len - 1))]
  }

  /** The first len rows of the orbit grid of c0: row j is the full row of the j-th successor of c0. */
  function OrbitRows(n: nat, c0: nat, len: nat): (r: seq<seq<(int, int)>>)
    ensures |r| == len
  {
    if len == 0 then [] else OrbitRows(n, c0, len - 1) + [OrbitRow(n, Iter(n, c0, len - 1), ORBIT_ITERS)]
  }

  lemma {:induction false} OrbitRowAt(n: nat, c: nat, len: nat, k: nat)
    requires k < len
    ensures OrbitRow(n, c, len)[k] == (c, Iter(n, c, k))
  {
    var front := OrbitRow(n, c, len - 1);
    assert OrbitRow(n, c, len) == front + [(c, Iter(n, c, len - 1))];
    if k < len - 1 {
      OrbitRowAt(n, c, len - 1, k);
      assert OrbitRow(n, c, len)[k] == front[k];
    }
  }

  /** Every row of the orbit grid has ORBIT_ITERS entries; entry k of row j pairs the j-th
      successor of c0 with its (j + k)-th successor, and both stay below 2^n when c0 does. */
  lemma {:induction false} OrbitRowsAt(n: nat, c0: nat, len: nat, j: nat, k: nat)
    requires j < len && k < ORBIT_ITERS
    ensures |OrbitRows(n, c0, len)[j]| == ORBIT_ITERS
    ensures OrbitRows(n, c0, len)[j][k] == (Iter(n, c0, j), Iter(n, c0, j + k))
    ensures c0 < Pow2(n) ==> OrbitRows(n, c0, len)[j][k].0 < Pow2(n) && OrbitRows(n, c0, len)[j][k].1 < Pow2(n)
  {
    var front := OrbitRows(n, c0, len - 1);
    assert OrbitRows(n, c0, len) == front + [OrbitRow(n, Iter(n, c0, len - 1), ORBIT_ITERS)];
    if j < len - 1 {
      OrbitRowsAt(n, c0, len - 1, j, k);
      assert OrbitRows(n, c0, len)[j] == front[j];
    } else {
      assert OrbitRows(n, c0, len)[j] == OrbitRow(n, Iter(n, c0, j), ORBIT_ITERS);
      OrbitRowAt(n, Iter(n, c0, j), ORBIT_ITERS, k);
      IterAdd(n, c0, j, k);
    }
  }

  class Odometer {
    /** Distance between the square region and each axis. */
    const axisSpacing: real := 4.0
    var absX: real
    var absY: real
    const size: real
    const horizontalAxis: CantorSet
    const verticalAxis: CantorSet
    /** `actions[k]` is the odometer successor of coordinate k. */
    const actions: array<nat>

    ghost predicate Valid()
      reads this, horizontalAxis, verticalAxis, actions
    {
      && horizontalAxis != verticalAxis
      && horizontalAxis.Valid() && verticalAxis.Valid()
      && !horizontalAxis.vertical && horizontalAxis.showBases && !horizontalAxis.hidden
      && verticalAxis.vertical && !verticalAxis.showBases && !verticalAxis.hidden
      && horizontalAxis.width == size && verticalAxis.width == size
      && SuccessorTable()
    }

    /** `actions` holds the odometer successor of every coordinate. */
    ghost predicate SuccessorTable()
      reads this, actions
    {
      && actions.Length == EXP_N
      && (forall k :: 0 <= k < EXP_N ==> actions[k] == Succ(N, k))
    }

    /** Builds both axes and fills the successor table with `group_action`. */
    constructor (x: real, y: real, size: real)
      ensures Valid()
      ensures absX == x && absY == y && this.size == size
      ensures horizontalAxis.absX == x && horizontalAxis.absY == y + size + axisSpacing
      ensures verticalAxis.absX == x - axisSpacing && verticalAxis.absY == y
      ensures horizontalAxis.selected == 0 && verticalAxis.selected == 0
      ensures fresh(horizontalAxis) && fresh(verticalAxis) && fresh(actions)
    {
      absX := x;
      absY := y;
      this.size := size;
      horizontalAxis := new CantorSet(x, y + size + axisSpacing, size, false, true, false);
      verticalAxis := new CantorSet(x - axisSpacing, y, size, true, false, false);
      var table := BuildActions();
      actions := table;
    }

    /** The constructor's loop that fills the successor table with `group_action`. */
    static method BuildActions() returns (table: array<nat>)
      ensures fresh(table) && table.Length == EXP_N
      ensures forall k :: 0 <= k < EXP_N ==> table[k] == Succ(N, k)
    {
      table := new nat[EXP_N];
      var k := 0;
      while k < EXP_N
        invariant 0 <= k <= EXP_N
        invariant forall j :: 0 <= j < k ==> table[j] == Succ(N, j)
      {
        table[k] := GroupAction(k);
        k := k + 1;
      }
    }

    /** `group_action`: flips bits from bit N-1 downward while the flipped bit was set,
        i.e. adds one with bit N-1 as the ones place. The mask halves on every pass. */
    static method GroupAction(x0: nat) returns (x: nat)
      requires x0 < EXP_N
      ensures x < EXP_N
      ensures x == Succ(N, x0)
    {
      var mask := Pow2(N - 1);
      ghost var m: int := N - 1;
      x := x0;
      while mask != 0
        invariant Carrying(N, x0, x, m, mask)
        decreases mask
      {
        CarryStep(N, x0, x, m, mask);
        var carry := And(x, mask);
        x := Xor(x, mask);
        mask := Shr(carry, 1);
        m := m - 1;
      }
      CarryDone(N, x0, x, m);
    }

    /** `set_pos`: moves the square region and both axes with it. */
    method SetPos(x: real, y: real)
      requires Valid()
      modifies this`absX, this`absY, horizontalAxis`absX, horizontalAxis`absY, verticalAxis`absX, verticalAxis`absY
      ensures Valid()
      ensures absX == x && absY == y
      ensures horizontalAxis.absX == x && horizontalAxis.absY == y + size + axisSpacing
      ensures verticalAxis.absX == x - axisSpacing && verticalAxis.absY == y
    {
      absX := x;
      absY := y;
      horizontalAxis.SetPos(x, y + size + axisSpacing);
      verticalAxis.SetPos(x - axisSpacing, y);
    }

    /** `update`: updates the selection of both axes from the mouse. */
    method Update(mouse: Mouse)
      requires Valid()
      modifies horizontalAxis`selected, verticalAxis`selected
      ensures Valid()
      ensures horizontalAxis.selected == Selection(false, size, mouse.x - horizontalAxis.absX)
      ensures verticalAxis.selected == Selection(true, size, mouse.y - verticalAxis.absY)
    {
      horizontalAxis.Update(mouse);
      verticalAxis.Update(mouse);
    }

    /** The coordinate pairs of the orbit grid that `draw` marks, following the successor
        table from the horizontal selection (see OrbitRowsAt for what each entry is). */
    method OrbitGrid() returns (grid: seq<seq<(int, int)>>)
      requires SuccessorTable() && horizontalAxis.selected < EXP_N
      ensures grid == OrbitRows(N, horizontalAxis.selected, ORBIT_ITERS)
    {
      var c0 := horizontalAxis.selected;
      var c := c0;
      grid := [];
      var j := 0;
      while j < ORBIT_ITERS
        invariant 0 <= j <= ORBIT_ITERS
        invariant c == Iter(N, c0, j)
        invariant grid == OrbitRows(N, c0, j)
      {
        var row := OrbitRowFrom(c);
        assert OrbitRows(N, c0, j + 1) == grid + [row];
        grid := grid + [row];
        assert actions[c] == Succ(N, c);
        c := actions[c];
        j := j + 1;
      }
    }

    /** One row of the orbit grid in `draw`: the pairs (c, d) for d = c and its next
        ORBIT_ITERS - 1 successors, read from the successor table. */
    method OrbitRowFrom(c: nat) returns (row: seq<(int, int)>)
      requires SuccessorTable() && c < EXP_N
      ensures row == OrbitRow(N, c, ORBIT_ITERS)
    {
      row := [];
      var d := c;
      var k := 0;
      while k < ORBIT_ITERS
        invariant 0 <= k <= ORBIT_ITERS
        invariant d == Iter(N, c, k)
        invariant row == OrbitRow(N, c, k)
      {
        row := row + [(c, d)];
        assert actions[d] == Succ(N, d);
        d := actions[d];
        k := k + 1;
      }
    }
  }
}
