# Odometer: a verified model

The program draws the binary odometer, also called the 2-adic adding machine, on N-bit
coordinates (N = 8). Two Cantor-style axes are drawn at the sides of a square. The mouse
selects one coordinate on each axis. The square shows the orbit grid of the horizontal
selection under the odometer successor.

This project models the computational core of `src/index.js`:

- **Bits** (`bits.dfy`) gives the JavaScript operators `&`, `^`, `>>` and `1 << k` on
  non-negative integers, and bit reversal `Rev`. These are the lemmas the rest of the model uses.
- **Params** (`params.dfy`) holds the constants `N`, `EXP_N = 2^N` and `ORBIT_ITERS`.
- **AddingMachine** (`adding_machine.dfy`) defines the odometer successor by a reference
  definition: reverse the N bits, add one modulo 2^N, reverse back. It also defines its
  inverse `Pred` and the iterate `Iter`, and proves:
  - the successor's range and its values at the edge cases;
  - that it is a bijection;
  - that it forms one cycle of length 2^N;
  - the closed form of its iterates.
- **Subdivision** (`subdivision.dfy`) describes the levels of the Cantor-style subdivision as
  functions. Each segment is split into two children separated by a gap of `mid`. The lemmas
  cover:
  - the children's endpoints and their common width;
  - the closed form of the width;
  - strict left-to-right order when the segments fit;
  - the unique ancestor of a segment at every coarser level.
- **Coords** (`coords.dfy`) covers:
  - `pos_to_coord` and `coord_to_pos`, and the clamped selection made by `update`;
  - the two text renderings `coord_to_text` and `selected_bin`;
  - range and monotonicity of the conversions, and the exact and inexact round trips;
  - the digit-by-digit meaning of the texts.
- **Axis** (`axis.dfy`) is the class `CantorSet`. Its constructor runs the subdivision loops,
  which are proved to build `Levels`. It has `set_pos` and `update`, with the mouse passed as a
  `Mouse` value. It also has the selection accessors and the highlight rule of `draw`. That rule
  is proved to mark exactly the ancestors of the selected segment.
- **OdometerSystem** (`odometer.dfy`) is the class `Odometer`:
  - `group_action` is the carry loop, proved equal to the reference successor;
  - the constructor fills the successor table `actions`;
  - it has `set_pos` and `update`;
  - the orbit grid's double loop returns the coordinate pairs that `draw` marks.

Three behaviours of the code are easy to get wrong:

- **Segments do not cover the axis.** The segments of a level do not partition `[0, width)`.
  Every split leaves a gap of `mid` (1 unit). See `Subdivision.ChildrenOfSegment`.
- **The round trip is not always exact.** `pos_to_coord(coord_to_pos(c)) == c` does not hold in
  general. It holds when the width is a multiple of 2^N (`Coords.RoundTripExact`). For other
  widths only a one-sided bound holds (`Coords.RoundTripBounds`). With the width the program
  uses, 700, coordinate 1 maps back to 0 (`Coords.RoundTripInexactAt700`).
- **The vertical selection can be out of range.** On a vertical axis, `update` with the mouse
  exactly at the axis origin selects 2^N. That is one past the last coordinate (`Coords.Selection`).

## Model

| member | source | states |
|---|---|---|
| Bits.Pow2 | src/index.js:194 | `1 << k` is at least 1, so the mask starts non-zero |
| Bits.Bit | src/index.js:83 | a bit is 0 or 1 |
| Bits.And | src/index.js:196 | `a & b` by halving; its meaning bit by bit is Bits.AndBits |
| Bits.AndBits | src/index.js:196 | bit i of `a & b` is set exactly when bit i is set in both a and b |
| Bits.Xor | src/index.js:197 | `a ^ b` by halving; its meaning bit by bit is Bits.XorBits |
| Bits.XorBits | src/index.js:197 | bit i of `a ^ b` is set exactly when bits i of a and b differ |
| Bits.Shr | src/index.js:198 | `a >> k` by k halvings; its meaning bit by bit is Bits.ShrBits |
| Bits.ShrBits | src/index.js:141 | bit i of `a >> k` is bit i + k of a |
| Bits.Rev | src/index.js:193-201 | the reversal of the low n bits is below 2^n |
| Bits.AndPow2 | src/index.js:196 | `x & (1 << k)` is 2^k when bit k of x is set and 0 otherwise |
| Bits.XorPow2 | src/index.js:197 | `x ^ (1 << k)` flips bit k: it subtracts 2^k when the bit is set and adds 2^k otherwise |
| Bits.MaskedBit | src/index.js:83 | `(x & 1 << k) >> k` is bit k of x |
| Bits.BitOfRev | src/index.js:193-201 | bit i of the n-bit reversal is bit n-1-i of the argument |
| Bits.RevInvolution | src/index.js:193-201 | reversing twice gives back every n-bit value |
| Bits.RevInjective | src/index.js:193-201 | two n-bit values with the same reversal are equal |
| Bits.SetBitStaysBelow | src/index.js:197 | setting a clear bit below position n keeps a value below 2^n |
| Bits.RevOfSetBit | src/index.js:193-201 | setting clear bit k adds 2^(n-1-k) to the reversal, so bit N-1 is the odometer's ones place |
| Bits.ShrBound | src/index.js:141 | `c >> j` of a value below 2^k is below 2^(k-j), a valid index of the coarser level |
| AddingMachine.Succ | src/index.js:193-201 | the reference successor always lies in [0, 2^n) |
| AddingMachine.SuccIsReversedIncrement | src/index.js:193-201 | the successor is bitreverse((bitreverse(x) + 1) mod 2^n) |
| AddingMachine.SuccOfAllOnes | src/index.js:193-201 | 2^n - 1 wraps around to 0 |
| AddingMachine.SuccSetsLeadingBit | src/index.js:193-201 | when bit n-1 is clear the successor is x + 2^(n-1) |
| AddingMachine.SuccOfZero | src/index.js:193-201 | 0 steps to 2^(n-1), which is 128 for N = 8 |
| AddingMachine.SuccReversed | src/index.js:193-201 | the reversal of the successor is the reversal of x plus one, modulo 2^n |
| AddingMachine.SuccPredInverse | src/index.js:193-201 | Pred undoes the successor and the successor undoes Pred on [0, 2^n) |
| AddingMachine.SuccInjective | src/index.js:193-201 | distinct coordinates have distinct successors |
| AddingMachine.SuccSurjective | src/index.js:193-201 | every coordinate has a predecessor in [0, 2^n) |
| AddingMachine.IterReversed | src/index.js:226-237 | k <= 2^n steps add k, modulo 2^n, to the reversed coordinate |
| AddingMachine.IterClosedForm | src/index.js:226-237 | the k-th successor in closed form, for k <= 2^n |
| AddingMachine.IterAdd | src/index.js:226-237 | k steps after j steps are j + k steps |
| AddingMachine.OrbitDistinct | src/index.js:193-201 | the first 2^n points of every orbit are pairwise distinct |
| AddingMachine.OrbitReturns | src/index.js:193-201 | every orbit returns to its start after 2^n steps |
| AddingMachine.OrbitVisitsAll | src/index.js:193-201 | every coordinate lies on the orbit of every other within fewer than 2^n steps |
| AddingMachine.SingleCycle | src/index.js:193-201 | for 0 < k <= 2^n, k steps return to the start if and only if k = 2^n |
| Subdivision.Children | src/index.js:44-46 | the two children keep the parent's outer endpoints, are separated by a gap of `mid` and both have width (w - mid) / 2 |
| Subdivision.Split | src/index.js:43-47 | one pass of splitting doubles the number of segments |
| Subdivision.Level | src/index.js:39-50 | level k has exactly 2^k segments |
| Subdivision.Levels | src/index.js:40-49 | the table holds levels 0..n in order, so its length is n + 1 |
| Subdivision.SplitAt | src/index.js:43-47 | segment j of the next level is child j mod 2 of segment j / 2 |
| Subdivision.ChildrenOfSegment | src/index.js:44-46 | children 2i and 2i+1 keep the parent's outer endpoints, are `mid` apart and have width (w - mid) / 2 |
| Subdivision.LevelWidth | src/index.js:43-47 | every segment of level k has the same width |
| Subdivision.SegWidthClosedForm | src/index.js:43-47 | 2^k (w_k + mid) = width + mid |
| Subdivision.SegWidthBound | src/index.js:43-47 | when width > (2^n - 1) mid, a segment of level k is wider than (2^(n-k) - 1) mid |
| Subdivision.SegWidthPositive | src/index.js:43-47 | when width > (2^n - 1) mid, every level up to n has positive width |
| Subdivision.ChildInside | src/index.js:43-47 | a child lies inside its parent |
| Subdivision.LevelNonDegenerate | src/index.js:43-47 | when the segments fit, every segment has lo < hi |
| Subdivision.LevelSeparated | src/index.js:43-47 | when the segments fit, segment i ends strictly before segment j > i starts |
| Subdivision.LevelOrdered | src/index.js:43-47 | when the segments fit, each level up to n is strictly ordered left to right |
| Subdivision.AncestorInside | src/index.js:141 | segment c of level k lies inside segment c >> j of level k - j |
| Subdivision.AncestorUnique | src/index.js:141 | of the segments of level k - j, exactly segment c >> j contains segment c of level k |
| Coords.Selection | src/index.js:102-113 | a horizontal selection is in [0, 2^N); a vertical one is in [0, 2^N] and equals 2^N exactly when the mouse is at the origin |
| Coords.PosToCoord | src/index.js:64-70 | `pos_to_coord`, counting from the far end on a vertical axis; its range is Coords.PosToCoordRange |
| Coords.CoordToPos | src/index.js:72-78 | `coord_to_pos`, mirrored on a vertical axis; its range is Coords.CoordToPosRange |
| Coords.CoordToPosRange | src/index.js:72-78 | on a non-negative width, every coordinate in [0, 2^N] is drawn within [0, width] |
| Coords.PosToCoordRange | src/index.js:64-70 | on [0, width) the horizontal coordinate is in [0, 2^N); the vertical one is in [0, 2^N] and reaches 2^N only at 0 |
| Coords.PosToCoordMonotone | src/index.js:64-70 | the horizontal coordinate is non-decreasing in x and the vertical one non-increasing |
| Coords.RoundTripBounds | src/index.js:64-78 | a coordinate c drawn and read back gives at most c horizontally and at least c vertically |
| Coords.RoundTripExact | src/index.js:64-78 | when width is a multiple of 2^N the round trip gives back c in both orientations |
| Coords.RoundTripInexactAt700 | src/index.js:64-78 | with width 700, coordinate 1 is drawn at 2, which maps back to 0 |
| Coords.PositionRoundTripHorizontal | src/index.js:64-78 | a position p in [0, width) read as a coordinate and drawn back lands at q with q <= p < q + width / 2^N + 1 |
| Coords.PositionRoundTripVertical | src/index.js:64-78 | on a vertical axis the same round trip lands at q with p - 1 < q <= p + width / 2^N |
| Coords.Cells | src/index.js:82-84 | k passes of the text loop append 3k characters |
| Coords.CellsAt | src/index.js:82-84 | cell p of the loop's output is the digit of bit N-1-p followed by ", " |
| Coords.BitText | src/index.js:80-87 | the text has length 3N + 5, opens with "(" and ends with "...)" |
| Coords.BitTextAt | src/index.js:80-87 | the text has length 3N + 5, opens with "(", ends with "...)", and digit p is bit N-1-p |
| Coords.BitTextDeterminesCoord | src/index.js:80-87 | two coordinates in range with the same text are equal |
| Coords.ToBinary | src/index.js:98 | `toString(2)` has at least one digit |
| Coords.ToBinaryBits | src/index.js:98 | `toString(2)` read from the right gives the bits of c, with no more digits than needed |
| Coords.PaddedBinary | src/index.js:97-100 | the result is the binary digits of c, left-padded with '0' to N characters when they are fewer than N |
| Coords.PaddedBinaryDigit | src/index.js:97-100 | for c < 2^N the padded text has N digits and digit p is bit N-1-p of c |
| Coords.PaddedBinaryDigits | src/index.js:97-100 | for c < 2^N the padded text has exactly N digits and digit p is bit N-1-p of c |
| Axis.CantorSet.Rel | src/index.js:103-105 | the mouse offset along the axis, from the axis origin; Axis.CantorSet.Update states the selection made from it |
| Axis.CantorSet.constructor | src/index.js:27-57 | the table holds levels 0..N, `bases[0]` is the whole axis, `segments` is level N with 2^N segments, and the selection is 0 |
| Axis.CantorSet.SplitPass | src/index.js:42-48 | the inner loop replaces each segment, in order, by its two children |
| Axis.CantorSet.SetPos | src/index.js:59-62 | the origin moves and the subdivision and selection are unchanged |
| Axis.CantorSet.Update | src/index.js:102-113 | the clamped selection: the extremes when the offset is negative or at least the width, else `pos_to_coord`; nothing else changes |
| Axis.CantorSet.SelectedPos | src/index.js:89-91 | the selection is drawn within [0, width] |
| Axis.CantorSet.CoordToText | src/index.js:80-87 | the loop builds the N-digit text BitText(coord) |
| Axis.CantorSet.SelectedText | src/index.js:93-95 | the text of the selection |
| Axis.CantorSet.SelectedBin | src/index.js:97-100 | for a selection in range, N digits, digit p being bit N-1-p of the selection |
| Axis.CantorSet.Highlighted | src/index.js:118-145 | a highlighted segment lies on a visible axis at a level 0 < k <= N; coarser levels only when the bases are shown; at level N only the selection |
| Axis.CantorSet.HighlightMarksAncestor | src/index.js:118-145 | when the segments fit, the segment `draw` highlights at level k is exactly the one containing the selected finest segment |
| OdometerSystem.CarryStep | src/index.js:195-199 | one pass of the carry loop keeps the carry invariant and strictly shrinks the mask |
| OdometerSystem.CarryDone | src/index.js:193-201 | when the mask is zero, x is the successor of the input |
| OdometerSystem.OrbitRowAt | src/index.js:228-235 | entry k of an orbit row is (c, k-th successor of c) |
| OdometerSystem.OrbitRowsAt | src/index.js:226-237 | every grid row has ORBIT_ITERS entries; pair (j, k) is (succ^j(c0), succ^(j+k)(c0)); both are below 2^N |
| OdometerSystem.Odometer.constructor | src/index.js:167-184 | the axes are placed `axisSpacing` = 4 away from the square and sized as it is, and `actions[k]` is the successor of k for every k < 2^N |
| OdometerSystem.Odometer.BuildActions | src/index.js:180-183 | the loop fills a table of 2^N entries with the successor of each index |
| OdometerSystem.Odometer.GroupAction | src/index.js:193-201 | the carry loop terminates and returns the reference successor, a value below 2^N |
| OdometerSystem.Odometer.SetPos | src/index.js:186-191 | the square and both axes move together |
| OdometerSystem.Odometer.Update | src/index.js:203-206 | both axes take the clamped selection of the mouse |
| OdometerSystem.Odometer.OrbitGrid | src/index.js:226-237 | the double loop yields ORBIT_ITERS rows of ORBIT_ITERS pairs, as OrbitRows describes |
| OdometerSystem.Odometer.OrbitRowFrom | src/index.js:228-235 | the inner loop yields the row of c: c paired with its first ORBIT_ITERS iterates |

## Left out

- OdometerSystem.Odometer.GroupAction: requires its argument to be below 2^N. The JavaScript code accepts
  any number, but its only caller passes k < 2^N. For larger values the low N bits would carry
  and the high bits would stay as they are; that case is not modelled.
- Axis.CantorSet.SelectedBin: states its digits only for a selection below 2^N. A vertical
  selection of 2^N has N + 1 binary digits, and the function then returns them unpadded.
- JavaScript numbers:
  - Positions and segment endpoints are `real`, with `.Floor` for `Math.floor`. IEEE-754
    rounding is not modelled. The endpoints are dyadic, and scaling by 2^N is exact in doubles.
  - Bitwise operators are taken on unbounded non-negative integers. They agree with JavaScript's
    32-bit operators for the values the program uses, since N <= 30.
- All canvas drawing: the `ctx` calls, colours, fonts, rectangles and text placement in both
  `draw` methods, the diagonal line and the selection marker. Only the highlight rule and the
  orbit coordinate pairs are modelled, not the pixel positions of the orbit points.
- The `h` constructor argument, `grid_height`, `base_height`, `spacing` and `axis_height`. They
  only size rectangles.
- The React component, `ReactDOM.render`, the `mousemove` listener that writes the mouse
  position, and the animation loop. The mouse enters `update` as a `Mouse` parameter instead.
  `setupCanvas` from `utils.js` is not part of this model.
