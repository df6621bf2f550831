// One axis of the visualisation: the Cantor-style subdivision of a length,
// the selected coordinate and the conversions the drawing code uses.

module Axis {
  import opened Bits
  import opened Params
  import opened Subdivision
  import opened Coords

  /** The mouse position, which the program keeps in a global and reads in `update`. */
  datatype Mouse = Mouse(x: real, y: real)

  class CantorSet {
    /** Gap left between the two children of a segment. */
    const mid: real
    var absX: real
    var absY: real
    const width: real
    var segments: seq<Segment>
    var bases: seq<seq<Segment>>
    const vertical: bool
    const showBases: bool
    const hidden: bool
    var selected: nat

    /** The subdivision table holds the levels 0..N and the finest level is `segments`;
        the horizontal selection stays in [0, EXP_N), the vertical one in [0, EXP_N]. */
    ghost predicate Valid()
      reads this
    {
      && mid == 1.0
      && bases == Levels(width, mid, N)
      && segments == Level(width, mid, N)
      && (if vertical then selected <= EXP_N else selected < EXP_N)
    }

    /** The mouse offset along this axis, measured from the axis origin. */
    function Rel(mouse: Mouse): real
      reads this
    {
      if vertical then mouse.y - absY else mouse.x - absX
    }

    /** Builds the N+1 levels of the subdivision of [0, w] by N passes of splitting. */
    constructor (x: real, y: real, w: real, vertical: bool, showBases: bool, hidden: bool)
      ensures Valid()
      ensures absX == x && absY == y && width == w
      ensures this.vertical == vertical && this.showBases == showBases && this.hidden == hidden
      ensures bases[0] == [Segment(0.0, w)] && |segments| == EXP_N
      ensures selected == 0
    {
      mid := 1.0;
      absX := x;
      absY := y;
      width := w;
      this.vertical := vertical;
      this.showBases := showBases;
      this.hidden := hidden;
      new;
      segments := [Segment(0.0, width)];
      bases := [segments];
      var i := 0;
      while i < N
        invariant 0 <= i <= N
        invariant absX == x && absY == y
        invariant segments == Level(width, mid, i)
        invariant bases == Levels(width, mid, i)
      {
        segments := SplitPass(segments, mid);
        bases := bases + [segments];
        i := i + 1;
      }
      selected := 0;
    }

    /** One pass of the constructor's subdivision loop: each segment, left to right, is
        replaced by its left part of width (w - mid) / 2 and its right part of the same width. */
    static method SplitPass(segments: seq<Segment>, mid: real) returns (next: seq<Segment>)
      ensures next == Split(segments, mid)
    {
      next := [];
      var t := 0;
      while t < |segments|
        invariant 0 <= t <= |segments|
        invariant next == Split(segments[..t], mid)
      {
        var seg := segments[t];
        var sw := seg.hi - seg.lo;
        next := next + [Segment(seg.lo, seg.lo + (sw - mid) / 2.0)];
        next := next + [Segment(seg.lo + (sw + mid) / 2.0, seg.hi)];
        assert segments[..t + 1][..t] == segments[..t];
        t := t + 1;
      }
      assert segments[..|segments|] == segments;
    }

    /** `set_pos`: moves the axis origin. */
    method SetPos(x: real, y: real)
      requires Valid()
      modifies this`absX, this`absY
      ensures Valid()
      ensures absX == x && absY == y
    {
      absX := x;
      absY := y;
    }

    /** `update`: clamps the mouse offset to the axis and selects its coordinate.
        Nothing but `selected` changes. */
    method Update(mouse: Mouse)
      requires Valid()
      modifies this`selected
      ensures Valid()
      ensures selected == Selection(vertical, width, Rel(mouse))
      ensures Rel(mouse) < 0.0 ==> selected == if vertical then EXP_N - 1 else 0
      ensures 0.0 <= Rel(mouse) && width <= Rel(mouse) ==> selected == if vertical then 0 else EXP_N - 1
      ensures 0.0 <= Rel(mouse) < width ==> selected == PosToCoord(vertical, width, Rel(mouse))
    {
      var rel := if vertical then mouse.y - absY else mouse.x - absX;
      if rel < 0.0 {
        selected := if vertical then EXP_N - 1 else 0;
      } else if rel >= width {
        selected := if vertical then 0 else EXP_N - 1;
      } else {
        PosToCoordRange(vertical, width, rel);
        selected := PosToCoord(vertical, width, rel);
      }
    }

    /** `selected_pos`: where the selected coordinate is drawn along the axis. */
    function SelectedPos(): (p: int)
      reads this
      requires Valid()
      ensures 0.0 <= width ==> 0 <= p && p as real <= width
    {
      CoordToPosRange(vertical, width, selected);
      CoordToPos(vertical, width, selected)
    }

    /** `coord_to_text`: appends one digit and ", " per bit, from bit N-1 down to bit 0. */
    method CoordToText(coord: nat) returns (t: string)
      ensures t == BitText(coord)
    {
      t := "(";
      var i: int := N - 1;
      while i >= 0
        invariant -1 <= i < N
        invariant t == "(" + Cells(coord, N - 1 - i)
      {
        MaskedBit(coord, i);
        t := t + [DigitChar(Shr(And(coord, Pow2(i)), i))] + ", ";
        i := i - 1;
      }
      t := t + "...)";
    }

    /** `selected_text`: the text of the selected coordinate. */
    method SelectedText() returns (t: string)
      ensures t == BitText(selected)
    {
      t := CoordToText(selected);
    }

    /** `selected_bin`: the zero-padded binary digits of the selected coordinate. */
    function SelectedBin(): (s: string)
      reads this
      requires Valid()
      ensures selected < EXP_N ==> |s| == N
      ensures forall p :: 0 <= p < N && selected < EXP_N ==> s[p] == DigitChar(Bit(selected, N - 1 - p))
    {
      if selected < EXP_N then PaddedBinaryDigits(selected); PaddedBinary(selected)
      else PaddedBinary(selected)
    }

    /** The colouring rule of `draw`: segment i of level k gets the selection colour when
        k = N and i is the selection, or, with the nested bases shown, when 0 < k < N and
        i is `selected >> (N - k)`. A hidden axis draws nothing. */
    predicate Highlighted(k: nat, i: nat): (h: bool)
      reads this
      ensures h ==> !hidden && 0 < k <= N
      ensures h && k < N ==> showBases
      ensures h && k == N ==> i == selected
    {
      && !hidden
      && ((k == N && i == selected) || (showBases && 0 < k < N && i == Shr(selected, N - k)))
    }

    /** When the segments fit (width > (EXP_N - 1) mid), the segments `draw` highlights at a
        coarser level are exactly those that contain the selected finest segment. */
    lemma HighlightMarksAncestor(k: nat, i: nat)
      requires Valid() && !hidden && showBases
      requires selected < EXP_N && (EXP_N as real - 1.0) * mid < width
      requires 0 < k <= N && i < |bases[k]|
      ensures Highlighted(k, i) <==> Inside(segments[selected], bases[k][i])
    {
      AncestorUnique(width, mid, N, N, N - k, selected, i);
      if k == N {
        assert Shr(selected, 0) == selected;
      }
    }
  }
}
