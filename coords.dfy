// Conversions between a position along an axis and a discrete coordinate in
// [0, EXP_N), and the two textual renderings of a coordinate.
//
// A horizontal axis counts coordinates from its origin; a vertical axis is
// reversed and counts them from its far end.

module Coords {
  import opened Bits
  import opened Params

  /** `pos_to_coord`: the coordinate of position x on an axis of the given width. On [0, width)
      the horizontal coordinate lies in [0, EXP_N); the vertical one lies in [0, EXP_N] and
      reaches EXP_N exactly at position 0. */
  function PosToCoord(vertical: bool, width: real, x: real): (r: int)
    requires width != 0.0
  {
    if vertical then ((1.0 - x / width) * (EXP_N as real)).Floor
    else ((x / width) * (EXP_N as real)).Floor
  }

  /** `coord_to_pos`: the position at which coordinate c is drawn on an axis of the given width.
      On a non-negative width, coordinates in [0, EXP_N] are drawn within [0, width]. */
  function CoordToPos(vertical: bool, width: real, c: int): (r: int)
  {
    if vertical then ((1.0 - (c as real) / (EXP_N as real)) * width).Floor
    else (((c as real) / (EXP_N as real)) * width).Floor
  }

  /** The selection `update` makes for a mouse at offset rel from the axis origin: the two
      extremes when rel lies outside [0, width), else the coordinate of rel. */
  function Selection(vertical: bool, width: real, rel: real): (r: int)
    ensures !vertical ==> 0 <= r < EXP_N
    ensures vertical ==> 0 <= r <= EXP_N
    ensures vertical ==> (r == EXP_N <==> 0.0 == rel < width)
  {
    if rel < 0.0 then (if vertical then EXP_N - 1 else 0)
    else if rel >= width then (if vertical then 0 else EXP_N - 1)
    else (PosToCoordRange(vertical, width, rel); PosToCoord(vertical, width, rel))
  }

  /** A fraction f in [0, 1] splits a non-negative length w into f w and (1 - f) w. */
  lemma ScaleWithin(f: real, w: real)
    requires 0.0 <= f <= 1.0 && 0.0 <= w
    ensures 0.0 <= f * w
    ensures 0.0 <= (1.0 - f) * w
    ensures f * w + (1.0 - f) * w == w
  {
    if 0.0 < f && 0.0 < w {
      assert 0.0 < f * w;
    }
    assert f * w <= 1.0 * w;
    assert (1.0 - f) * w == w - f * w;
  }

  /** Multiplying by a positive factor preserves order. */
  lemma MulLe(a: real, b: real, k: real)
    requires a <= b && 0.0 < k
    ensures a * k <= b * k
  {
    assert b * k - a * k == (b - a) * k;
    if a < b {
      assert 0.0 < (b - a) * k;
    }
  }

  /** Multiplying by a positive factor preserves strict order. */
  lemma MulLt(a: real, b: real, k: real)
    requires a < b && 0.0 < k
    ensures a * k < b * k
  {
    assert b * k - a * k == (b - a) * k;
    assert 0.0 < (b - a) * k;
  }

  /** On [0, width) the horizontal coordinate lies in [0, EXP_N); the vertical one lies in
      [0, EXP_N] and reaches EXP_N exactly at position 0. */
  lemma PosToCoordRange(vertical: bool, width: real, x: real)
    requires 0.0 <= x < width
    ensures !vertical ==> 0 <= PosToCoord(vertical, width, x) < EXP_N
    ensures vertical ==> 0 <= PosToCoord(vertical, width, x) <= EXP_N
    ensures vertical ==> (PosToCoord(vertical, width, x) == EXP_N <==> x == 0.0)
  {
    var m := EXP_N as real;
    var f := x / width;
    DivideBoth(x, width, width);
    assert width / width == 1.0;
    ScaleWithin(f, m);
    MulLt(f, 1.0, m);
    assert (1.0 - f) * m == m - f * m;
    if x != 0.0 {
      MulLt(0.0, f, m);
    }
  }

  /** On a non-negative width, coordinates in [0, EXP_N] are drawn within [0, width]. */
  lemma CoordToPosRange(vertical: bool, width: real, c: int)
    requires 0 <= c <= EXP_N
    ensures 0.0 <= width ==> 0 <= CoordToPos(vertical, width, c) && CoordToPos(vertical, width, c) as real <= width
  {
    if 0.0 <= width {
      var f := (c as real) / (EXP_N as real);
      assert 0.0 <= f <= 1.0;
      ScaleWithin(f, width);
      assert CoordToPos(false, width, c) == (f * width).Floor;
      assert CoordToPos(true, width, c) == ((1.0 - f) * width).Floor;
    }
  }

  /** One more cell of width s ends s further on. */
  lemma AddOneTimes(t: real, s: real)
    ensures (t + 1.0) * s == t * s + s
  {
  }

  /** Scaling p = q s by a positive s keeps q's non-strict order to any bound b. */
  lemma ScaledLe(p: real, q: real, s: real, b: real)
    requires 0.0 < s && q * s == p
    ensures b <= q ==> b * s <= p
    ensures q <= b ==> p <= b * s
  {
    if b <= q { MulLe(b, q, s); }
    if q <= b { MulLe(q, b, s); }
  }

  /** Scaling p = q s by a positive s keeps q's strict order to any bound b. */
  lemma ScaledLt(p: real, q: real, s: real, b: real)
    requires 0.0 < s && q * s == p
    ensures b < q ==> b * s < p
    ensures q < b ==> p < b * s
  {
    if b < q { MulLt(b, q, s); }
    if q < b { MulLt(q, b, s); }
  }

  /** If p = q s for a cell width s > 0 and q lies in [t, t + 1), then p lies in [t s, t s + s). */
  lemma CellBelow(p: real, q: real, s: real, t: real)
    requires 0.0 < s && q * s == p && t <= q < t + 1.0
    ensures t * s <= p < t * s + s
  {
    ScaledLe(p, q, s, t);
    ScaledLt(p, q, s, t + 1.0);
    AddOneTimes(t, s);
  }

  /** If p = q s for a cell width s > 0 and q lies in (t, t + 1], then p lies in (t s, t s + s]. */
  lemma CellAbove(p: real, q: real, s: real, t: real)
    requires 0.0 < s && q * s == p && t < q <= t + 1.0
    ensures t * s < p <= t * s + s
  {
    ScaledLt(p, q, s, t);
    ScaledLe(p, q, s, t + 1.0);
    AddOneTimes(t, s);
  }

  /** Dividing by a positive width preserves order, and strict order. */
  lemma DivideBoth(a: real, b: real, w: real)
    requires 0.0 < w && a <= b
    ensures a / w <= b / w
    ensures a < b ==> a / w < b / w
  {
  }

  lemma MulDivCancel(a: real, w: real)
    requires w != 0.0
    ensures (a * w) / w == a
  {
  }

  lemma FloorMonotone(a: real, b: real)
    requires a <= b
    ensures a.Floor <= b.Floor
  {
  }

  /** The horizontal coordinate never decreases and the vertical one never increases as x grows. */
  lemma PosToCoordMonotone(width: real, x1: real, x2: real)
    requires 0.0 < width && x1 <= x2
    ensures PosToCoord(false, width, x1) <= PosToCoord(false, width, x2)
    ensures PosToCoord(true, width, x2) <= PosToCoord(true, width, x1)
  {
    var m := EXP_N as real;
    assert x1 / width <= x2 / width;
    assert (x1 / width) * m <= (x2 / width) * m;
    assert (1.0 - x2 / width) * m <= (1.0 - x1 / width) * m;
    FloorMonotone((x1 / width) * m, (x2 / width) * m);
    FloorMonotone((1.0 - x2 / width) * m, (1.0 - x1 / width) * m);
  }

  /** Mapping a coordinate to its position and back never overshoots: the horizontal
      round trip gives at most c and the vertical one at least c. */
  lemma RoundTripBounds(width: real, c: int)
    requires 0.0 < width
    ensures PosToCoord(false, width, CoordToPos(false, width, c) as real) <= c
    ensures PosToCoord(true, width, CoordToPos(true, width, c) as real) >= c
  {
    var m := EXP_N as real;
    var ph := CoordToPos(false, width, c) as real;
    assert ph <= ((c as real) / m) * width;
    assert (ph / width) * m <= c as real;
    var pv := CoordToPos(true, width, c) as real;
    assert pv <= (1.0 - (c as real) / m) * width;
    DivideBoth(pv, (1.0 - (c as real) / m) * width, width);
    MulDivCancel(1.0 - (c as real) / m, width);
    assert (1.0 - pv / width) * m >= c as real;
  }

  /** When width is a multiple of EXP_N the round trip is exact in both orientations. */
  lemma RoundTripExact(q: nat, c: int)
    requires 0 < q
    ensures PosToCoord(false, (q * EXP_N) as real, CoordToPos(false, (q * EXP_N) as real, c) as real) == c
    ensures PosToCoord(true, (q * EXP_N) as real, CoordToPos(true, (q * EXP_N) as real, c) as real) == c
  {
    var m := EXP_N as real;
    var width := (q * EXP_N) as real;
    assert width == (q as real) * m;
    ExactHorizontal(q, c, m, width);
    ExactVertical(q, c, m, width);
  }

  /** The horizontal half of RoundTripExact: c is drawn at c q, which maps back to c. */
  lemma ExactHorizontal(q: nat, c: int, m: real, width: real)
    requires 0 < q && m == EXP_N as real && width == (q as real) * m
    ensures PosToCoord(false, width, CoordToPos(false, width, c) as real) == c
  {
    var x, qr := c as real, q as real;
    Rescale(x, qr, m);
    IntMulCast(c, q);
    var y := (c * q) as real;
    assert y == x * qr;
    assert (x / m) * width == y;
    assert CoordToPos(false, width, c) == c * q;
    assert (y / width) * m == x;
  }

  /** The vertical half of RoundTripExact: c is drawn at (EXP_N - c) q, which maps back to c. */
  lemma ExactVertical(q: nat, c: int, m: real, width: real)
    requires 0 < q && m == EXP_N as real && width == (q as real) * m
    ensures PosToCoord(true, width, CoordToPos(true, width, c) as real) == c
  {
    var x, qr := c as real, q as real;
    Rescale(x, qr, m);
    IntMulCast(EXP_N - c, q);
    var y := ((EXP_N - c) * q) as real;
    assert y == (m - x) * qr;
    assert (1.0 - x / m) * width == y;
    assert CoordToPos(true, width, c) == (EXP_N - c) * q;
    assert (1.0 - y / width) * m == x;
  }

  /** Converting a product of integers to real multiplies the converted factors. */
  lemma IntMulCast(a: int, b: int)
    ensures (a * b) as real == (a as real) * (b as real)
  {
  }

  /** The scalings behind RoundTripExact, on a width q m that is a whole multiple of m. */
  lemma Rescale(x: real, q: real, m: real)
    requires 0.0 < q && 0.0 < m
    ensures (x / m) * (q * m) == x * q
    ensures ((x * q) / (q * m)) * m == x
    ensures (1.0 - x / m) * (q * m) == (m - x) * q
    ensures (1.0 - ((m - x) * q) / (q * m)) * m == x
  {
  }

  /** With the width the program uses (700, not a multiple of 256) the round trip is not
      exact: coordinate 1 is drawn at position 2, which maps back to coordinate 0. */
  lemma RoundTripInexactAt700()
    ensures CoordToPos(false, 700.0, 1) == 2
    ensures PosToCoord(false, 700.0, 2.0) == 0
  {
    assert EXP_N == 256;
  }

  /** Rescaling identities between a width w and its cell width w / m. */
  lemma CellScale(a: real, w: real, m: real)
    requires w != 0.0 && m != 0.0
    ensures (a / w) * m == a / (w / m)
    ensures (a / m) * w == a * (w / m)
    ensures (a / (w / m)) * (w / m) == a
    ensures (w / m) * m == w
  {
  }

  /** The arithmetic of PositionRoundTripHorizontal: if c is the cell (p / width) m falls in,
      cell c starts at (c / m) width, at most p and less than one cell width below it. */
  lemma CellStartBelow(width: real, m: real, p: real, c: real)
    requires 0.0 < width && 0.0 < m
    requires c <= (p / width) * m < c + 1.0
    ensures (c / m) * width <= p < (c / m) * width + width / m
  {
    var s := width / m;
    var r := p / s;
    CellScale(p, width, m);
    CellBelow(p, r, s, c);
    CellScale(c, width, m);
  }

  /** The arithmetic of PositionRoundTripVertical: if c is the cell 1 - (p / width) m falls in,
      (1 - c / m) width lies above p by at most one cell width. */
  lemma CellEndAbove(width: real, m: real, p: real, c: real)
    requires 0.0 < width && 0.0 < m
    requires c <= (1.0 - p / width) * m < c + 1.0
    ensures p <= (1.0 - c / m) * width < p + width / m
  {
    var s := width / m;
    var r := p / s;
    CellScale(p, width, m);
    assert (1.0 - p / width) * m == m - (p / width) * m;
    var t := m - c - 1.0;
    CellAbove(p, r, s, t);
    CellScale(c, width, m);
    assert (1.0 - c / m) * width == width - c * s;
    assert t * s + s == m * s - c * s;
  }

  /** On a horizontal axis, a position p in [0, width) is drawn back at p or to its left, by
      less than one cell (width / EXP_N) plus one unit of flooring. */
  lemma PositionRoundTripHorizontal(width: real, p: real)
    requires 0.0 < width && 0.0 <= p < width
    ensures var q := CoordToPos(false, width, PosToCoord(false, width, p)) as real;
      q <= p < q + width / (EXP_N as real) + 1.0
  {
    var m := EXP_N as real;
    var c := PosToCoord(false, width, p);
    CellStartBelow(width, m, p, c as real);
    assert CoordToPos(false, width, c) == (((c as real) / m) * width).Floor;
  }

  /** On a vertical axis, a position p in [0, width) is drawn back less than one unit of
      flooring below p, or above p by at most one cell (width / EXP_N). */
  lemma PositionRoundTripVertical(width: real, p: real)
    requires 0.0 < width && 0.0 <= p < width
    ensures var q := CoordToPos(true, width, PosToCoord(true, width, p)) as real;
      p - 1.0 < q <= p + width / (EXP_N as real)
  {
    var m := EXP_N as real;
    var c := PosToCoord(true, width, p);
    CellEndAbove(width, m, p, c as real);
    assert CoordToPos(true, width, c) == ((1.0 - (c as real) / m) * width).Floor;
  }

  /** The digit character of a bit. */
  function DigitChar(b: nat): char
  {
    if b == 0 then '0' else '1'
  }

  /** The first k entries of `coord_to_text`: "d, " for bits N-1 down to N-k of c. */
  function Cells(c: nat, k: nat): (t: string)
    requires k <= N
    ensures |t| == 3 * k
  {
    if k == 0 then "" else Cells(c, k - 1) + [DigitChar(Bit(c, N - k)), ',', ' ']
  }

  /** `coord_to_text`: "(", then each of the N bits of c from bit N-1 down to bit 0
      followed by ", ", then "...)". */
  function BitText(c: nat): (t: string)
    ensures |t| == 3 * N + 5
    ensures t[0] == '(' && t[3 * N + 1..] == "...)"
  {
    "(" + Cells(c, N) + "...)"
  }

  lemma {:induction false} CellsAt(c: nat, k: nat, p: nat)
    requires p < k <= N
    ensures Cells(c, k)[3 * p] == DigitChar(Bit(c, N - 1 - p))
    ensures Cells(c, k)[3 * p + 1] == ',' && Cells(c, k)[3 * p + 2] == ' '
  {
    if p < k - 1 {
      CellsAt(c, k - 1, p);
    }
  }

  /** The text is 3N + 5 characters long; digit p (counting from the left) is bit N-1-p of c. */
  lemma BitTextAt(c: nat, p: nat)
    requires p < N
    ensures |BitText(c)| == 3 * N + 5
    ensures BitText(c)[0] == '(' && BitText(c)[3 * N + 1..] == "...)"
    ensures BitText(c)[1 + 3 * p] == DigitChar(Bit(c, N - 1 - p))
    ensures BitText(c)[2 + 3 * p] == ',' && BitText(c)[3 + 3 * p] == ' '
  {
    CellsAt(c, N, p);
  }

  /** Two coordinates in range with the same text are equal. */
  lemma BitTextDeterminesCoord(c1: nat, c2: nat)
    requires c1 < EXP_N && c2 < EXP_N && BitText(c1) == BitText(c2)
    ensures c1 == c2
  {
    forall i | 0 <= i < N
      ensures Bit(c1, i) == Bit(c2, i)
    {
      BitTextAt(c1, N - 1 - i);
      BitTextAt(c2, N - 1 - i);
    }
    BitsDetermineValue(c1, c2, N);
  }

  /** JavaScript's `c.toString(2)`: the binary digits of c without leading zeros. */
  function ToBinary(c: nat): (s: string)
    ensures |s| >= 1
  {
    if c < 2 then [DigitChar(c)] else ToBinary(c / 2) + [DigitChar(c % 2)]
  }

  /** `selected_bin`: the binary digits of c, left-padded with zeros by
      `"0000000000".substr(|s| + (10 - N))`, which is empty once |s| + 10 - N >= 10. */
  function PaddedBinary(c: nat): (r: string)
    ensures |r| == if |ToBinary(c)| < N then N else |ToBinary(c)|
    ensures r[|r| - |ToBinary(c)|..] == ToBinary(c)
    ensures forall i :: 0 <= i < |r| - |ToBinary(c)| ==> r[i] == '0'
  {
    var s := ToBinary(c);
    var pad := "0000000000";
    var start := |s| + (10 - N);
    (if start < |pad| then pad[start..] else "") + s
  }

  /** The digits of ToBinary(c), read from the right, are the bits of c, and there are no more of them than needed. */
  lemma {:induction false} ToBinaryBits(c: nat)
    ensures c < Pow2(|ToBinary(c)|)
    ensures forall i :: 0 <= i < |ToBinary(c)| ==> ToBinary(c)[|ToBinary(c)| - 1 - i] == DigitChar(Bit(c, i))
    ensures forall n: nat :: 1 <= n && c < Pow2(n) ==> |ToBinary(c)| <= n
  {
    var s := ToBinary(c);
    if c >= 2 {
      ToBinaryBits(c / 2);
      var t := ToBinary(c / 2);
      forall i | 0 <= i < |s|
        ensures s[|s| - 1 - i] == DigitChar(Bit(c, i))
      {
        if i > 0 {
          assert s[|s| - 1 - i] == t[|t| - 1 - (i - 1)];
        }
      }
      forall n: nat | 1 <= n && c < Pow2(n)
        ensures |s| <= n
      {
        assert c / 2 < Pow2(n - 1);
      }
    }
  }

  /** Digit p of the padded text of c < EXP_N is bit N-1-p of c. */
  lemma PaddedBinaryDigit(c: nat, p: nat)
    requires c < EXP_N && p < N
    ensures |PaddedBinary(c)| == N
    ensures PaddedBinary(c)[p] == DigitChar(Bit(c, N - 1 - p))
  {
    ToBinaryBits(c);
    var s := ToBinary(c);
    var r := PaddedBinary(c);
    var z := N - |s|;
    assert r == "0000000000"[|s| + 10 - N..] + s;
    if p < z {
      BitAboveBound(c, |s|, N - 1 - p);
    } else {
      assert r[p] == s[p - z];
      assert s[p - z] == s[|s| - 1 - (N - 1 - p)];
    }
  }

  /** For a coordinate in range, `selected_bin` has exactly N digits and digit p is bit N-1-p of c. */
  lemma PaddedBinaryDigits(c: nat)
    requires c < EXP_N
    ensures |PaddedBinary(c)| == N
    ensures forall p :: 0 <= p < N ==> PaddedBinary(c)[p] == DigitChar(Bit(c, N - 1 - p))
  {
    PaddedBinaryDigit(c, 0);
    forall p | 0 <= p < N
      ensures PaddedBinary(c)[p] == DigitChar(Bit(c, N - 1 - p))
    {
      PaddedBinaryDigit(c, p);
    }
  }
}
