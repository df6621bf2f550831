// The Cantor-style subdivision of an axis of length `width`.
//
// Level 0 is the whole axis [0, width]. Level k+1 replaces every segment of
// level k by its two halves, which keep the outer endpoints and are separated
// by a gap of `mid`. The endpoints are dyadic rationals, so `real` is exact.
// The segments do not cover the axis: every level leaves mid-sized gaps.

module Subdivision {
  import opened Bits

  /** A closed interval [lo, hi] measured from the axis origin. */
  datatype Segment = Segment(lo: real, hi: real)

  /** The two children that replace seg at the next level: they keep seg's outer endpoints,
      are separated by a gap of mid and have equal widths. */
  function Children(seg: Segment, mid: real): (r: seq<Segment>)
    ensures |r| == 2
    ensures r[0].lo == seg.lo && r[1].hi == seg.hi
    ensures r[1].lo - r[0].hi == mid
    ensures r[0].hi - r[0].lo == r[1].hi - r[1].lo == (seg.hi - seg.lo - mid) / 2.0
  {
    var w := seg.hi - seg.lo;
    [Segment(seg.lo, seg.lo + (w - mid) / 2.0), Segment(seg.lo + (w + mid) / 2.0, seg.hi)]
  }

  /** One pass of the subdivision loop: each segment of level, in order, replaced by its two children. */
  function Split(level: seq<Segment>, mid: real): (r: seq<Segment>)
    ensures |r| == 2 * |level|
  {
    if |level| == 0 then []
    else Split(level[..|level| - 1], mid) + Children(level[|level| - 1], mid)
  }

  /** Level k of the subdivision of [0, width]. */
  function Level(width: real, mid: real, k: nat): (r: seq<Segment>)
    ensures |r| == Pow2(k)
  {
    if k == 0 then [Segment(0.0, width)] else Split(Level(width, mid, k - 1), mid)
  }

  /** The table of levels 0..n, the `bases` the constructor builds. */
  function Levels(width: real, mid: real, n: nat): (r: seq<seq<Segment>>)
    ensures |r| == n + 1
    ensures forall k :: 0 <= k <= n ==> r[k] == Level(width, mid, k)
  {
    if n == 0 then [Level(width, mid, 0)] else Levels(width, mid, n - 1) + [Level(width, mid, n)]
  }

  /** The width shared by every segment of level k. */
  function SegWidth(width: real, mid: real, k: nat): real
  {
    if k == 0 then width else (SegWidth(width, mid, k - 1) - mid) / 2.0
  }

  /** Segment a lies within segment b. */
  predicate Inside(a: Segment, b: Segment)
  {
    b.lo <= a.lo && a.hi <= b.hi
  }

  /** Every segment is non-degenerate and the segments run strictly left to right without touching. */
  predicate Ordered(level: seq<Segment>)
  {
    && (forall i :: 0 <= i < |level| ==> level[i].lo < level[i].hi)
    && (forall i, j :: 0 <= i < j < |level| ==> level[i].hi < level[j].lo)
  }

  /** The segment at index j of the next level is child j % 2 of segment j / 2. */
  lemma {:induction false} SplitAt(level: seq<Segment>, mid: real, j: nat)
    requires j < 2 * |level|
    ensures Split(level, mid)[j] == Children(level[j / 2], mid)[j % 2]
  {
    var last := |level| - 1;
    if j < 2 * last {
      SplitAt(level[..last], mid, j);
    }
  }

  /** Children 2i and 2i+1 of level k+1 keep the outer endpoints of segment i of level k,
      are separated by a gap of exactly mid, and have equal widths (w - mid) / 2. */
  lemma ChildrenOfSegment(width: real, mid: real, k: nat, i: nat)
    requires i < Pow2(k)
    ensures var p, l, r := Level(width, mid, k)[i], Level(width, mid, k + 1)[2 * i], Level(width, mid, k + 1)[2 * i + 1];
      && l.lo == p.lo && r.hi == p.hi
      && r.lo - l.hi == mid
      && l.hi - l.lo == (p.hi - p.lo - mid) / 2.0
      && r.hi - r.lo == (p.hi - p.lo - mid) / 2.0
  {
    SplitAt(Level(width, mid, k), mid, 2 * i);
    SplitAt(Level(width, mid, k), mid, 2 * i + 1);
  }

  /** All segments of level k have width SegWidth(width, mid, k). */
  lemma {:induction false} LevelWidth(width: real, mid: real, k: nat, i: nat)
    requires i < Pow2(k)
    ensures Level(width, mid, k)[i].hi - Level(width, mid, k)[i].lo == SegWidth(width, mid, k)
  {
    if k > 0 {
      SplitAt(Level(width, mid, k - 1), mid, i);
      LevelWidth(width, mid, k - 1, i / 2);
    }
  }

  /** 2^k (w_k + mid) = width + mid: each level halves the width plus one gap. */
  lemma {:induction false} SegWidthClosedForm(width: real, mid: real, k: nat)
    ensures (Pow2(k) as real) * (SegWidth(width, mid, k) + mid) == width + mid
  {
    if k > 0 {
      SegWidthClosedForm(width, mid, k - 1);
      var p, a := Pow2(k - 1) as real, SegWidth(width, mid, k - 1) + mid;
      assert SegWidth(width, mid, k) + mid == a / 2.0;
      assert Pow2(k) as real == 2.0 * p;
      assert (Pow2(k) as real) * (SegWidth(width, mid, k) + mid) == (2.0 * p) * (a / 2.0);
      assert (2.0 * p) * (a / 2.0) == p * a;
    }
  }

  /** Below level n, each segment is wider than the 2^(n-k) - 1 gaps its descendants at level n leave. */
  lemma {:induction false} SegWidthBound(width: real, mid: real, n: nat, k: nat)
    requires 0.0 < mid && (Pow2(n) as real - 1.0) * mid < width && k <= n
    ensures (Pow2(n - k) as real - 1.0) * mid < SegWidth(width, mid, k)
  {
    if k > 0 {
      SegWidthBound(width, mid, n, k - 1);
      var q := Pow2(n - k) as real;
      assert Pow2(n - (k - 1)) as real == 2.0 * q;
      assert (2.0 * q - 1.0) * mid == 2.0 * (q * mid) - mid;
      assert (q - 1.0) * mid == q * mid - mid;
    }
  }

  /** When width > (2^n - 1) mid, every level up to n has segments of positive width. */
  lemma SegWidthPositive(width: real, mid: real, n: nat, k: nat)
    requires 0.0 < mid && (Pow2(n) as real - 1.0) * mid < width && k <= n
    ensures 0.0 < SegWidth(width, mid, k)
  {
    SegWidthBound(width, mid, n, k);
    var q := Pow2(n - k) as real;
    assert 0.0 <= (q - 1.0) * mid;
  }

  /** A child lies inside its parent whenever the parent's width is at least -mid. */
  lemma ChildInside(width: real, mid: real, k: nat, j: nat)
    requires j < Pow2(k + 1)
    requires 0.0 <= SegWidth(width, mid, k) + mid
    ensures Inside(Level(width, mid, k + 1)[j], Level(width, mid, k)[j / 2])
  {
    SplitAt(Level(width, mid, k), mid, j);
    LevelWidth(width, mid, k, j / 2);
  }

  /** When width > (2^n - 1) mid, every segment of a level up to n has lo < hi. */
  lemma LevelNonDegenerate(width: real, mid: real, n: nat, k: nat, i: nat)
    requires 0.0 < mid && (Pow2(n) as real - 1.0) * mid < width && k <= n && i < Pow2(k)
    ensures Level(width, mid, k)[i].lo < Level(width, mid, k)[i].hi
  {
    LevelWidth(width, mid, k, i);
    SegWidthPositive(width, mid, n, k);
  }

  /** When width > (2^n - 1) mid, segment i of a level up to n ends before segment j > i starts. */
  lemma {:induction false} LevelSeparated(width: real, mid: real, n: nat, k: nat, i: nat, j: nat)
    requires 0.0 < mid && (Pow2(n) as real - 1.0) * mid < width && k <= n && i < j < Pow2(k)
    ensures Level(width, mid, k)[i].hi < Level(width, mid, k)[j].lo
  {
    if k > 0 {
      var a, b := Level(width, mid, k)[i], Level(width, mid, k)[j];
      if i / 2 == j / 2 {
        var p := i / 2;
        assert i == 2 * p && j == 2 * p + 1;
        ChildrenOfSegment(width, mid, k - 1, p);
        assert b.lo - a.hi == mid;
      } else {
        var pa, pb := Level(width, mid, k - 1)[i / 2], Level(width, mid, k - 1)[j / 2];
        SegWidthPositive(width, mid, n, k - 1);
        ChildInside(width, mid, k - 1, i);
        assert a.hi <= pa.hi;
        ChildInside(width, mid, k - 1, j);
        assert pb.lo <= b.lo;
        LevelSeparated(width, mid, n, k - 1, i / 2, j / 2);
      }
    }
  }

  /** When width > (2^n - 1) mid, each level up to n is strictly ordered left to right. */
  lemma LevelOrdered(width: real, mid: real, n: nat, k: nat)
    requires 0.0 < mid && (Pow2(n) as real - 1.0) * mid < width && k <= n
    ensures Ordered(Level(width, mid, k))
  {
    var cur := Level(width, mid, k);
    forall i | 0 <= i < |cur|
      ensures cur[i].lo < cur[i].hi
    {
      LevelNonDegenerate(width, mid, n, k, i);
    }
    forall i, j | 0 <= i < j < |cur|
      ensures cur[i].hi < cur[j].lo
    {
      LevelSeparated(width, mid, n, k, i, j);
    }
  }

  /** Segment c of level k lies inside segment c >> j of level k - j. */
  lemma {:induction false} AncestorInside(width: real, mid: real, n: nat, k: nat, j: nat, c: nat)
    requires 0.0 < mid && (Pow2(n) as real - 1.0) * mid < width && k <= n
    requires j <= k && c < Pow2(k)
    ensures Shr(c, j) < Pow2(k - j)
    ensures Inside(Level(width, mid, k)[c], Level(width, mid, k - j)[Shr(c, j)])
  {
    if j > 0 {
      SegWidthPositive(width, mid, n, k - 1);
      ChildInside(width, mid, k - 1, c);
      AncestorInside(width, mid, n, k - 1, j - 1, c / 2);
    }
  }

  /** Among the segments of level k - j, exactly segment c >> j contains segment c of level k. */
  lemma AncestorUnique(width: real, mid: real, n: nat, k: nat, j: nat, c: nat, i: nat)
    requires 0.0 < mid && (Pow2(n) as real - 1.0) * mid < width && k <= n
    requires j <= k && c < Pow2(k) && i < Pow2(k - j)
    ensures Inside(Level(width, mid, k)[c], Level(width, mid, k - j)[i]) <==> i == Shr(c, j)
  {
    AncestorInside(width, mid, n, k, j, c);
    LevelOrdered(width, mid, n, k);
    LevelOrdered(width, mid, n, k - j);
  }
}
