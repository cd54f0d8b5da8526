/**
 * What the raster operations of pixelbuffer/pixelbuffer.h do to the pixel
 * list, stated as functions of the pixels and the header's width and height:
 * the bounds test of `getPixel`/`setPixel`, the blend `setPixel` applies,
 * and the sequence of points that `drawLine`, `drawSquare` and `drawCircle`
 * hand to `setPixel`. The class `PixelBuffers.PixelBuffer` is proved
 * against these functions.
 */
module Raster {
  import opened Util
  import opened Vector2
  import opened Color

  /**
   * The test `getPixel` and `setPixel` share: the position must pass the
   * sanity check, which lets x == w and y == h through, and its row-major
   * index must be below the number of pixels.
   */
  predicate Accepts(w: nat, h: nat, count: nat, x: int, y: int)
    ensures Accepts(w, h, count, x, y) ==> 0 <= IdFromPos(x, y, w) < count
  {
    !(x < 0 || x > w || y < 0 || y > h) && (MulMonotone(w, 0, y); IdFromPos(x, y, w) < count)
  }

  /** `getPixel`: the pixel at y*w + x, or (0, 0, 0, 0) when the test fails. */
  function PixelAt(p: seq<RGBAColor>, w: nat, h: nat, x: int, y: int): RGBAColor {
    if Accepts(w, h, |p|, x, y) then p[IdFromPos(x, y, w)] else TRANSPARENT
  }

  /** What `setPixel` stores over `below`: opaque colours as they are, others blended. */
  function Over(c: RGBAColor, below: RGBAColor): (s: RGBAColor)
    ensures c.a == 255 ==> s == c
    ensures c.a == 0 && below.a > 0 ==> s == below
    ensures below == TRANSPARENT ==> s == (if c.a == 0 then TRANSPARENT else c)
  {
    if c.a < 255 then AlphaBlend(c, below) else c
  }

  /** The pixel list after `setPixel(x, y, c)`. */
  function Put(p: seq<RGBAColor>, w: nat, h: nat, x: int, y: int, c: RGBAColor): (q: seq<RGBAColor>)
    ensures |q| == |p|
  {
    if Accepts(w, h, |p|, x, y) then p[IdFromPos(x, y, w) := Over(c, p[IdFromPos(x, y, w)])] else p
  }

  /**
   * On a consistent buffer (w*h pixels) the positions the test lets through
   * are exactly the cells of the grid, plus x == w on every row but the
   * last, which reaches the first cell of the next row.
   */
  lemma {:induction false} AcceptsExactly(w: nat, h: nat, x: int, y: int)
    ensures Accepts(w, h, w * h, x, y) <==>
      w > 0 && ((0 <= x < w && 0 <= y < h) || (x == w && 0 <= y < h - 1))
  {
    if 0 <= x <= w && 0 <= y <= h && w > 0 {
      if y < h - 1 {
        MulMonotone(w, y + 2, h);
        assert IdFromPos(x, y, w) <= (y + 1) * w < (y + 2) * w;
      } else if y == h - 1 {
        assert IdFromPos(x, y, w) == w * h - w + x;
      } else {
        assert IdFromPos(x, y, w) == w * h + x;
      }
    }
  }

  /** Reading (w, y) reads the first pixel of the next row. */
  lemma {:induction false} ReadAliasesNextRow(p: seq<RGBAColor>, w: nat, h: nat, y: int)
    requires |p| == w * h && 0 <= y < h - 1
    ensures PixelAt(p, w, h, w, y) == PixelAt(p, w, h, 0, y + 1)
  {
    AcceptsExactly(w, h, w, y);
    AcceptsExactly(w, h, 0, y + 1);
  }

  /** Inside the grid `getPixel` is the row-major element. */
  lemma {:induction false} ReadInside(p: seq<RGBAColor>, w: nat, h: nat, x: int, y: int)
    requires |p| == w * h && 0 <= x < w && 0 <= y < h
    ensures 0 <= IdFromPos(x, y, w) < |p| && PixelAt(p, w, h, x, y) == p[IdFromPos(x, y, w)]
  {
    AcceptsExactly(w, h, x, y);
  }

  /**
   * Reading back after `setPixel`: the written position holds the stored
   * colour, every position with another index reads as before, and a
   * rejected write changes nothing.
   */
  lemma {:induction false} ReadAfterPut(p: seq<RGBAColor>, w: nat, h: nat, x: int, y: int, c: RGBAColor, x': int, y': int)
    ensures PixelAt(Put(p, w, h, x, y, c), w, h, x', y') ==
      if Accepts(w, h, |p|, x, y) && Accepts(w, h, |p|, x', y') && IdFromPos(x, y, w) == IdFromPos(x', y', w)
      then Over(c, PixelAt(p, w, h, x, y))
      else PixelAt(p, w, h, x', y')
  {
    var q := Put(p, w, h, x, y, c);
    if Accepts(w, h, |p|, x, y) {
      var i := IdFromPos(x, y, w);
      assert q == p[i := Over(c, p[i])];
      if Accepts(w, h, |p|, x', y') {
        var j := IdFromPos(x', y', w);
        assert PixelAt(q, w, h, x', y') == q[j];
        assert PixelAt(p, w, h, x', y') == p[j];
      }
    }
  }

  /** `setPixel` changes at most the one element at y*w + x. */
  lemma {:induction false} PutFrame(p: seq<RGBAColor>, w: nat, h: nat, x: int, y: int, c: RGBAColor, i: int)
    requires 0 <= i < |p| && (!Accepts(w, h, |p|, x, y) || i != IdFromPos(x, y, w))
    ensures Put(p, w, h, x, y, c)[i] == p[i]
  {
  }

  /** The pixel list after `setPixel` has been called on every point of `pts`, in order. */
  function PlotAll(p: seq<RGBAColor>, w: nat, h: nat, pts: seq<Vec2>, c: RGBAColor): (q: seq<RGBAColor>)
    ensures |q| == |p|
    decreases |pts|
  {
    if |pts| == 0 then p
    else
      var last := pts[|pts| - 1];
      Put(PlotAll(p, w, h, pts[..|pts| - 1], c), w, h, last.x, last.y, c)
  }

  /** Plotting one list after another is plotting their concatenation. */
  lemma {:induction false} PlotAllConcat(p: seq<RGBAColor>, w: nat, h: nat, a: seq<Vec2>, b: seq<Vec2>, c: RGBAColor)
    ensures PlotAll(p, w, h, a + b, c) == PlotAll(PlotAll(p, w, h, a, c), w, h, b, c)
    decreases |b|
  {
    if |b| == 0 {
      assert a + b == a;
    } else {
      assert (a + b)[..|a + b| - 1] == a + b[..|b| - 1];
      PlotAllConcat(p, w, h, a, b[..|b| - 1], c);
    }
  }

  /** Whether some point of `pts` passes the test and lands on index i. */
  predicate Hits(w: nat, h: nat, count: nat, pts: seq<Vec2>, i: int) {
    exists k :: 0 <= k < |pts| && Accepts(w, h, count, pts[k].x, pts[k].y) && IdFromPos(pts[k].x, pts[k].y, w) == i
  }

  /**
   * With an opaque colour, plotting a list of points paints exactly the
   * elements some point lands on and leaves every other element as it was.
   */
  lemma {:induction false} PlotAllOpaque(p: seq<RGBAColor>, w: nat, h: nat, pts: seq<Vec2>, c: RGBAColor, i: int)
    requires c.a == 255 && 0 <= i < |p|
    ensures PlotAll(p, w, h, pts, c)[i] == if Hits(w, h, |p|, pts, i) then c else p[i]
    decreases |pts|
  {
    if |pts| > 0 {
      var init := pts[..|pts| - 1];
      PlotAllOpaque(p, w, h, init, c, i);
      var last := pts[|pts| - 1];
      if Hits(w, h, |p|, init, i) {
        var k :| 0 <= k < |init| && Accepts(w, h, |p|, init[k].x, init[k].y) && IdFromPos(init[k].x, init[k].y, w) == i;
        assert pts[k] == init[k];
      }
      if Accepts(w, h, |p|, last.x, last.y) && IdFromPos(last.x, last.y, w) == i {
        assert Hits(w, h, |p|, pts, i);
      }
    }
  }

  /**
   * `drawLine` after its two swaps: the roles of x and y are exchanged when
   * the line is steep, and the endpoints are ordered so that x0 <= x1.
   */
  datatype LinePlan = LinePlan(steep: bool, x0: int, y0: int, x1: int, y1: int)

  function Normalize(x0: int, y0: int, x1: int, y1: int): (n: LinePlan)
    ensures n.x0 <= n.x1 && Abs(n.y1 - n.y0) <= n.x1 - n.x0
    ensures n.steep <==> Abs(x0 - x1) < Abs(y0 - y1)
  {
    var steep := Abs(x0 - x1) < Abs(y0 - y1);
    var (a0, b0, a1, b1) := if steep then (y0, x0, y1, x1) else (x0, y0, x1, y1);
    if a0 > a1 then LinePlan(steep, a1, b1, a0, b0) else LinePlan(steep, a0, b0, a1, b1)
  }

  /** The position `setPixel` receives for (x, y) of the normalised line. */
  function Unswap(steep: bool, x: int, y: int): Vec2 {
    if steep then Vec2(y, x) else Vec2(x, y)
  }

  /**
   * The iterations of the `drawLine` loop from column x on: one point per
   * column up to xEnd, the error term stepping by derr and y moving one
   * row toward the end point each time the error exceeds dx.
   */
  function LineSteps(x: int, xEnd: int, y: int, err: int, dx: int, derr: int, ystep: int, steep: bool): (pts: seq<Vec2>)
    ensures |pts| == if x <= xEnd then xEnd - x + 1 else 0
    decreases xEnd - x + 1
  {
    if x > xEnd then []
    else
      var e := err + derr;
      var (y', e') := if e > dx then (y + ystep, e - dx * 2) else (y, e);
      [Unswap(steep, x, y)] + LineSteps(x + 1, xEnd, y', e', dx, derr, ystep, steep)
  }

  /** The direction `drawLine` moves y in. */
  function YStep(n: LinePlan): int {
    if n.y1 > n.y0 then 1 else -1
  }

  /** The points `drawLine(x0, y0, x1, y1)` plots, in order. */
  function LinePoints(x0: int, y0: int, x1: int, y1: int): seq<Vec2> {
    var n := Normalize(x0, y0, x1, y1);
    LineSteps(n.x0, n.x1, n.y0, 0, n.x1 - n.x0, Abs(n.y1 - n.y0) * 2, YStep(n), n.steep)
  }

  /** The line has one point per step along its major axis: max(|dx|, |dy|) + 1. */
  lemma {:induction false} LineLength(x0: int, y0: int, x1: int, y1: int)
    ensures |LinePoints(x0, y0, x1, y1)| == (if Abs(x1 - x0) < Abs(y1 - y0) then Abs(y1 - y0) else Abs(x1 - x0)) + 1
  {
  }

  /** Point k of a run of steps sits in column x + k of the normalised line. */
  lemma {:induction false} LineStepsMajor(x: int, xEnd: int, y: int, err: int, dx: int, derr: int, ystep: int, steep: bool, k: int)
    requires 0 <= k < |LineSteps(x, xEnd, y, err, dx, derr, ystep, steep)|
    ensures var q := LineSteps(x, xEnd, y, err, dx, derr, ystep, steep)[k];
      (if steep then q.y else q.x) == x + k
    decreases xEnd - x + 1
  {
    if k > 0 {
      var e := err + derr;
      var (y', e') := if e > dx then (y + ystep, e - dx * 2) else (y, e);
      LineStepsMajor(x + 1, xEnd, y', e', dx, derr, ystep, steep, k - 1);
    }
  }

  /**
   * Along the major axis the line advances by exactly one per point: point k
   * has major coordinate min(x0, x1) + k (or the y equivalent when steep).
   */
  lemma {:induction false} LineOnePerStep(x0: int, y0: int, x1: int, y1: int, k: int)
    requires 0 <= k < |LinePoints(x0, y0, x1, y1)|
    ensures var q := LinePoints(x0, y0, x1, y1)[k];
      if Abs(x0 - x1) < Abs(y0 - y1) then q.y == (if y0 <= y1 then y0 else y1) + k
      else q.x == (if x0 <= x1 then x0 else x1) + k
  {
    var n := Normalize(x0, y0, x1, y1);
    LineStepsMajor(n.x0, n.x1, n.y0, 0, n.x1 - n.x0, Abs(n.y1 - n.y0) * 2, YStep(n), n.steep, k);
  }

  /** If 2*dx*t lies within [-dx, dx] for a positive dx, then t is 0. */
  lemma {:induction false} Squeeze(dx: int, t: int)
    requires dx > 0 && -dx <= 2 * dx * t <= dx
    ensures t == 0
  {
    if t >= 1 {
      MulMonotone(dx, 1, t);
    } else if t <= -1 {
      MulMonotone(dx, t, -1);
    }
  }

  /**
   * One iteration keeps the Bresenham invariant: with k columns done and m
   * moves of y, the error is 2*d*k - 2*dx*m and lies in [-dx, dx].
   */
  lemma {:induction false} BresenhamStep(err: int, dx: int, d: int, k: int, m: int)
    requires 0 <= d <= dx && err == 2 * d * k - 2 * dx * m && -dx <= err <= dx
    ensures var e := err + 2 * d;
      var (m', e') := if e > dx then (m + 1, e - dx * 2) else (m, e);
      e' == 2 * d * (k + 1) - 2 * dx * m' && -dx <= e' <= dx
  {
    assert 2 * d * (k + 1) == 2 * d * k + 2 * d;
    assert 2 * dx * (m + 1) == 2 * dx * m + 2 * dx;
  }

  /** At the last column (k == dx) the invariant leaves only m == d. */
  lemma {:induction false} BresenhamLastColumn(err: int, dx: int, d: int, m: int)
    requires 0 <= d <= dx && 0 <= m <= dx && err == 2 * d * dx - 2 * dx * m && -dx <= err <= dx
    ensures m == d
  {
    assert err == 2 * dx * (d - m);
    if dx > 0 {
      Squeeze(dx, d - m);
    }
  }

  /**
   * The Bresenham invariant at the last column pins the number of moves of
   * y to d, so the last point is the end point (xEnd, y0 + ystep*d).
   */
  lemma {:induction false} LineStepsReachEnd(x: int, xEnd: int, y: int, err: int, dx: int, d: int, ystep: int, steep: bool,
                                             x0: int, y0: int, m: int)
    requires 0 <= d <= dx && xEnd == x0 + dx && x0 <= x <= xEnd
    requires ystep == 1 || ystep == -1
    requires 0 <= m <= x - x0 && y == (if ystep == 1 then y0 + m else y0 - m)
    requires err == 2 * d * (x - x0) - 2 * dx * m && -dx <= err <= dx
    ensures var pts := LineSteps(x, xEnd, y, err, dx, 2 * d, ystep, steep);
      pts[|pts| - 1] == Unswap(steep, xEnd, if ystep == 1 then y0 + d else y0 - d)
    decreases xEnd - x
  {
    var pts := LineSteps(x, xEnd, y, err, dx, 2 * d, ystep, steep);
    if x == xEnd {
      BresenhamLastColumn(err, dx, d, m);
      assert pts == [Unswap(steep, x, y)];
    } else {
      var e := err + 2 * d;
      var (y', e') := if e > dx then (y + ystep, e - dx * 2) else (y, e);
      var m' := if e > dx then m + 1 else m;
      BresenhamStep(err, dx, d, x - x0, m);
      assert x - x0 + 1 == x + 1 - x0;
      LineStepsReachEnd(x + 1, xEnd, y', e', dx, d, ystep, steep, x0, y0, m');
      var rest := LineSteps(x + 1, xEnd, y', e', dx, 2 * d, ystep, steep);
      assert pts == [Unswap(steep, x, y)] + rest;
    }
  }

  /** Both end points of the segment are among the plotted points. */
  lemma {:induction false} LineEndpoints(x0: int, y0: int, x1: int, y1: int)
    ensures Vec2(x0, y0) in LinePoints(x0, y0, x1, y1)
    ensures Vec2(x1, y1) in LinePoints(x0, y0, x1, y1)
  {
    var n := Normalize(x0, y0, x1, y1);
    var d := Abs(n.y1 - n.y0);
    var pts := LinePoints(x0, y0, x1, y1);
    LineStepsReachEnd(n.x0, n.x1, n.y0, 0, n.x1 - n.x0, d, YStep(n), n.steep, n.x0, n.y0, 0);
    assert pts[0] == Unswap(n.steep, n.x0, n.y0);
    assert pts[|pts| - 1] == Unswap(n.steep, n.x1, n.y1);
  }

  /** On a 45-degree run the error returns to 0 each step and y follows x. */
  lemma {:induction false} DiagonalSteps(x: int, xEnd: int, y: int, dx: int)
    requires dx > 0
    ensures LineSteps(x, xEnd, y, 0, dx, 2 * dx, 1, false) == seq(if x <= xEnd then xEnd - x + 1 else 0, k => Vec2(x + k, y + k))
    decreases xEnd - x + 1
  {
    if x <= xEnd {
      DiagonalSteps(x + 1, xEnd, y + 1, dx);
      var rest := LineSteps(x + 1, xEnd, y + 1, 0, dx, 2 * dx, 1, false);
      assert LineSteps(x, xEnd, y, 0, dx, 2 * dx, 1, false) == [Vec2(x, y)] + rest;
      assert forall k :: 0 <= k < |rest| ==> rest[k] == Vec2(x + 1 + k, y + 1 + k);
    }
  }

  /** A line from (a, a) to (a + n, a + n) is the n + 1 diagonal points. */
  lemma {:induction false} DiagonalLine(a: int, n: nat)
    ensures LinePoints(a, a, a + n, a + n) == seq(n + 1, k => Vec2(a + k, a + k))
  {
    if n > 0 {
      DiagonalSteps(a, a + n, a, n);
    }
  }

  /**
   * `drawLine(0, 0, 8, 8)` in red on a transparent 8x8 buffer: (k, k) is red
   * for k < 8 (the end point (8, 8) is rejected), and (4, 2) and (1, 3)
   * stay transparent.
   */
  lemma DrawLineDiagonalExample()
    ensures var q := PlotAll(seq(64, _ => TRANSPARENT), 8, 8, LinePoints(0, 0, 8, 8), RED);
      (forall k :: 0 <= k < 8 ==> PixelAt(q, 8, 8, k, k) == RED) &&
      PixelAt(q, 8, 8, 4, 2) == TRANSPARENT && PixelAt(q, 8, 8, 1, 3) == TRANSPARENT
  {
    var p: seq<RGBAColor> := seq(64, _ => TRANSPARENT);
    var pts := LinePoints(0, 0, 8, 8);
    DiagonalLine(0, 8);
    var q := PlotAll(p, 8, 8, pts, RED);
    forall k | 0 <= k < 8
      ensures PixelAt(q, 8, 8, k, k) == RED
    {
      PlotAllOpaque(p, 8, 8, pts, RED, 9 * k);
      assert Accepts(8, 8, 64, pts[k].x, pts[k].y);
    }
    PlotAllOpaque(p, 8, 8, pts, RED, 20);
    PlotAllOpaque(p, 8, 8, pts, RED, 25);
  }

  /** With no rise the error never grows, so every point keeps row y. */
  lemma {:induction false} FlatSteps(x: int, xEnd: int, y: int, dx: int, ystep: int, steep: bool, k: int)
    requires dx >= 0 && 0 <= k < |LineSteps(x, xEnd, y, 0, dx, 0, ystep, steep)|
    ensures LineSteps(x, xEnd, y, 0, dx, 0, ystep, steep)[k] == Unswap(steep, x + k, y)
    decreases xEnd - x + 1
  {
    if k > 0 {
      FlatSteps(x + 1, xEnd, y, dx, ystep, steep, k - 1);
    }
  }

  /** A horizontal line stays on its row and a vertical line on its column. */
  lemma {:induction false} AxisLine(x0: int, y0: int, x1: int, y1: int, q: Vec2)
    requires q in LinePoints(x0, y0, x1, y1)
    ensures y0 == y1 ==> q.y == y0
    ensures x0 == x1 ==> q.x == x0
  {
    var n := Normalize(x0, y0, x1, y1);
    var pts := LinePoints(x0, y0, x1, y1);
    var k :| 0 <= k < |pts| && pts[k] == q;
    if y0 == y1 || x0 == x1 {
      assert n.y0 == n.y1;
      FlatSteps(n.x0, n.x1, n.y0, n.x1 - n.x0, YStep(n), n.steep, k);
    }
  }

  /** The points of `drawSquare(x0, y0, x1, y1)`: four lines, x1 and y1 being width and height. */
  function SquarePoints(x0: int, y0: int, x1: int, y1: int): seq<Vec2> {
    LinePoints(x0, y0, x0 + x1, y0) + LinePoints(x0 + x1, y0, x0 + x1, y0 + y1) +
    LinePoints(x0, y0 + y1, x0 + x1, y0 + y1) + LinePoints(x0, y0, x0, y0 + y1)
  }

  /** Plotting the four edges one after the other is plotting the outline. */
  lemma {:induction false} SquareEdges(p0: seq<RGBAColor>, p1: seq<RGBAColor>, p2: seq<RGBAColor>, p3: seq<RGBAColor>, p4: seq<RGBAColor>,
                                       w: nat, h: nat, x0: int, y0: int, x1: int, y1: int, c: RGBAColor)
    requires p1 == PlotAll(p0, w, h, LinePoints(x0, y0, x0 + x1, y0), c)
    requires p2 == PlotAll(p1, w, h, LinePoints(x0 + x1, y0, x0 + x1, y0 + y1), c)
    requires p3 == PlotAll(p2, w, h, LinePoints(x0, y0 + y1, x0 + x1, y0 + y1), c)
    requires p4 == PlotAll(p3, w, h, LinePoints(x0, y0, x0, y0 + y1), c)
    ensures p4 == PlotAll(p0, w, h, SquarePoints(x0, y0, x1, y1), c)
  {
    var e1, e2 := LinePoints(x0, y0, x0 + x1, y0), LinePoints(x0 + x1, y0, x0 + x1, y0 + y1);
    var e3, e4 := LinePoints(x0, y0 + y1, x0 + x1, y0 + y1), LinePoints(x0, y0, x0, y0 + y1);
    PlotAllConcat(p0, w, h, e1, e2, c);
    PlotAllConcat(p0, w, h, e1 + e2, e3, c);
    PlotAllConcat(p0, w, h, e1 + e2 + e3, e4, c);
  }

  /**
   * The outline contains its four corners, and every point of it lies on one
   * of the four edges.
   */
  lemma {:induction false} SquareOutline(x0: int, y0: int, x1: int, y1: int)
    ensures var pts := SquarePoints(x0, y0, x1, y1);
      Vec2(x0, y0) in pts && Vec2(x0 + x1, y0) in pts && Vec2(x0, y0 + y1) in pts && Vec2(x0 + x1, y0 + y1) in pts
    ensures forall q :: q in SquarePoints(x0, y0, x1, y1) ==>
      q.y == y0 || q.y == y0 + y1 || q.x == x0 || q.x == x0 + x1
  {
    var e1, e2 := LinePoints(x0, y0, x0 + x1, y0), LinePoints(x0 + x1, y0, x0 + x1, y0 + y1);
    var e3, e4 := LinePoints(x0, y0 + y1, x0 + x1, y0 + y1), LinePoints(x0, y0, x0, y0 + y1);
    assert SquarePoints(x0, y0, x1, y1) == e1 + e2 + e3 + e4;
    LineEndpoints(x0, y0, x0 + x1, y0);
    LineEndpoints(x0, y0 + y1, x0 + x1, y0 + y1);
    forall q: Vec2 | q in e1 + e2 + e3 + e4
      ensures q.y == y0 || q.y == y0 + y1 || q.x == x0 || q.x == x0 + x1
    {
      OnSquareEdge(x0, y0, x1, y1, q);
    }
  }

  /** A point of the outline lies on the edge it was drawn for. */
  lemma {:induction false} OnSquareEdge(x0: int, y0: int, x1: int, y1: int, q: Vec2)
    requires q in LinePoints(x0, y0, x0 + x1, y0) + LinePoints(x0 + x1, y0, x0 + x1, y0 + y1) +
      LinePoints(x0, y0 + y1, x0 + x1, y0 + y1) + LinePoints(x0, y0, x0, y0 + y1)
    ensures q.y == y0 || q.y == y0 + y1 || q.x == x0 || q.x == x0 + x1
  {
    var e1, e2 := LinePoints(x0, y0, x0 + x1, y0), LinePoints(x0 + x1, y0, x0 + x1, y0 + y1);
    var e3, e4 := LinePoints(x0, y0 + y1, x0 + x1, y0 + y1), LinePoints(x0, y0, x0, y0 + y1);
    assert q in e1 || q in e2 || q in e3 || q in e4;
    if q in e1 {
      AxisLine(x0, y0, x0 + x1, y0, q);
    } else if q in e2 {
      AxisLine(x0 + x1, y0, x0 + x1, y0 + y1, q);
    } else if q in e3 {
      AxisLine(x0, y0 + y1, x0 + x1, y0 + y1, q);
    } else {
      AxisLine(x0, y0, x0, y0 + y1, q);
    }
  }

  /** The eight positions `drawCircle` pushes for one (x, y), in its order. */
  function Octants(x: int, y: int): seq<Vec2> {
    [Vec2(x, y), Vec2(y, x), Vec2(-y, x), Vec2(-x, y), Vec2(-x, -y), Vec2(-y, -x), Vec2(y, -x), Vec2(x, -y)]
  }

  /**
   * The positions the `drawCircle` loop collects from (x, y, err) on. Each
   * iteration either raises y or lowers x (a non-positive error raises y,
   * which makes the error positive whenever it does not lower x), so x - y
   * falls and the loop ends.
   */
  function CircleSteps(x: int, y: int, err: int): (pts: seq<Vec2>)
    ensures |pts| % 8 == 0
    decreases x - y
  {
    if x < y then []
    else
      var (y1, err1) := if err <= 0 then (y + 1, err + 2 * (y + 1) + 1) else (y, err);
      var (x1, err2) := if err1 > 0 then (x - 1, err1 - (2 * (x - 1) + 1)) else (x, err1);
      Octants(x, y) + CircleSteps(x1, y1, err2)
  }

  /** The offsets `drawCircle` plots around its centre. */
  function CirclePositions(radius: int): (pts: seq<Vec2>)
    ensures |pts| % 8 == 0
  {
    CircleSteps(radius, 0, 0)
  }

  /** Each offset moved by the centre, as passed to `setPixel`. */
  function Translate(pts: seq<Vec2>, cx: int, cy: int): (moved: seq<Vec2>)
    ensures |moved| == |pts|
    ensures forall k :: 0 <= k < |pts| ==> moved[k] == Vec2(pts[k].x + cx, pts[k].y + cy)
  {
    seq(|pts|, k requires 0 <= k < |pts| => Vec2(pts[k].x + cx, pts[k].y + cy))
  }

  /** The eight images of a position under the swaps and reflections of the axes. */
  predicate ClosedAt(pts: seq<Vec2>, q: Vec2) {
    Vec2(q.y, q.x) in pts && Vec2(-q.x, q.y) in pts && Vec2(q.x, -q.y) in pts && Vec2(-q.x, -q.y) in pts
  }

  lemma {:induction false} CircleStepsSymmetric(x: int, y: int, err: int, q: Vec2)
    requires q in CircleSteps(x, y, err)
    ensures ClosedAt(CircleSteps(x, y, err), q)
    decreases x - y
  {
    var y1 := if err <= 0 then y + 1 else y;
    var err1 := if err <= 0 then err + 2 * y1 + 1 else err;
    var x1 := if err1 > 0 then x - 1 else x;
    var err2 := if err1 > 0 then err1 - (2 * x1 + 1) else err1;
    var head, rest := Octants(x, y), CircleSteps(x1, y1, err2);
    assert CircleSteps(x, y, err) == head + rest;
    if q in head {
      OctantsClosed(x, y, q);
    } else {
      CircleStepsSymmetric(x1, y1, err2, q);
    }
    ClosedAtAppend(head, rest, q);
  }

  /**
   * The eight positions of one step are closed under the symmetries: the
   * tables give, for each of them, where its swap and its reflections sit.
   */
  lemma {:induction false} OctantsClosed(x: int, y: int, q: Vec2)
    requires q in Octants(x, y)
    ensures ClosedAt(Octants(x, y), q)
  {
    var o := Octants(x, y);
    var i :| 0 <= i < 8 && o[i] == q;
    var swap, negX, negY, negXY := [1, 0, 7, 6, 5, 4, 3, 2], [3, 2, 1, 0, 7, 6, 5, 4], [7, 6, 5, 4, 3, 2, 1, 0], [4, 5, 6, 7, 0, 1, 2, 3];
    assert o[swap[i]] == Vec2(q.y, q.x);
    assert o[negX[i]] == Vec2(-q.x, q.y);
    assert o[negY[i]] == Vec2(q.x, -q.y);
    assert o[negXY[i]] == Vec2(-q.x, -q.y);
  }

  /** A position closed in one part of a list is closed in the whole. */
  lemma {:induction false} ClosedAtAppend(a: seq<Vec2>, b: seq<Vec2>, q: Vec2)
    requires ClosedAt(a, q) || ClosedAt(b, q)
    ensures ClosedAt(a + b, q)
  {
  }

  /**
   * The plotted offsets are closed under the eight symmetries of the square:
   * swapping the coordinates and negating either of them.
   */
  lemma {:induction false} CircleSymmetric(radius: int, q: Vec2)
    requires q in CirclePositions(radius)
    ensures ClosedAt(CirclePositions(radius), q)
  {
    CircleStepsSymmetric(radius, 0, 0, q);
  }

  /** A circle of radius r >= 0 passes through (r, 0), (-r, 0), (0, r) and (0, -r). */
  lemma {:induction false} CircleCardinals(radius: int)
    requires radius >= 0
    ensures var pts := CirclePositions(radius);
      Vec2(radius, 0) in pts && Vec2(-radius, 0) in pts && Vec2(0, radius) in pts && Vec2(0, -radius) in pts
  {
    var pts := CirclePositions(radius);
    assert pts[..8] == Octants(radius, 0);
    assert pts[0] == Vec2(radius, 0) && pts[3] == Vec2(-radius, 0) && pts[1] == Vec2(0, radius) && pts[6] == Vec2(0, -radius);
  }

  /** Radius 0 plots only the centre (eight times); a negative radius plots nothing. */
  lemma CircleDegenerate()
    ensures CirclePositions(0) == seq(8, _ => Vec2(0, 0))
    ensures forall r :: r < 0 ==> CirclePositions(r) == []
  {
    assert CircleSteps(-1, 1, 4) == [];
  }

  lemma {:induction false} CircleStepsBounded(x: int, y: int, err: int, radius: int, q: Vec2)
    requires x <= radius && 0 <= y && q in CircleSteps(x, y, err)
    ensures Abs(q.x) <= radius && Abs(q.y) <= radius
    decreases x - y
  {
    var (y1, err1) := if err <= 0 then (y + 1, err + 2 * (y + 1) + 1) else (y, err);
    var (x1, err2) := if err1 > 0 then (x - 1, err1 - (2 * (x - 1) + 1)) else (x, err1);
    assert CircleSteps(x, y, err) == Octants(x, y) + CircleSteps(x1, y1, err2);
    if q !in Octants(x, y) {
      CircleStepsBounded(x1, y1, err2, radius, q);
    }
  }

  /** No offset lies outside the square of side 2r around the centre. */
  lemma {:induction false} CircleBounded(radius: int, q: Vec2)
    requires q in CirclePositions(radius)
    ensures Abs(q.x) <= radius && Abs(q.y) <= radius
  {
    CircleStepsBounded(radius, 0, 0, radius, q);
  }
}
